/**
 * Small fixed-size vectors and matrices of the collision core (Warp's vec2,
 * vec3, vec5, mat33 and vec2i), over real numbers, and the world-broadcast
 * row rule shared by every per-world model table.
 */
module CollisionTypes {

  /** A strictly positive real: the type of the floors MJ_MINVAL and MJ_MINMU. */
  type PosReal = r: real | r > 0.0 witness 1.0

  datatype Vec2 = Vec2(x: real, y: real)
  datatype Vec3 = Vec3(x: real, y: real, z: real)
  datatype Vec5 = Vec5(e0: real, e1: real, e2: real, e3: real, e4: real)
  /** A 3x3 matrix stored by rows. */
  datatype Mat33 = Mat33(row0: Vec3, row1: Vec3, row2: Vec3)
  /** A pair of integers: geometry ids, or a pair-id tag. */
  datatype Vec2i = Vec2i(x: int, y: int)

  function Dot(a: Vec3, b: Vec3): real {
    a.x * b.x + a.y * b.y + a.z * b.z
  }

  /** The product m * v. */
  function MatVec(m: Mat33, v: Vec3): Vec3 {
    Vec3(Dot(m.row0, v), Dot(m.row1, v), Dot(m.row2, v))
  }

  /**
   * The row of a per-world table used by world `worldid`. A table holds
   * either one row, shared by every world, or one row per world; indexing
   * by `worldid % rows` serves both.
   */
  function WorldRow(rows: nat, worldid: nat): (r: nat)
    requires rows > 0
    ensures r < rows
    ensures rows == 1 ==> r == 0
    ensures worldid < rows ==> r == worldid
  {
    worldid % rows
  }
}
