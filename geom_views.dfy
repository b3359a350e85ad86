/**
 * The geometry view builder (geom_collision_pair): for a pair of geometry
 * ids and a world id, two read-only Geom views holding pose, size, the
 * derived surface normal and the mesh references of each geometry.
 */
module GeomViews {
  import opened CollisionTypes

  /** The one distinction among geometry types that the view builder draws. */
  datatype GeomType = Mesh | NonMesh

  /**
   * Mesh addresses and counts of a view: vertex address and count, graph
   * address, polygon count and polygon address. An absent mesh is the
   * sentinel -1 in every field.
   */
  datatype MeshRef = MeshRef(vertadr: int, vertnum: int, graphadr: int, polynum: int, polyadr: int)

  const Absent := MeshRef(-1, -1, -1, -1, -1)
  /** The fields of a freshly built view before anything is stored in them. */
  const Unset := MeshRef(0, 0, 0, 0, 0)

  /**
   * A view of one geometry. The whole-table references (vertices, graph,
   * polygon tables) and the height-field prism are not part of the model.
   */
  datatype Geom = Geom(pos: Vec3, rot: Mat33, normal: Vec3, size: Vec3, margin: real, mesh: MeshRef, index: int)

  /** Per-mesh tables, indexed by mesh id. */
  datatype MeshTables = MeshTables(vertadr: seq<int>, vertnum: seq<int>, graphadr: seq<int>, polynum: seq<int>, polyadr: seq<int>)

  /** The model arrays the builder reads; geomSize is a per-world table. */
  datatype GeomModel = GeomModel(geomType: seq<GeomType>, geomDataid: seq<int>, geomSize: seq<seq<Vec3>>, mesh: MeshTables)

  predicate HasMesh(t: MeshTables, id: int) {
    0 <= id < |t.vertadr| && id < |t.vertnum| && id < |t.graphadr| && id < |t.polynum| && id < |t.polyadr|
  }

  function MeshAt(t: MeshTables, id: int): MeshRef
    requires HasMesh(t, id)
  {
    MeshRef(t.vertadr[id], t.vertnum[id], t.graphadr[id], t.polynum[id], t.polyadr[id])
  }

  /** Every index the builder reads for geometry g in world worldid is in range. */
  predicate ViewInputsOk(m: GeomModel, xpos: seq<seq<Vec3>>, xmat: seq<seq<Mat33>>, g: int, worldid: nat) {
    && 0 <= g < |m.geomType| && g < |m.geomDataid|
    && worldid < |xpos| && g < |xpos[worldid]|
    && worldid < |xmat| && g < |xmat[worldid]|
    && |m.geomSize| > 0 && g < |m.geomSize[WorldRow(|m.geomSize|, worldid)]|
    && (m.geomType[g] == Mesh && m.geomDataid[g] >= 0 ==> HasMesh(m.mesh, m.geomDataid[g]))
  }

  /** The third column of a rotation matrix. */
  function Column2(rot: Mat33): Vec3 {
    Vec3(rot.row0.z, rot.row1.z, rot.row2.z)
  }

  /** The view of geometry g in world worldid. */
  function GeomView(m: GeomModel, xpos: seq<seq<Vec3>>, xmat: seq<seq<Mat33>>, g: int, worldid: nat): (v: Geom)
    requires ViewInputsOk(m, xpos, xmat, g, worldid)
    ensures v.pos == xpos[worldid][g] && v.rot == xmat[worldid][g]
    ensures v.size == m.geomSize[WorldRow(|m.geomSize|, worldid)][g]
    // the normal is the geometry's z-axis carried into the world frame
    ensures v.normal == MatVec(v.rot, Vec3(0.0, 0.0, 1.0))
    ensures v.index == -1 && v.margin == 0.0
    ensures m.geomType[g] == Mesh && m.geomDataid[g] < 0 ==> v.mesh == Absent
    ensures m.geomType[g] == Mesh && m.geomDataid[g] >= 0 ==> v.mesh == MeshAt(m.mesh, m.geomDataid[g])
    ensures m.geomType[g] == NonMesh ==> v.mesh == Unset
  {
    var rot := xmat[worldid][g];
    var mesh :=
      if m.geomType[g] != Mesh then Unset
      else if m.geomDataid[g] >= 0 then MeshAt(m.mesh, m.geomDataid[g])
      else Absent;
    Geom(xpos[worldid][g], rot, Column2(rot), m.geomSize[worldid % |m.geomSize|][g], 0.0, mesh, -1)
  }

  /** The two views of a candidate pair: each built from its own geometry id, in the same world. */
  function GeomCollisionPair(m: GeomModel, xpos: seq<seq<Vec3>>, xmat: seq<seq<Mat33>>, geoms: Vec2i, worldid: nat): (r: (Geom, Geom))
    requires ViewInputsOk(m, xpos, xmat, geoms.x, worldid)
    requires ViewInputsOk(m, xpos, xmat, geoms.y, worldid)
    ensures r.0 == GeomView(m, xpos, xmat, geoms.x, worldid)
    ensures r.1 == GeomView(m, xpos, xmat, geoms.y, worldid)
  {
    (GeomView(m, xpos, xmat, geoms.x, worldid), GeomView(m, xpos, xmat, geoms.y, worldid))
  }

  /** The first view depends only on the first geometry id, the second only on the second. */
  lemma ViewsIndependent(m: GeomModel, xpos: seq<seq<Vec3>>, xmat: seq<seq<Mat33>>, a: Vec2i, b: Vec2i, worldid: nat)
    requires ViewInputsOk(m, xpos, xmat, a.x, worldid) && ViewInputsOk(m, xpos, xmat, a.y, worldid)
    requires ViewInputsOk(m, xpos, xmat, b.x, worldid) && ViewInputsOk(m, xpos, xmat, b.y, worldid)
    ensures a.x == b.x ==> GeomCollisionPair(m, xpos, xmat, a, worldid).0 == GeomCollisionPair(m, xpos, xmat, b, worldid).0
    ensures a.y == b.y ==> GeomCollisionPair(m, xpos, xmat, a, worldid).1 == GeomCollisionPair(m, xpos, xmat, b, worldid).1
    ensures a.x == b.y ==> GeomCollisionPair(m, xpos, xmat, a, worldid).0 == GeomCollisionPair(m, xpos, xmat, b, worldid).1
  {
  }

  /**
   * A view never carries a stale mesh reference: when the mesh tables hold no
   * negative entry at the geometry's mesh id, a mesh geometry's view reads -1
   * in any mesh field exactly when it has no mesh.
   */
  lemma MeshSentinelExact(m: GeomModel, xpos: seq<seq<Vec3>>, xmat: seq<seq<Mat33>>, g: int, worldid: nat)
    requires ViewInputsOk(m, xpos, xmat, g, worldid)
    requires m.geomType[g] == Mesh
    requires m.geomDataid[g] >= 0 ==> var r := MeshAt(m.mesh, m.geomDataid[g]);
      r.vertadr >= 0 && r.vertnum >= 0 && r.graphadr >= 0 && r.polynum >= 0 && r.polyadr >= 0
    ensures var v := GeomView(m, xpos, xmat, g, worldid);
      (v.mesh.vertadr == -1 <==> m.geomDataid[g] < 0) && (v.mesh == Absent <==> m.geomDataid[g] < 0)
  {
  }
}
