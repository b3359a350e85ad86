/**
 * The contact parameter resolver (contact_params): the friction, solver
 * reference, solver impedance, margin, gap and dimensionality of a contact,
 * copied from an explicit pair override or mixed from the two geometries.
 */
module ContactParameters {
  import opened CollisionTypes

  /** The per-geometry material arrays; all but condim and priority are per-world tables. */
  datatype GeomMaterials = GeomMaterials(
    condim: seq<int>, priority: seq<int>,
    solmix: seq<seq<real>>, solref: seq<seq<Vec2>>, solimp: seq<seq<Vec5>>,
    friction: seq<seq<Vec3>>, margin: seq<seq<real>>, gap: seq<seq<real>>)

  /** The explicit pair-override arrays, indexed [world, pair] (dim by pair only). */
  datatype PairOverrides = PairOverrides(
    dim: seq<int>, solref: seq<seq<Vec2>>, solreffriction: seq<seq<Vec2>>, solimp: seq<seq<Vec5>>,
    margin: seq<seq<real>>, gap: seq<seq<real>>, friction: seq<seq<Vec5>>)

  /** The resolved parameters of one contact. */
  datatype Material = Material(
    margin: real, gap: real, condim: int, friction: Vec5,
    solref: Vec2, solreffriction: Vec2, solimp: Vec5)

  predicate HasEntry<T>(t: seq<seq<T>>, worldid: nat, g: int) {
    |t| > 0 && 0 <= g < |t[WorldRow(|t|, worldid)]|
  }

  /** The entry of geometry g in a per-world table, under the broadcast rule. */
  function Entry<T>(t: seq<seq<T>>, worldid: nat, g: int): T
    requires HasEntry(t, worldid, g)
  {
    t[WorldRow(|t|, worldid)][g]
  }

  predicate GeomEntries(gm: GeomMaterials, g: int, worldid: nat) {
    && 0 <= g < |gm.condim| && g < |gm.priority|
    && HasEntry(gm.solmix, worldid, g) && HasEntry(gm.solref, worldid, g) && HasEntry(gm.solimp, worldid, g)
    && HasEntry(gm.friction, worldid, g) && HasEntry(gm.margin, worldid, g) && HasEntry(gm.gap, worldid, g)
  }

  /** The override tables are read at [worldid, pairid] directly, with no broadcast. */
  predicate HasDirect<T>(t: seq<seq<T>>, worldid: nat, pairid: int) {
    worldid < |t| && 0 <= pairid < |t[worldid]|
  }

  predicate PairEntries(po: PairOverrides, pairid: int, worldid: nat) {
    && 0 <= pairid < |po.dim|
    && HasDirect(po.solref, worldid, pairid) && HasDirect(po.solreffriction, worldid, pairid)
    && HasDirect(po.solimp, worldid, pairid) && HasDirect(po.margin, worldid, pairid)
    && HasDirect(po.gap, worldid, pairid) && HasDirect(po.friction, worldid, pairid)
  }

  function Max(a: int, b: int): int { if a >= b then a else b }
  function MaxR(a: real, b: real): real { if a >= b then a else b }
  function MinR(a: real, b: real): real { if a <= b then a else b }

  /**
   * The weight of geometry 1 when neither geometry has priority. A solmix
   * below minval means "defer to the other geometry"; when both are below it
   * the two count equally.
   */
  function SolmixWeight(solmix1: real, solmix2: real, minval: PosReal): (mix: real)
    ensures 0.0 <= mix <= 1.0
    ensures solmix1 < minval && solmix2 < minval ==> mix == 0.5
    ensures solmix1 < minval <= solmix2 ==> mix == 0.0
    ensures solmix2 < minval <= solmix1 ==> mix == 1.0
    ensures minval <= solmix1 && minval <= solmix2 ==> 0.0 < mix < 1.0 && mix * (solmix1 + solmix2) == solmix1
  {
    if solmix1 < minval && solmix2 < minval then 0.5
    else if solmix1 < minval then 0.0
    else if solmix2 < minval then 1.0
    else solmix1 / (solmix1 + solmix2)
  }

  /** The elementwise maximum of two friction triples. */
  function MaxFriction(a: Vec3, b: Vec3): (r: Vec3)
    ensures r.x >= a.x && r.x >= b.x && (r.x == a.x || r.x == b.x)
    ensures r.y >= a.y && r.y >= b.y && (r.y == a.y || r.y == b.y)
    ensures r.z >= a.z && r.z >= b.z && (r.z == a.z || r.z == b.z)
  {
    Vec3(MaxR(a.x, b.x), MaxR(a.y, b.y), MaxR(a.z, b.z))
  }

  /** (sliding, torsional, rolling) to the two sliding, one torsional and two rolling axes. */
  function ExpandFriction(f: Vec3): Vec5 {
    Vec5(f.x, f.x, f.y, f.z, f.z)
  }

  function MixVec2(mix: real, a: Vec2, b: Vec2): Vec2 {
    Vec2(mix * a.x + (1.0 - mix) * b.x, mix * a.y + (1.0 - mix) * b.y)
  }

  function MixVec5(mix: real, a: Vec5, b: Vec5): Vec5 {
    Vec5(mix * a.e0 + (1.0 - mix) * b.e0, mix * a.e1 + (1.0 - mix) * b.e1, mix * a.e2 + (1.0 - mix) * b.e2,
         mix * a.e3 + (1.0 - mix) * b.e3, mix * a.e4 + (1.0 - mix) * b.e4)
  }

  function MinVec2(a: Vec2, b: Vec2): Vec2 {
    Vec2(MinR(a.x, b.x), MinR(a.y, b.y))
  }

  /** x lies in the closed interval spanned by a and b. */
  predicate Between(x: real, a: real, b: real) {
    (a <= x <= b) || (b <= x <= a)
  }

  /**
   * The solver reference of a mixed contact: spring-damper references (both
   * first components positive) are mixed, so each component lies between the
   * two inputs; otherwise (direct mode, a first component of 0 included) each
   * component is the smaller of the two.
   */
  function MixSolref(mix: real, s1: Vec2, s2: Vec2): (r: Vec2)
    requires 0.0 <= mix <= 1.0
    ensures s1.x > 0.0 && s2.x > 0.0 ==> r == MixVec2(mix, s1, s2)
    ensures s1.x > 0.0 && s2.x > 0.0 ==> Between(r.x, s1.x, s2.x) && Between(r.y, s1.y, s2.y)
    ensures s1.x > 0.0 && s2.x > 0.0 && mix == 1.0 ==> r == s1
    ensures s1.x > 0.0 && s2.x > 0.0 && mix == 0.0 ==> r == s2
    ensures !(s1.x > 0.0 && s2.x > 0.0) ==>
      r.x <= s1.x && r.x <= s2.x && (r.x == s1.x || r.x == s2.x) &&
      r.y <= s1.y && r.y <= s2.y && (r.y == s1.y || r.y == s2.y)
  {
    if s1.x > 0.0 && s2.x > 0.0 then
      MixBetween(mix, s1.x, s2.x);
      MixBetween(mix, s1.y, s2.y);
      MixVec2(mix, s1, s2)
    else MinVec2(s1, s2)
  }

  /** A convex combination of a and b lies between them. */
  lemma MixBetween(mix: real, a: real, b: real)
    requires 0.0 <= mix <= 1.0
    ensures Between(mix * a + (1.0 - mix) * b, a, b)
  {
    assert mix * a + (1.0 - mix) * b == b + mix * (a - b);
    assert mix * a + (1.0 - mix) * b == a - (1.0 - mix) * (a - b);
    if a >= b {
      NonNegProduct(mix, a - b);
      NonNegProduct(1.0 - mix, a - b);
    } else {
      NonNegProduct(mix, b - a);
      NonNegProduct(1.0 - mix, b - a);
    }
  }

  lemma NonNegProduct(x: real, y: real)
    requires x >= 0.0 && y >= 0.0
    ensures x * y >= 0.0
  {
  }

  /** Every friction component is at least minmu. */
  predicate FrictionFloor(f: Vec5, minmu: real) {
    f.e0 >= minmu && f.e1 >= minmu && f.e2 >= minmu && f.e3 >= minmu && f.e4 >= minmu
  }

  /** Raises each friction component to at least minmu: a component below it becomes minmu, any other is kept. */
  function ClampFriction(f: Vec5, minmu: PosReal): (r: Vec5)
    ensures FrictionFloor(r, minmu)
    ensures FrictionFloor(f, minmu) ==> r == f
    ensures r.e0 >= f.e0 && r.e1 >= f.e1 && r.e2 >= f.e2 && r.e3 >= f.e3 && r.e4 >= f.e4
    ensures (r.e0 == f.e0 || r.e0 == minmu) && (r.e1 == f.e1 || r.e1 == minmu) && (r.e2 == f.e2 || r.e2 == minmu)
    ensures (r.e3 == f.e3 || r.e3 == minmu) && (r.e4 == f.e4 || r.e4 == minmu)
  {
    Vec5(MaxR(minmu, f.e0), MaxR(minmu, f.e1), MaxR(minmu, f.e2), MaxR(minmu, f.e3), MaxR(minmu, f.e4))
  }

  /**
   * The parameters of an explicit pair override, before the friction floor:
   * every field from row worldid of its table (no broadcast), condim from the
   * per-pair dim.
   */
  function PairMaterial(po: PairOverrides, pairid: int, worldid: nat): (mat: Material)
    requires PairEntries(po, pairid, worldid)
    ensures mat.margin == po.margin[worldid][pairid] && mat.gap == po.gap[worldid][pairid]
    ensures mat.condim == po.dim[pairid] && mat.friction == po.friction[worldid][pairid]
    ensures mat.solref == po.solref[worldid][pairid] && mat.solreffriction == po.solreffriction[worldid][pairid]
    ensures mat.solimp == po.solimp[worldid][pairid]
  {
    Material(po.margin[worldid][pairid], po.gap[worldid][pairid], po.dim[pairid], po.friction[worldid][pairid],
             po.solref[worldid][pairid], po.solreffriction[worldid][pairid], po.solimp[worldid][pairid])
  }

  /** The parameters mixed from geometries g1 and g2, before the friction floor. */
  function GeomMaterial(gm: GeomMaterials, g1: int, g2: int, worldid: nat, minval: PosReal): (mat: Material)
    requires GeomEntries(gm, g1, worldid) && GeomEntries(gm, g2, worldid)
    // margin and gap ignore priority and are summed
    ensures mat.margin == Entry(gm.margin, worldid, g1) + Entry(gm.margin, worldid, g2)
    ensures mat.gap == Entry(gm.gap, worldid, g1) + Entry(gm.gap, worldid, g2)
    ensures mat.solreffriction == Vec2(0.0, 0.0)
    ensures mat.friction.e0 == mat.friction.e1 && mat.friction.e3 == mat.friction.e4
    // a priority winner gives its own condim, friction and impedance, unmixed
    ensures gm.priority[g1] > gm.priority[g2] ==>
      mat.condim == gm.condim[g1] && mat.friction == ExpandFriction(Entry(gm.friction, worldid, g1)) &&
      mat.solimp == Entry(gm.solimp, worldid, g1)
    ensures gm.priority[g2] > gm.priority[g1] ==>
      mat.condim == gm.condim[g2] && mat.friction == ExpandFriction(Entry(gm.friction, worldid, g2)) &&
      mat.solimp == Entry(gm.solimp, worldid, g2)
    // with equal priority: the larger condim, the larger friction per axis, impedance mixed by solmix weight
    ensures gm.priority[g1] == gm.priority[g2] ==>
      mat.condim == Max(gm.condim[g1], gm.condim[g2]) &&
      mat.condim >= gm.condim[g1] && mat.condim >= gm.condim[g2] &&
      mat.friction == ExpandFriction(MaxFriction(Entry(gm.friction, worldid, g1), Entry(gm.friction, worldid, g2))) &&
      mat.solimp == MixVec5(SolmixWeight(Entry(gm.solmix, worldid, g1), Entry(gm.solmix, worldid, g2), minval),
                            Entry(gm.solimp, worldid, g1), Entry(gm.solimp, worldid, g2))
    ensures gm.priority[g1] > gm.priority[g2] && Entry(gm.solref, worldid, g1).x > 0.0 && Entry(gm.solref, worldid, g2).x > 0.0 ==>
      mat.solref == Entry(gm.solref, worldid, g1)
    ensures gm.priority[g2] > gm.priority[g1] && Entry(gm.solref, worldid, g1).x > 0.0 && Entry(gm.solref, worldid, g2).x > 0.0 ==>
      mat.solref == Entry(gm.solref, worldid, g2)
    ensures !(Entry(gm.solref, worldid, g1).x > 0.0 && Entry(gm.solref, worldid, g2).x > 0.0) ==>
      mat.solref == MinVec2(Entry(gm.solref, worldid, g1), Entry(gm.solref, worldid, g2))
    // with equal priority and both references in spring-damper mode, solref is mixed by the solmix weight
    ensures gm.priority[g1] == gm.priority[g2] && Entry(gm.solref, worldid, g1).x > 0.0 && Entry(gm.solref, worldid, g2).x > 0.0 ==>
      mat.solref == MixVec2(SolmixWeight(Entry(gm.solmix, worldid, g1), Entry(gm.solmix, worldid, g2), minval),
                            Entry(gm.solref, worldid, g1), Entry(gm.solref, worldid, g2))
  {
    var solmix1, solmix2 := Entry(gm.solmix, worldid, g1), Entry(gm.solmix, worldid, g2);
    var p1, p2 := gm.priority[g1], gm.priority[g2];
    var f1, f2 := Entry(gm.friction, worldid, g1), Entry(gm.friction, worldid, g2);
    var (mix, condim, maxFriction) :=
      if p1 > p2 then (1.0, gm.condim[g1], f1)
      else if p2 > p1 then (0.0, gm.condim[g2], f2)
      else (SolmixWeight(solmix1, solmix2, minval), Max(gm.condim[g1], gm.condim[g2]), MaxFriction(f1, f2));
    var solimp1, solimp2 := Entry(gm.solimp, worldid, g1), Entry(gm.solimp, worldid, g2);
    Material(
      Entry(gm.margin, worldid, g1) + Entry(gm.margin, worldid, g2),
      Entry(gm.gap, worldid, g1) + Entry(gm.gap, worldid, g2),
      condim,
      ExpandFriction(maxFriction),
      MixSolref(mix, Entry(gm.solref, worldid, g1), Entry(gm.solref, worldid, g2)),
      Vec2(0.0, 0.0),
      MixVec5(mix, solimp1, solimp2))
  }

  /** Every index contact_params reads for candidate cid is in range. */
  predicate ParamsInputsOk(gm: GeomMaterials, po: PairOverrides, collisionPair: seq<Vec2i>, collisionPairid: seq<Vec2i>,
                           cid: nat, worldid: nat)
  {
    && cid < |collisionPair| && cid < |collisionPairid|
    && (collisionPairid[cid].x > -1 ==> PairEntries(po, collisionPairid[cid].x, worldid))
    && (collisionPairid[cid].x <= -1 ==>
          GeomEntries(gm, collisionPair[cid].x, worldid) && GeomEntries(gm, collisionPair[cid].y, worldid))
  }

  /**
   * The parameters of candidate cid: from the override tables when its tag
   * names an override, mixed from its two geometries otherwise; in both cases
   * with every friction component raised to at least minmu.
   */
  function ContactParams(gm: GeomMaterials, po: PairOverrides, collisionPair: seq<Vec2i>, collisionPairid: seq<Vec2i>,
                         cid: nat, worldid: nat, minval: PosReal, minmu: PosReal): (r: (Vec2i, Material))
    requires ParamsInputsOk(gm, po, collisionPair, collisionPairid, cid, worldid)
    ensures r.0 == collisionPair[cid]
    ensures FrictionFloor(r.1.friction, minmu)
    ensures var pairid := collisionPairid[cid].x;
      pairid > -1 ==> r.1 == PairMaterial(po, pairid, worldid).(friction := ClampFriction(po.friction[worldid][pairid], minmu))
    ensures var pairid, geoms := collisionPairid[cid].x, collisionPair[cid];
      pairid <= -1 ==> var mixed := GeomMaterial(gm, geoms.x, geoms.y, worldid, minval);
        r.1 == mixed.(friction := ClampFriction(mixed.friction, minmu))
  {
    var geoms := collisionPair[cid];
    var pairid := collisionPairid[cid].x;
    var raw := if pairid > -1 then PairMaterial(po, pairid, worldid)
               else GeomMaterial(gm, geoms.x, geoms.y, worldid, minval);
    (geoms, raw.(friction := ClampFriction(raw.friction, minmu)))
  }

  /** Swapping the two solmix values turns the weight of geometry 1 into that of geometry 2. */
  lemma SolmixWeightSwap(solmix1: real, solmix2: real, minval: PosReal)
    ensures SolmixWeight(solmix2, solmix1, minval) == 1.0 - SolmixWeight(solmix1, solmix2, minval)
  {
    if minval <= solmix1 && minval <= solmix2 {
      var d := solmix1 + solmix2;
      var w := SolmixWeight(solmix1, solmix2, minval);
      var w' := SolmixWeight(solmix2, solmix1, minval);
      assert w * d == solmix1;
      assert w' * d == solmix2;
      assert (w + w' - 1.0) * d == 0.0;
      ProductZero(w + w' - 1.0, d);
    }
  }

  lemma ProductZero(x: real, d: real)
    requires d > 0.0 && x * d == 0.0
    ensures x == 0.0
  {
  }

  /** Equal solmix values weigh the two geometries equally. */
  lemma EqualSolmixHalves(solmix: real, minval: PosReal)
    ensures SolmixWeight(solmix, solmix, minval) == 0.5
  {
    SolmixWeightSwap(solmix, solmix, minval);
  }

  /** Mixing b with a by 1 - mix is mixing a with b by mix. */
  lemma MixVecSwap(mix: real, a2: Vec2, b2: Vec2, a5: Vec5, b5: Vec5)
    ensures MixVec2(1.0 - mix, b2, a2) == MixVec2(mix, a2, b2)
    ensures MixVec5(1.0 - mix, b5, a5) == MixVec5(mix, a5, b5)
  {
  }

  /** The mixed parameters do not depend on the order of the two geometries. */
  lemma GeomMaterialSymmetric(gm: GeomMaterials, g1: int, g2: int, worldid: nat, minval: PosReal)
    requires GeomEntries(gm, g1, worldid) && GeomEntries(gm, g2, worldid)
    ensures GeomMaterial(gm, g1, g2, worldid, minval) == GeomMaterial(gm, g2, g1, worldid, minval)
  {
    var solmix1, solmix2 := Entry(gm.solmix, worldid, g1), Entry(gm.solmix, worldid, g2);
    var mix := if gm.priority[g1] > gm.priority[g2] then 1.0
               else if gm.priority[g2] > gm.priority[g1] then 0.0
               else SolmixWeight(solmix1, solmix2, minval);
    var mix' := if gm.priority[g2] > gm.priority[g1] then 1.0
                else if gm.priority[g1] > gm.priority[g2] then 0.0
                else SolmixWeight(solmix2, solmix1, minval);
    SolmixWeightSwap(solmix1, solmix2, minval);
    assert mix' == 1.0 - mix;
    var s1, s2 := Entry(gm.solref, worldid, g1), Entry(gm.solref, worldid, g2);
    var i1, i2 := Entry(gm.solimp, worldid, g1), Entry(gm.solimp, worldid, g2);
    MixVecSwap(mix, s1, s2, i1, i2);
    var a, b := GeomMaterial(gm, g1, g2, worldid, minval), GeomMaterial(gm, g2, g1, worldid, minval);
    assert a.solref == MixSolref(mix, s1, s2) == MixSolref(mix', s2, s1) == b.solref;
    assert a.solimp == MixVec5(mix, i1, i2) == MixVec5(mix', i2, i1) == b.solimp;
    assert a.friction == b.friction;
  }

  /** With an override tag, the geometry tables play no part in the result. */
  lemma OverrideIgnoresGeoms(gm1: GeomMaterials, gm2: GeomMaterials, po: PairOverrides, collisionPair: seq<Vec2i>,
                             collisionPairid: seq<Vec2i>, cid: nat, worldid: nat, minval: PosReal, minmu: PosReal)
    requires ParamsInputsOk(gm1, po, collisionPair, collisionPairid, cid, worldid)
    requires ParamsInputsOk(gm2, po, collisionPair, collisionPairid, cid, worldid)
    requires collisionPairid[cid].x > -1
    ensures ContactParams(gm1, po, collisionPair, collisionPairid, cid, worldid, minval, minmu)
         == ContactParams(gm2, po, collisionPair, collisionPairid, cid, worldid, minval, minmu)
  {
  }
}
