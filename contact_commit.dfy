/**
 * The contact commit protocol (write_contact): a bounded append buffer. A
 * call either drops the contact, or reserves the next slot by bumping the
 * shared counter and, when that slot is below capacity, writes the record
 * there. Calls are modelled one after another: the atomic add is a plain
 * increment.
 */
module ContactCommit {
  import opened Wrappers
  import opened CollisionTypes

  /** The classification bit mask: CONSTRAINT and SENSOR are independent bits. */
  datatype ContactType = ContactType(constraint: bool, sensor: bool)

  /** The inputs of one call, in the order write_contact takes them. */
  datatype ContactIn = ContactIn(
    id: int, dist: real, pos: Vec3, frame: Mat33, margin: real, gap: real, condim: int,
    friction: Vec5, solref: Vec2, solreffriction: Vec2, solimp: Vec5,
    geoms: Vec2i, pairid: Vec2i, worldid: int)

  predicate Active(c: ContactIn) {
    c.dist < c.margin
  }

  /** No constraint wanted (skip tag -2, or inactive) and no sensor attached; such a contact would carry neither flag. */
  predicate Dropped(c: ContactIn): (d: bool)
    ensures d ==> Classify(c) == ContactType(false, false)
  {
    (c.pairid.x == -2 || !Active(c)) && c.pairid.y == -1
  }

  /** CONSTRAINT for a contact wanted by the solver and active, SENSOR for a contact a sensor watches. */
  function Classify(c: ContactIn): (k: ContactType)
    ensures k.constraint <==> c.pairid.x >= -1 && c.dist < c.margin
    ensures k.sensor <==> c.pairid.y >= 0
  {
    ContactType(c.pairid.x >= -1 && Active(c), c.pairid.y >= 0)
  }

  /** The tags broadphase produces: -2, -1 or a pair id; -1 or a sensor id. */
  predicate WellFormedTag(pairid: Vec2i) {
    pairid.x >= -2 && pairid.y >= -1
  }

  /**
   * For the tags broadphase produces, a contact is dropped exactly when it
   * would carry neither flag; a kept contact carries CONSTRAINT, SENSOR or both.
   */
  lemma DroppedIffUnflagged(c: ContactIn)
    requires WellFormedTag(c.pairid)
    ensures Dropped(c) <==> Classify(c) == ContactType(false, false)
  {
  }

  /** A sensor keeps a contact that is inactive or tagged to skip, with SENSOR alone. */
  lemma SensorOnlyContact(c: ContactIn)
    requires c.pairid.y >= 0 && (c.pairid.x == -2 || !Active(c))
    ensures !Dropped(c) && Classify(c) == ContactType(false, true)
  {
  }

  /** The effect of one call: the new counter, the slot written (if any), the value returned. */
  datatype Outcome = Outcome(counter: nat, slot: Option<nat>, ret: int)

  function Commit(nacon: nat, naconmax: nat, c: ContactIn): (o: Outcome)
    ensures Dropped(c) <==> o.counter == nacon
    ensures !Dropped(c) ==> o.counter == nacon + 1
    ensures o.slot.Some? <==> !Dropped(c) && nacon < naconmax
    ensures o.slot.Some? ==> o.slot.value == nacon < naconmax
    ensures o.ret == 1 <==> Active(c) && o.slot.Some?
    ensures o.ret == 0 || o.ret == 1
  {
    if Dropped(c) then Outcome(nacon, None, 0)
    else if nacon < naconmax then Outcome(nacon + 1, Some(nacon), if Active(c) then 1 else 0)
    else Outcome(nacon + 1, None, 0)
  }

  /** s with v stored at the slot, if there is one. */
  function Put<T>(s: seq<T>, slot: Option<nat>, v: T): seq<T>
    requires slot.Some? ==> slot.value < |s|
  {
    if slot.Some? then s[slot.value := v] else s
  }

  /** The output arrays of the contact buffer and its counter. */
  class ContactBuffer {
    const naconmax: nat
    const dist: array<real>
    const pos: array<Vec3>
    const frame: array<Mat33>
    const includemargin: array<real>
    const friction: array<Vec5>
    const solref: array<Vec2>
    const solreffriction: array<Vec2>
    const solimp: array<Vec5>
    const dim: array<int>
    const geom: array<Vec2i>
    const worldid: array<int>
    const contactType: array<ContactType>
    const geomcollisionid: array<int>
    var nacon: nat

    /** Every array holds naconmax records, and arrays of one element type are distinct. */
    ghost predicate Valid()
      reads this
    {
      && dist.Length == naconmax && pos.Length == naconmax && frame.Length == naconmax
      && includemargin.Length == naconmax && friction.Length == naconmax && solref.Length == naconmax
      && solreffriction.Length == naconmax && solimp.Length == naconmax && dim.Length == naconmax
      && geom.Length == naconmax && worldid.Length == naconmax && contactType.Length == naconmax
      && geomcollisionid.Length == naconmax
      && dist != includemargin && solref != solreffriction && friction != solimp
      && dim != worldid && dim != geomcollisionid && worldid != geomcollisionid
    }

    constructor (naconmax: nat)
      ensures Valid() && this.naconmax == naconmax && nacon == 0
      ensures fresh(dist) && fresh(pos) && fresh(frame) && fresh(includemargin) && fresh(friction)
      ensures fresh(solref) && fresh(solreffriction) && fresh(solimp) && fresh(dim) && fresh(geom)
      ensures fresh(worldid) && fresh(contactType) && fresh(geomcollisionid)
    {
      this.naconmax := naconmax;
      dist := new real[naconmax];
      pos := new Vec3[naconmax];
      frame := new Mat33[naconmax];
      includemargin := new real[naconmax];
      friction := new Vec5[naconmax];
      solref := new Vec2[naconmax];
      solreffriction := new Vec2[naconmax];
      solimp := new Vec5[naconmax];
      dim := new int[naconmax];
      geom := new Vec2i[naconmax];
      worldid := new int[naconmax];
      contactType := new ContactType[naconmax];
      geomcollisionid := new int[naconmax];
      nacon := 0;
    }

    /**
     * Commits one contact: the counter and the returned value follow Commit,
     * and the slot Commit reserves below capacity (and no other) receives the
     * record, with includemargin = margin - gap and the call's id as its
     * provenance.
     */
    method WriteContact(c: ContactIn) returns (r: int)
      requires Valid()
      modifies this`nacon, dist, pos, frame, includemargin, friction, solref, solreffriction, solimp,
               dim, geom, worldid, contactType, geomcollisionid
      ensures Valid()
      ensures var o := Commit(old(nacon), naconmax, c);
        && nacon == o.counter && r == o.ret
        && dist[..] == Put(old(dist[..]), o.slot, c.dist)
        && pos[..] == Put(old(pos[..]), o.slot, c.pos)
        && frame[..] == Put(old(frame[..]), o.slot, c.frame)
        && includemargin[..] == Put(old(includemargin[..]), o.slot, c.margin - c.gap)
        && friction[..] == Put(old(friction[..]), o.slot, c.friction)
        && solref[..] == Put(old(solref[..]), o.slot, c.solref)
        && solreffriction[..] == Put(old(solreffriction[..]), o.slot, c.solreffriction)
        && solimp[..] == Put(old(solimp[..]), o.slot, c.solimp)
        && dim[..] == Put(old(dim[..]), o.slot, c.condim)
        && geom[..] == Put(old(geom[..]), o.slot, c.geoms)
        && worldid[..] == Put(old(worldid[..]), o.slot, c.worldid)
        && contactType[..] == Put(old(contactType[..]), o.slot, Classify(c))
        && geomcollisionid[..] == Put(old(geomcollisionid[..]), o.slot, c.id)
    {
      var active := c.dist < c.margin;
      if (c.pairid.x == -2 || !active) && c.pairid.y == -1 {
        return 0;
      }
      var kind := ContactType(false, false);
      if c.pairid.x >= -1 && active {
        kind := kind.(constraint := true);
      }
      if c.pairid.y >= 0 {
        kind := kind.(sensor := true);
      }
      var cid := nacon;
      nacon := nacon + 1;
      if cid < naconmax {
        StoreGeometry(cid, c);
        StoreParams(cid, c, kind);
        return if active then 1 else 0;
      }
      return 0;
    }

    /** Writes the geometric part of the record of c into slot cid. */
    method StoreGeometry(cid: nat, c: ContactIn)
      requires Valid() && cid < naconmax
      modifies dist, pos, frame, includemargin, geom, worldid
      ensures dist[..] == old(dist[..])[cid := c.dist]
      ensures pos[..] == old(pos[..])[cid := c.pos]
      ensures frame[..] == old(frame[..])[cid := c.frame]
      ensures includemargin[..] == old(includemargin[..])[cid := c.margin - c.gap]
      ensures geom[..] == old(geom[..])[cid := c.geoms]
      ensures worldid[..] == old(worldid[..])[cid := c.worldid]
    {
      dist[cid] := c.dist;
      pos[cid] := c.pos;
      frame[cid] := c.frame;
      geom[cid] := c.geoms;
      worldid[cid] := c.worldid;
      includemargin[cid] := c.margin - c.gap;
    }

    /** Writes the solver parameters, the flags and the provenance of c into slot cid. */
    method StoreParams(cid: nat, c: ContactIn, kind: ContactType)
      requires Valid() && cid < naconmax
      modifies dim, friction, solref, solreffriction, solimp, contactType, geomcollisionid
      ensures dim[..] == old(dim[..])[cid := c.condim]
      ensures friction[..] == old(friction[..])[cid := c.friction]
      ensures solref[..] == old(solref[..])[cid := c.solref]
      ensures solreffriction[..] == old(solreffriction[..])[cid := c.solreffriction]
      ensures solimp[..] == old(solimp[..])[cid := c.solimp]
      ensures contactType[..] == old(contactType[..])[cid := kind]
      ensures geomcollisionid[..] == old(geomcollisionid[..])[cid := c.id]
    {
      dim[cid] := c.condim;
      friction[cid] := c.friction;
      solref[cid] := c.solref;
      solreffriction[cid] := c.solreffriction;
      solimp[cid] := c.solimp;
      contactType[cid] := kind;
      geomcollisionid[cid] := c.id;
    }
  }

  /** The number of calls in cs that are not dropped. */
  function Kept(cs: seq<ContactIn>): nat
    decreases |cs|
  {
    if cs == [] then 0 else (if Dropped(cs[0]) then 0 else 1) + Kept(cs[1..])
  }

  /** Calls cs made one after another from counter nacon: the final counter and the slots written, in order. */
  function Run(nacon: nat, naconmax: nat, cs: seq<ContactIn>): (nat, seq<nat>)
    decreases |cs|
  {
    if cs == [] then (nacon, [])
    else
      var o := Commit(nacon, naconmax, cs[0]);
      var rest := Run(o.counter, naconmax, cs[1..]);
      (rest.0, (if o.slot.Some? then [o.slot.value] else []) + rest.1)
  }

  /** lo, lo + 1, ..., hi - 1. */
  function Range(lo: nat, hi: nat): (r: seq<nat>)
    requires lo <= hi
    ensures |r| == hi - lo && forall i :: 0 <= i < |r| ==> r[i] == lo + i
    decreases hi - lo
  {
    if lo == hi then [] else [lo] + Range(lo + 1, hi)
  }

  function Min(a: nat, b: nat): nat { if a <= b then a else b }

  /** The counter grows by exactly one per call that is not dropped, whether or not the buffer is full. */
  lemma {:induction false} RunCounter(nacon: nat, naconmax: nat, cs: seq<ContactIn>)
    ensures Run(nacon, naconmax, cs).0 == nacon + Kept(cs)
    decreases |cs|
  {
    if cs != [] {
      RunCounter(Commit(nacon, naconmax, cs[0]).counter, naconmax, cs[1..]);
    }
  }

  /**
   * Starting below capacity, the slots written are exactly nacon up to the
   * smaller of the capacity and the final counter, each once and in order:
   * no slot is written twice and none at or beyond capacity.
   */
  lemma {:induction false} RunSlots(nacon: nat, naconmax: nat, cs: seq<ContactIn>)
    requires nacon <= naconmax
    ensures Run(nacon, naconmax, cs).1 == Range(nacon, Min(naconmax, nacon + Kept(cs)))
    decreases |cs|
  {
    if cs != [] {
      var o := Commit(nacon, naconmax, cs[0]);
      if o.counter <= naconmax {
        RunSlots(o.counter, naconmax, cs[1..]);
      } else {
        RunFull(o.counter, naconmax, cs[1..]);
      }
    }
  }

  /** Once the counter has passed capacity, no further call writes a slot. */
  lemma {:induction false} RunFull(nacon: nat, naconmax: nat, cs: seq<ContactIn>)
    requires nacon >= naconmax
    ensures Run(nacon, naconmax, cs).1 == []
    decreases |cs|
  {
    if cs != [] {
      RunFull(Commit(nacon, naconmax, cs[0]).counter, naconmax, cs[1..]);
    }
  }

  /**
   * Overflow: naconmax + k kept contacts committed into an empty buffer of
   * capacity naconmax leave the counter at naconmax + k and exactly slots
   * 0 .. naconmax - 1 written.
   */
  lemma Overflow(naconmax: nat, k: nat, cs: seq<ContactIn>)
    requires |cs| == naconmax + k
    requires forall i :: 0 <= i < |cs| ==> !Dropped(cs[i])
    ensures Run(0, naconmax, cs) == (naconmax + k, Range(0, naconmax))
  {
    AllKept(cs);
    RunCounter(0, naconmax, cs);
    RunSlots(0, naconmax, cs);
  }

  lemma {:induction false} AllKept(cs: seq<ContactIn>)
    requires forall i :: 0 <= i < |cs| ==> !Dropped(cs[i])
    ensures Kept(cs) == |cs|
    decreases |cs|
  {
    if cs != [] {
      AllKept(cs[1..]);
    }
  }
}
