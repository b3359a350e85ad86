/**
 * The collision context (create_collision_context): the three broadphase
 * hand-off arrays, each holding naconmax entries.
 */
module CollisionContexts {
  import opened CollisionTypes

  class CollisionContext {
    /** The geometry ids of each candidate pair. */
    var collisionPair: array<Vec2i>
    /** The pair-id tag of each candidate pair. */
    var collisionPairid: array<Vec2i>
    /** The world of each candidate pair. */
    var collisionWorldid: array<int>

    /** Allocates the three arrays; their contents are left to broadphase to fill. */
    constructor (naconmax: nat)
      ensures collisionPair.Length == naconmax && collisionPairid.Length == naconmax
      ensures collisionWorldid.Length == naconmax
      ensures fresh(collisionPair) && fresh(collisionPairid) && fresh(collisionWorldid)
      ensures collisionPair != collisionPairid
    {
      collisionPair := new Vec2i[naconmax];
      collisionPairid := new Vec2i[naconmax];
      collisionWorldid := new int[naconmax];
    }
  }
}
