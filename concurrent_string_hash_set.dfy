/**
 * The string set of Chummer/Backend/Datastructures/ConcurrentStringHashSet.cs, which overrides only
 * `IntersectWith` so that `setOther` comes from the shared string-set pool. The inherited state is
 * the base set this class holds; the fixed-point loop is the base class's.
 */
module ConcurrentStringHashSets {
  import opened Common
  import opened ConcurrentHashSets

  class ConcurrentStringHashSet {
    /** The inherited `ConcurrentHashSet<string>` part. */
    const base: ConcurrentHashSet<string>
    /** `Utils.StringHashSetPool`. */
    const pool: Pool

    constructor (pool: Pool)
      ensures fresh(base) && base.items == {} && this.pool == pool
    {
      base := new ConcurrentHashSet<string>();
      this.pool := pool;
    }

    /**
     * `IntersectWith(other)`: fetch an (empty) set from the pool, add all of `other` to it (a null
     * string is allowed there and matches no element), run the removal loop until a pass removes
     * nothing, and hand the set back to the pool exactly once. Elements are only ever removed,
     * every remaining one is in `other`, none that is in both goes, and a call whose elements are
     * all in `other` changes nothing, so a second identical call is a no-op.
     */
    method IntersectWith(other: seq<Option<string>>) returns (ghost passes: nat)
      modifies base, pool
      ensures base.items <= old(base.items)
      ensures forall x :: x in base.items ==> x in Values(other)
      ensures old(base.items) * Values(other) <= base.items
      ensures old(base.items) <= Values(other) ==> base.items == old(base.items)
      ensures passes == if old(base.items) <= Values(other) then 1 else 2
      ensures pool.gets == old(pool.gets) + 1 && pool.returned == old(pool.returned) + 1
    {
      pool.Get();
      var setOther: set<string> := {};
      setOther := setOther + Values(other);
      passes := base.RemoveUntilStable(setOther);
      pool.Return();
    }
  }

  /** Two identical calls: the second takes a single pass and leaves the set as the first left it. */
  method IntersectWithIdempotent(s: ConcurrentStringHashSet, other: seq<Option<string>>) returns (ghost secondPasses: nat)
    modifies s.base, s.pool
    ensures s.base.items == old(s.base.items) * Values(other)
    ensures secondPasses == 1
  {
    var _ := s.IntersectWith(other);
    secondPasses := s.IntersectWith(other);
  }
}
