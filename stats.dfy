/**
 The integer part of the allocator's memory statistics: how many holes there are and how much
 memory they hold together. (The average hole size and the free percentage are floating point
 and are not modelled.)
 */
module MemoryStats {
  import opened PartitionTable

  datatype HoleStats = HoleStats(holes: int, freeTotal: int)

  /** The number of free partitions of `ps` and the sum of their lengths. */
  function Holes(ps: seq<Partition>): (s: HoleStats)
    ensures 0 <= s.holes <= |ps|
    decreases |ps|
  {
    if |ps| == 0 then HoleStats(0, 0)
    else
      var rest := Holes(ps[1..]);
      if ps[0].free then HoleStats(rest.holes + 1, rest.freeTotal + ps[0].length) else rest
  }

  /** Counting one more partition at the end adds it to the statistics exactly when it is a hole. */
  lemma {:induction false} HolesSnoc(ps: seq<Partition>, p: Partition)
    ensures Holes(ps + [p]).holes == Holes(ps).holes + (if p.free then 1 else 0)
    ensures Holes(ps + [p]).freeTotal == Holes(ps).freeTotal + (if p.free then p.length else 0)
    decreases |ps|
  {
    if |ps| == 0 {
      assert ps + [p] == [p];
    } else {
      HolesSnoc(ps[1..], p);
      assert (ps + [p])[1..] == ps[1..] + [p];
    }
  }

  /** The free memory and the allocated memory together make up all the memory in the list. */
  lemma {:induction false} FreePlusAllocated(ps: seq<Partition>)
    ensures Holes(ps).freeTotal + TotalLength(Allocated(ps)) == TotalLength(ps)
    decreases |ps|
  {
    if |ps| > 0 {
      FreePlusAllocated(ps[1..]);
      var head := if ps[0].free then [] else [ps[0]];
      assert Allocated(ps) == head + Allocated(ps[1..]);
      if !ps[0].free {
        assert (head + Allocated(ps[1..]))[1..] == Allocated(ps[1..]);
      } else {
        assert head + Allocated(ps[1..]) == Allocated(ps[1..]);
      }
    }
  }

  /**
   On a tiling of [lo, hi) the holes hold between nothing and all of the range, and they hold
   nothing exactly when there are none.
   */
  lemma {:induction false} HolesWithinRange(ps: seq<Partition>, lo: int, hi: int)
    requires Chain(ps, lo, hi)
    ensures 0 <= Holes(ps).freeTotal <= hi - lo
    ensures Holes(ps).holes == 0 <==> Holes(ps).freeTotal == 0
    decreases |ps|
  {
    if |ps| > 0 {
      HolesWithinRange(ps[1..], End(ps[0]), hi);
    }
  }
}
