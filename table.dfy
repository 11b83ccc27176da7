/**
 The partition table of the contiguous-memory allocator: one record per partition of the
 address range [0, capacity), kept as a sequence in list order, and the invariants every
 reachable table satisfies (exact tiling, no two neighbouring holes, owners recorded once).
 */
module PartitionTable {

  /** Largest value of a Java `int`: the capacity, and with it every address, stays below it. */
  const MaxInt: int := 0x7FFF_FFFF

  datatype Option<T> = None | Some(value: T)

  /** The range [base, base + length). A free partition is a hole; an allocated one names its process. */
  datatype Partition = Partition(base: int, length: int, free: bool, owner: Option<string>)

  function End(p: Partition): int
  {
    p.base + p.length
  }

  /** The test every placement strategy applies to a candidate hole. */
  predicate Fits(p: Partition, size: int)
  {
    p.free && p.length >= size
  }

  /** The test release applies when it looks for the partition of a process. */
  predicate OwnedBy(p: Partition, name: string)
  {
    !p.free && p.owner == Some(name)
  }

  /** The names held by one partition: its owner when it is allocated, nothing when it is a hole. */
  function HeldBy(p: Partition): set<string>
  {
    if !p.free && p.owner.Some? then {p.owner.value} else {}
  }

  /** `ps` covers [lo, hi) exactly, partition after partition in list order, each of positive length. */
  ghost predicate Chain(ps: seq<Partition>, lo: int, hi: int)
    decreases |ps|
  {
    if |ps| == 0 then lo == hi
    else ps[0].base == lo && ps[0].length > 0 && Chain(ps[1..], End(ps[0]), hi)
  }

  /** No two consecutive partitions of the list are both holes. */
  ghost predicate NoAdjacentFree(ps: seq<Partition>)
    decreases |ps|
  {
    |ps| < 2 || (!(ps[0].free && ps[1].free) && NoAdjacentFree(ps[1..]))
  }

  /** A partition has an owner exactly when it is allocated. */
  ghost predicate FreeIffUnowned(ps: seq<Partition>)
  {
    forall p :: p in ps ==> (p.free <==> p.owner.None?)
  }

  /** The names of the processes holding the allocated partitions of `ps`. */
  function Owners(ps: seq<Partition>): set<string>
    decreases |ps|
  {
    if |ps| == 0 then {} else HeldBy(ps[0]) + Owners(ps[1..])
  }

  /** No process holds two allocated partitions. */
  ghost predicate UniqueOwners(ps: seq<Partition>)
    decreases |ps|
  {
    |ps| == 0 || (HeldBy(ps[0]) !! Owners(ps[1..]) && UniqueOwners(ps[1..]))
  }

  /** The allocated partitions of `ps`, in list order. */
  function Allocated(ps: seq<Partition>): seq<Partition>
    decreases |ps|
  {
    if |ps| == 0 then [] else (if ps[0].free then [] else [ps[0]]) + Allocated(ps[1..])
  }

  /** The sum of the lengths of the partitions of `ps`. */
  function TotalLength(ps: seq<Partition>): int
    decreases |ps|
  {
    if |ps| == 0 then 0 else ps[0].length + TotalLength(ps[1..])
  }

  /**
   The invariant of the allocator's table: the partitions tile [0, capacity), no two holes are
   neighbours, holes have no owner, and every owner is a distinct name of the allocation index.
   */
  ghost predicate TableOk(ps: seq<Partition>, names: set<string>, capacity: int)
  {
    && Chain(ps, 0, capacity)
    && NoAdjacentFree(ps)
    && FreeIffUnowned(ps)
    && UniqueOwners(ps)
    && Owners(ps) <= names
  }

  ghost predicate SortedByBase(ps: seq<Partition>)
  {
    forall i, j :: 0 <= i < j < |ps| ==> ps[i].base <= ps[j].base
  }

  ghost predicate AscendingBases(ps: seq<Partition>)
  {
    forall i, j :: 0 <= i < j < |ps| ==> ps[i].base < ps[j].base
  }

  // ---------------------------------------------------------------- tiling

  /** Two tilings of consecutive ranges make a tiling of their union. */
  lemma {:induction false} ChainConcat(a: seq<Partition>, b: seq<Partition>, lo: int, mid: int, hi: int)
    requires Chain(a, lo, mid) && Chain(b, mid, hi)
    ensures Chain(a + b, lo, hi)
    decreases |a|
  {
    if |a| == 0 {
      assert a + b == b;
    } else {
      ChainConcat(a[1..], b, End(a[0]), mid, hi);
      assert (a + b)[1..] == a[1..] + b;
    }
  }

  /** A tiling cut before any of its partitions is a tiling of each side of that partition's base. */
  lemma {:induction false} ChainSplit(ps: seq<Partition>, k: int, lo: int, hi: int)
    requires Chain(ps, lo, hi) && 0 <= k < |ps|
    ensures Chain(ps[..k], lo, ps[k].base) && Chain(ps[k..], ps[k].base, hi)
    decreases k
  {
    if k == 0 {
      assert ps[..0] == [] && ps[0..] == ps;
    } else {
      ChainSplit(ps[1..], k - 1, End(ps[0]), hi);
      assert ps[1..][..k - 1] == ps[..k][1..];
      assert ps[1..][k - 1..] == ps[k..];
    }
  }

  /** Any list is what comes before position k, the partition at k, and what comes after it. */
  lemma AroundIndex(ps: seq<Partition>, k: int)
    requires 0 <= k < |ps|
    ensures ps == ps[..k] + [ps[k]] + ps[k + 1..]
  {
  }

  /** Replacing a partition by a tiling of its own range keeps the tiling of the whole list. */
  lemma ReplaceChain(left: seq<Partition>, p: Partition, c: seq<Partition>, right: seq<Partition>, lo: int, hi: int)
    requires Chain(left + [p] + right, lo, hi) && Chain(c, p.base, End(p))
    ensures Chain(left + c + right, lo, hi)
  {
    var ps := left + [p] + right;
    ChainSplit(ps, |left|, lo, hi);
    assert ps[..|left|] == left;
    assert ps[|left|..][1..] == right;
    ChainConcat(left, c, lo, p.base, End(p));
    ChainConcat(left + c, right, lo, End(p), hi);
  }

  /** Replacing one partition by one with the same range keeps the tiling. */
  lemma ChainUpdate(ps: seq<Partition>, i: int, p: Partition, lo: int, hi: int)
    requires Chain(ps, lo, hi) && 0 <= i < |ps|
    requires p.base == ps[i].base && p.length == ps[i].length
    ensures Chain(ps[i := p], lo, hi)
  {
    ChainSplit(ps, i, lo, hi);
    assert Chain(ps[i + 1..], End(ps[i]), hi) by {
      assert ps[i..][1..] == ps[i + 1..];
    }
    ChainConcat([p], ps[i + 1..], p.base, End(p), hi);
    ChainConcat(ps[..i], [p] + ps[i + 1..], lo, p.base, hi);
    assert ps[i := p] == ps[..i] + ([p] + ps[i + 1..]);
  }

  /** The lengths of a tiling of [lo, hi) add up to hi - lo: no gaps, no overlaps. */
  lemma {:induction false} ChainTotal(ps: seq<Partition>, lo: int, hi: int)
    requires Chain(ps, lo, hi)
    ensures TotalLength(ps) == hi - lo
    decreases |ps|
  {
    if |ps| > 0 {
      ChainTotal(ps[1..], End(ps[0]), hi);
    }
  }

  /** A tiling lists its partitions in strictly ascending base order, each non-empty and inside [lo, hi). */
  lemma {:induction false} ChainAscending(ps: seq<Partition>, lo: int, hi: int)
    requires Chain(ps, lo, hi)
    ensures AscendingBases(ps)
    ensures forall i :: 0 <= i < |ps| ==> lo <= ps[i].base && End(ps[i]) <= hi && ps[i].length > 0
    decreases |ps|
  {
    if |ps| > 0 {
      var rest := ps[1..];
      ChainAscending(rest, End(ps[0]), hi);
      forall i | 0 < i < |ps|
        ensures End(ps[0]) <= ps[i].base && End(ps[i]) <= hi && ps[i].length > 0
      {
        assert ps[i] == rest[i - 1];
      }
      forall i, j | 0 <= i < j < |ps|
        ensures ps[i].base < ps[j].base
      {
        if i > 0 {
          assert ps[i] == rest[i - 1] && ps[j] == rest[j - 1];
        }
      }
    }
  }

  /** The first elements of an ascending list and of a sorted permutation of it coincide. */
  lemma SortedPermutationHead(a: seq<Partition>, b: seq<Partition>)
    requires AscendingBases(a) && SortedByBase(b)
    requires multiset(a) == multiset(b) && |a| > 0 && |b| > 0
    ensures a[0] == b[0]
  {
    assert b[0] in multiset(a);
    var i :| 0 <= i < |a| && a[i] == b[0];
    assert a[0] in multiset(b);
    var j :| 0 <= j < |b| && b[j] == a[0];
    assert a[0].base <= b[0].base;
  }

  /**
   Collections.sort by base, applied to a list whose bases are already strictly ascending, can
   only return that list: any permutation sorted by base is the list itself.
   */
  lemma {:induction false} SortedPermutationIsIdentity(a: seq<Partition>, b: seq<Partition>)
    requires AscendingBases(a) && SortedByBase(b)
    requires multiset(a) == multiset(b)
    ensures a == b
    decreases |a|
  {
    assert |a| == |multiset(a)| == |multiset(b)| == |b|;
    if |a| > 0 {
      SortedPermutationHead(a, b);
      var x := a[0];
      assert a == [x] + a[1..] && b == [x] + b[1..];
      calc {
        multiset(a[1..]);
        multiset([x] + a[1..]) - multiset([x]);
        multiset(b) - multiset([x]);
        multiset([x] + b[1..]) - multiset([x]);
        multiset(b[1..]);
      }
      SortedPermutationIsIdentity(a[1..], b[1..]);
    }
  }

  // ---------------------------------------------------------------- lengths

  /** A single partition's total is its length. */
  lemma TotalLengthSingle(p: Partition)
    ensures TotalLength([p]) == p.length
  {
    assert [p][1..] == [];
  }

  /** The total length of three consecutive pieces is the sum of their totals. */
  lemma TotalLengthThree(a: seq<Partition>, m: seq<Partition>, b: seq<Partition>)
    ensures TotalLength(a + m + b) == TotalLength(a) + TotalLength(m) + TotalLength(b)
  {
    TotalLengthConcat(a + m, b);
    TotalLengthConcat(a, m);
  }

  /** Total length distributes over concatenation. */
  lemma {:induction false} TotalLengthConcat(a: seq<Partition>, b: seq<Partition>)
    ensures TotalLength(a + b) == TotalLength(a) + TotalLength(b)
    decreases |a|
  {
    if |a| == 0 {
      assert a + b == b;
    } else {
      TotalLengthConcat(a[1..], b);
      assert (a + b)[1..] == a[1..] + b;
    }
  }

  // ---------------------------------------------------------------- neighbouring holes

  /** A concatenation has no neighbouring holes iff neither part has and the seam is not two holes. */
  lemma {:induction false} NoAdjacentFreeConcat(a: seq<Partition>, b: seq<Partition>)
    ensures NoAdjacentFree(a + b) <==>
      NoAdjacentFree(a) && NoAdjacentFree(b) && (|a| == 0 || |b| == 0 || !(a[|a| - 1].free && b[0].free))
    decreases |a|
  {
    if |a| == 0 {
      assert a + b == b;
    } else if |a| == 1 {
      assert (a + b)[1..] == b;
    } else {
      NoAdjacentFreeConcat(a[1..], b);
      assert (a + b)[1..] == a[1..] + b;
    }
  }

  /**
   Replacing a hole by a list without neighbouring holes that starts with an allocated partition
   keeps the list free of neighbouring holes.
   */
  lemma ReplaceNoAdjacentFree(left: seq<Partition>, p: Partition, c: seq<Partition>, right: seq<Partition>)
    requires NoAdjacentFree(left + [p] + right) && p.free
    requires NoAdjacentFree(c) && |c| > 0 && !c[0].free
    ensures NoAdjacentFree(left + c + right)
  {
    NoAdjacentFreeConcat(left + [p], right);
    NoAdjacentFreeConcat(left, [p]);
    NoAdjacentFreeConcat(left, c);
    NoAdjacentFreeConcat(left + c, right);
  }

  // ---------------------------------------------------------------- owners

  lemma {:induction false} OwnersConcat(a: seq<Partition>, b: seq<Partition>)
    ensures Owners(a + b) == Owners(a) + Owners(b)
    decreases |a|
  {
    if |a| == 0 {
      assert a + b == b;
    } else {
      OwnersConcat(a[1..], b);
      assert (a + b)[1..] == a[1..] + b;
    }
  }

  /** Owners stay distinct across a concatenation iff they are distinct in each part and the parts share none. */
  lemma {:induction false} UniqueOwnersConcat(a: seq<Partition>, b: seq<Partition>)
    ensures UniqueOwners(a + b) <==> UniqueOwners(a) && UniqueOwners(b) && Owners(a) !! Owners(b)
    decreases |a|
  {
    if |a| == 0 {
      assert a + b == b;
    } else {
      UniqueOwnersConcat(a[1..], b);
      OwnersConcat(a[1..], b);
      assert (a + b)[1..] == a[1..] + b;
    }
  }

  /** A partition owned by `name` puts `name` among the owners of the list. */
  lemma {:induction false} OwnedByIsOwner(ps: seq<Partition>, j: int, name: string)
    requires 0 <= j < |ps| && OwnedBy(ps[j], name)
    ensures name in Owners(ps)
    decreases j
  {
    if j > 0 {
      OwnedByIsOwner(ps[1..], j - 1, name);
    }
  }

  lemma {:induction false} AllocatedConcat(a: seq<Partition>, b: seq<Partition>)
    ensures Allocated(a + b) == Allocated(a) + Allocated(b)
    decreases |a|
  {
    if |a| == 0 {
      assert a + b == b;
    } else {
      var head := if a[0].free then [] else [a[0]];
      assert (a + b)[0] == a[0] && (a + b)[1..] == a[1..] + b;
      assert Allocated(a + b) == head + Allocated(a[1..] + b);
      AllocatedConcat(a[1..], b);
      assert Allocated(a) == head + Allocated(a[1..]);
      assert head + (Allocated(a[1..]) + Allocated(b)) == (head + Allocated(a[1..])) + Allocated(b);
    }
  }

  /** In a list without neighbouring holes, the partition before a hole is allocated. */
  lemma {:induction false} BeforeHoleAllocated(ps: seq<Partition>, k: int)
    requires NoAdjacentFree(ps) && 0 < k < |ps| && ps[k].free
    ensures !ps[k - 1].free
    decreases k
  {
    if k > 1 {
      BeforeHoleAllocated(ps[1..], k - 1);
    }
  }

  /**
   Replacing a hole by a list whose owners are distinct and are exactly `name`, a name the index
   does not hold, keeps the owners distinct and within the index grown by `name`.
   */
  lemma ReplaceOwners(left: seq<Partition>, p: Partition, c: seq<Partition>, right: seq<Partition>,
                      names: set<string>, name: string)
    requires UniqueOwners(left + [p] + right) && Owners(left + [p] + right) <= names && p.free
    requires UniqueOwners(c) && Owners(c) == {name} && name !in names
    ensures UniqueOwners(left + c + right) && Owners(left + c + right) <= names + {name}
  {
    OwnersConcat(left + [p], right);
    OwnersConcat(left, [p]);
    UniqueOwnersConcat(left + [p], right);
    UniqueOwnersConcat(left, [p]);
    OwnersConcat(left + c, right);
    OwnersConcat(left, c);
    UniqueOwnersConcat(left + c, right);
    UniqueOwnersConcat(left, c);
  }
}
