/**
 Release and coalescing as specifications: which partition a release frees, and the merge pass
 that absorbs every run of holes adjacent by address into its first hole.
 */
module Coalescing {
  import opened PartitionTable
  import opened Placement

  /**
   The index release frees when it scans from position `i` on: the first allocated partition owned
   by `name`, or -1 when there is none from `i` on.
   */
  function OwnedFrom(ps: seq<Partition>, name: string, i: int): (r: int)
    requires 0 <= i <= |ps|
    ensures r == -1 ==> forall j :: i <= j < |ps| ==> !OwnedBy(ps[j], name)
    ensures r != -1 ==> i <= r < |ps| && OwnedBy(ps[r], name)
    ensures r != -1 ==> forall j :: i <= j < r ==> !OwnedBy(ps[j], name)
    decreases |ps| - i
  {
    if i == |ps| then -1
    else if OwnedBy(ps[i], name) then i
    else OwnedFrom(ps, name, i + 1)
  }

  /**
   The partition release frees for `name`: the first one in list order it owns, or -1 exactly when
   it owns none.
   */
  function OwnedIndex(ps: seq<Partition>, name: string): (r: int)
    ensures r == -1 <==> forall j :: 0 <= j < |ps| ==> !OwnedBy(ps[j], name)
    ensures r != -1 ==> 0 <= r < |ps| && OwnedBy(ps[r], name)
    ensures r != -1 ==> forall j :: 0 <= j < r ==> !OwnedBy(ps[j], name)
  {
    OwnedFrom(ps, name, 0)
  }

  /** The table with partition `i` turned into a hole: free, and without an owner. */
  function Freed(ps: seq<Partition>, i: int): (r: seq<Partition>)
    requires 0 <= i < |ps|
    ensures |r| == |ps| && r[i].free && r[i].owner == None
    ensures r[i].base == ps[i].base && r[i].length == ps[i].length
    ensures forall j :: 0 <= j < |ps| && j != i ==> r[j] == ps[j]
  {
    ps[i := ps[i].(free := true, owner := None)]
  }

  /**
   The merge pass: a hole followed by a hole that starts where it ends absorbs that hole (its length
   grows, the second disappears) and goes on absorbing; anything else is kept and the pass moves on.
   The result is never longer, and its first partition keeps the base, flag and owner of the first.
   */
  function Coalesce(ps: seq<Partition>): (r: seq<Partition>)
    ensures |r| <= |ps|
    ensures |ps| > 0 ==> |r| > 0 && r[0].base == ps[0].base && r[0].free == ps[0].free && r[0].owner == ps[0].owner
    decreases |ps|
  {
    if |ps| >= 2 && ps[0].free && ps[1].free && ps[1].base == End(ps[0]) then
      Coalesce([Absorb(ps[0], ps[1])] + ps[2..])
    else if |ps| == 0 then []
    else [ps[0]] + Coalesce(ps[1..])
  }

  /**
   The partition a hole becomes when it absorbs the hole after it: same base, flag and owner, and
   the two lengths together, so that it ends where the absorbed hole ended.
   */
  function Absorb(p: Partition, q: Partition): (r: Partition)
    ensures r.base == p.base && r.free == p.free && r.owner == p.owner
    ensures r.length == p.length + q.length
    ensures q.base == End(p) ==> End(r) == End(q)
  {
    p.(length := p.length + q.length)
  }

  /** One step of the merge pass, when the first two partitions are holes adjacent by address. */
  lemma CoalesceMergeStep(ps: seq<Partition>)
    requires |ps| >= 2 && ps[0].free && ps[1].free && ps[1].base == End(ps[0])
    ensures Coalesce(ps) == Coalesce([Absorb(ps[0], ps[1])] + ps[2..])
  {
  }

  /** One step of the merge pass, when the first partition is kept as it is. */
  lemma CoalesceKeepStep(ps: seq<Partition>)
    requires |ps| > 0 && !(|ps| >= 2 && ps[0].free && ps[1].free && ps[1].base == End(ps[0]))
    ensures Coalesce(ps) == [ps[0]] + Coalesce(ps[1..])
  {
  }

  /**
   The merge loop at position `i` absorbing the hole after it at j = i + 1, as the loop does it
   (grow the hole at `i`, remove the one at `j`), keeps what the pass will produce.
   */
  lemma CoalesceAbsorbAt(ps: seq<Partition>, i: int, j: int)
    requires 0 <= i && j == i + 1 && j < |ps| && ps[i].free && ps[j].free && ps[j].base == End(ps[i])
    ensures var q := ps[i := Absorb(ps[i], ps[j])][..j] + ps[i := Absorb(ps[i], ps[j])][j + 1..];
      && |q| == |ps| - 1 && q[i] == Absorb(ps[i], ps[j])
      && q[..i] + Coalesce(q[i..]) == ps[..i] + Coalesce(ps[i..])
  {
    var m := Absorb(ps[i], ps[j]);
    var q := ps[i := m][..j] + ps[i := m][j + 1..];
    assert q[..i] == ps[..i];
    assert q[i..] == [m] + ps[j + 1..];
    var s := ps[i..];
    assert s[0] == ps[i] && s[1] == ps[j] && s[2..] == ps[j + 1..];
    CoalesceMergeStep(s);
  }

  /** The merge loop moving past position `i`, where no absorption applies, keeps what the pass will produce. */
  lemma CoalesceKeepAt(ps: seq<Partition>, i: int)
    requires 0 <= i < |ps|
    requires !(i + 1 < |ps| && ps[i].free && ps[i + 1].free && ps[i + 1].base == End(ps[i]))
    ensures ps[..i] + Coalesce(ps[i..]) == ps[..i + 1] + Coalesce(ps[i + 1..])
  {
    var s := ps[i..];
    assert s[0] == ps[i] && s[1..] == ps[i + 1..];
    assert |s| >= 2 ==> s[1] == ps[i + 1];
    CoalesceKeepStep(s);
    assert ps[..i + 1] == ps[..i] + [ps[i]];
  }

  /** Merging keeps a tiling of [lo, hi) a tiling of [lo, hi). */
  lemma {:induction false} CoalesceKeepsChain(ps: seq<Partition>, lo: int, hi: int)
    requires Chain(ps, lo, hi)
    ensures Chain(Coalesce(ps), lo, hi)
    decreases |ps|
  {
    if |ps| >= 2 && ps[0].free && ps[1].free && ps[1].base == End(ps[0]) {
      var m := Absorb(ps[0], ps[1]);
      assert Chain([m] + ps[2..], lo, hi) by {
        assert ps[1..][1..] == ps[2..];
        assert ([m] + ps[2..])[1..] == ps[2..];
      }
      CoalesceKeepsChain([m] + ps[2..], lo, hi);
    } else if |ps| > 0 {
      CoalesceKeepsChain(ps[1..], End(ps[0]), hi);
      assert ([ps[0]] + Coalesce(ps[1..]))[1..] == Coalesce(ps[1..]);
    }
  }

  /** On a tiling, merging leaves no two neighbouring holes. */
  lemma {:induction false} CoalesceNoAdjacentFree(ps: seq<Partition>, lo: int, hi: int)
    requires Chain(ps, lo, hi)
    ensures NoAdjacentFree(Coalesce(ps))
    decreases |ps|
  {
    if |ps| >= 2 && ps[0].free && ps[1].free && ps[1].base == End(ps[0]) {
      var m := Absorb(ps[0], ps[1]);
      assert Chain([m] + ps[2..], lo, hi) by {
        assert ps[1..][1..] == ps[2..];
        assert ([m] + ps[2..])[1..] == ps[2..];
      }
      CoalesceNoAdjacentFree([m] + ps[2..], lo, hi);
    } else if |ps| > 0 {
      CoalesceNoAdjacentFree(ps[1..], End(ps[0]), hi);
      NoAdjacentFreeConcat([ps[0]], Coalesce(ps[1..]));
    }
  }

  /** Merging preserves the total length: the absorbing hole gains what the absorbed one had. */
  lemma {:induction false} CoalesceTotal(ps: seq<Partition>)
    ensures TotalLength(Coalesce(ps)) == TotalLength(ps)
    decreases |ps|
  {
    if |ps| >= 2 && ps[0].free && ps[1].free && ps[1].base == End(ps[0]) {
      var m := Absorb(ps[0], ps[1]);
      CoalesceTotal([m] + ps[2..]);
      assert ([m] + ps[2..])[1..] == ps[2..];
      assert ps[1..][1..] == ps[2..];
    } else if |ps| > 0 {
      CoalesceTotal(ps[1..]);
      assert ([ps[0]] + Coalesce(ps[1..]))[1..] == Coalesce(ps[1..]);
    }
  }

  /** Merging never touches an allocated partition: the allocated ones, in order, are the same. */
  lemma {:induction false} CoalesceKeepsAllocated(ps: seq<Partition>)
    ensures Allocated(Coalesce(ps)) == Allocated(ps)
    decreases |ps|
  {
    if |ps| >= 2 && ps[0].free && ps[1].free && ps[1].base == End(ps[0]) {
      var m := Absorb(ps[0], ps[1]);
      CoalesceKeepsAllocated([m] + ps[2..]);
      assert ([m] + ps[2..])[1..] == ps[2..];
      assert ps[1..][1..] == ps[2..];
    } else if |ps| > 0 {
      CoalesceKeepsAllocated(ps[1..]);
      AllocatedConcat([ps[0]], Coalesce(ps[1..]));
      AllocatedConcat([ps[0]], ps[1..]);
      assert [ps[0]] + ps[1..] == ps;
    }
  }

  /** Merging keeps the owners, their uniqueness, and holes without owners. */
  lemma {:induction false} CoalesceKeepsOwners(ps: seq<Partition>)
    ensures Owners(Coalesce(ps)) == Owners(ps)
    ensures UniqueOwners(ps) ==> UniqueOwners(Coalesce(ps))
    ensures FreeIffUnowned(ps) ==> FreeIffUnowned(Coalesce(ps))
    decreases |ps|
  {
    if |ps| >= 2 && ps[0].free && ps[1].free && ps[1].base == End(ps[0]) {
      var m := Absorb(ps[0], ps[1]);
      CoalesceKeepsOwners([m] + ps[2..]);
      assert ([m] + ps[2..])[1..] == ps[2..];
      assert ps[1..][1..] == ps[2..];
      assert HeldBy(m) == {} && HeldBy(ps[0]) == {} && HeldBy(ps[1]) == {};
      assert Owners(ps) == Owners(ps[2..]) == Owners([m] + ps[2..]);
      if UniqueOwners(ps) {
        assert UniqueOwners(ps[1..]);
        assert UniqueOwners(ps[2..]);
        assert UniqueOwners([m] + ps[2..]);
      }
      assert forall p :: p in [m] + ps[2..] ==> p == m || p in ps;
    } else if |ps| > 0 {
      CoalesceKeepsOwners(ps[1..]);
      var r := [ps[0]] + Coalesce(ps[1..]);
      assert r[1..] == Coalesce(ps[1..]);
      assert forall p :: p in ps[1..] ==> p in ps;
    }
  }

  /** A list without neighbouring holes is left as it is by the merge pass. */
  lemma {:induction false} CoalesceIdentity(ps: seq<Partition>)
    requires NoAdjacentFree(ps)
    ensures Coalesce(ps) == ps
    decreases |ps|
  {
    if |ps| > 0 {
      CoalesceIdentity(ps[1..]);
    }
  }

  /** Merging a tiling twice is merging it once. */
  lemma CoalesceIdempotent(ps: seq<Partition>, lo: int, hi: int)
    requires Chain(ps, lo, hi)
    ensures Coalesce(Coalesce(ps)) == Coalesce(ps)
  {
    CoalesceNoAdjacentFree(ps, lo, hi);
    CoalesceIdentity(Coalesce(ps));
  }

  /** The merge pass handles the two sides of an allocated partition independently. */
  lemma {:induction false} CoalesceConcat(a: seq<Partition>, b: seq<Partition>)
    requires |a| > 0 && !a[|a| - 1].free
    ensures Coalesce(a + b) == Coalesce(a) + Coalesce(b)
    decreases |a|
  {
    ConcatFront(a, b);
    if |a| == 1 {
      CoalesceKeepStep(a + b);
      CoalesceKeepStep(a);
    } else if a[0].free && a[1].free && a[1].base == End(a[0]) {
      var a' := [Absorb(a[0], a[1])] + a[2..];
      CoalesceMergeStep(a + b);
      CoalesceMergeStep(a);
      CoalesceConcat(a', b);
    } else {
      CoalesceKeepStep(a + b);
      CoalesceKeepStep(a);
      CoalesceConcat(a[1..], b);
    }
  }

  /** The front of a + b is the front of a, when a is long enough. */
  lemma ConcatFront(a: seq<Partition>, b: seq<Partition>)
    requires |a| > 0
    ensures (a + b)[0] == a[0] && (a + b)[1..] == a[1..] + b
    ensures |a| == 1 ==> (a + b)[1..] == b && a[1..] == []
    ensures |a| >= 2 ==> (a + b)[1] == a[1]
    ensures |a| >= 2 ==> [Absorb(a[0], a[1])] + (a + b)[2..] == ([Absorb(a[0], a[1])] + a[2..]) + b
  {
    if |a| >= 2 {
      assert (a + b)[2..] == a[2..] + b;
    }
  }

  /**
   Freeing an allocated partition of a valid table and merging gives a valid table again, one
   partition or more, in which the released name holds nothing.
   */
  lemma ReleaseKeepsTable(ps: seq<Partition>, names: set<string>, capacity: int, i: int)
    requires TableOk(ps, names, capacity) && 0 <= i < |ps| && !ps[i].free
    ensures TableOk(Coalesce(Freed(ps, i)), names, capacity)
    ensures |Coalesce(Freed(ps, i))| > 0
    ensures ps[i].owner.value !in Owners(Coalesce(Freed(ps, i)))
  {
    var p := ps[i];
    var f := p.(free := true, owner := None);
    var left, right := ps[..i], ps[i + 1..];
    var freed := Freed(ps, i);
    assert freed == left + ([f] + right);
    assert ps == left + ([p] + right);
    ChainUpdate(ps, i, f, 0, capacity);
    CoalesceKeepsChain(freed, 0, capacity);
    CoalesceNoAdjacentFree(freed, 0, capacity);
    assert FreeIffUnowned(freed) by {
      assert forall q :: q in freed ==> q == f || q in ps;
    }
    OwnersConcat(left, [p] + right);
    OwnersConcat([p], right);
    UniqueOwnersConcat(left, [p] + right);
    UniqueOwnersConcat([p], right);
    OwnersConcat(left, [f] + right);
    OwnersConcat([f], right);
    UniqueOwnersConcat(left, [f] + right);
    UniqueOwnersConcat([f], right);
    assert Owners([p]) == {p.owner.value} && Owners([f]) == {};
    assert UniqueOwners([f]);
    CoalesceKeepsOwners(freed);
  }

  /** A name that holds nothing is not found by release. */
  lemma NotOwnerNotFound(ps: seq<Partition>, name: string)
    requires name !in Owners(ps)
    ensures OwnedIndex(ps, name) == -1
  {
    if OwnedIndex(ps, name) != -1 {
      OwnedByIsOwner(ps, OwnedIndex(ps, name), name);
    }
  }

  /** Right after `name` is given the hole at `k`, release of `name` finds partition `k`. */
  lemma SplitThenOwnedIndex(ps: seq<Partition>, k: int, name: string, size: int)
    requires 0 <= k < |ps| && Fits(ps[k], size) && name !in Owners(ps)
    ensures OwnedIndex(Split(ps, k, name, size), name) == k
  {
    var r := Split(ps, k, name, size);
    assert r[..k] == ps[..k];
    assert OwnedBy(r[k], name);
    forall j | 0 <= j < k
      ensures !OwnedBy(r[j], name)
    {
      assert r[j] == ps[j];
      if OwnedBy(ps[j], name) {
        OwnedByIsOwner(ps, j, name);
      }
    }
  }

  /** Freeing the first of the pieces that replaced a partition frees it in place in the whole list. */
  lemma FreedAround(left: seq<Partition>, c: seq<Partition>, right: seq<Partition>)
    requires |c| > 0
    ensures Freed(left + c + right, |left|) == left + Freed(c, 0) + right
  {
  }

  /** The freed allocation and what was left of its hole merge back into the hole. */
  lemma RefillHole(hole: Partition, name: string, size: int, right: seq<Partition>)
    requires hole.free && hole.owner == None && hole.length >= size
    ensures Coalesce(Freed(Carve(hole, name, size), 0) + right) == Coalesce([hole] + right)
  {
    var f := Partition(hole.base, size, true, None);
    if hole.length != size {
      var rest := hole.(base := hole.base + size, length := hole.length - size);
      assert Freed(Carve(hole, name, size), 0) == [f, rest];
      var s := [f, rest] + right;
      assert s[0] == f && s[1] == rest && s[2..] == right;
      CoalesceMergeStep(s);
      assert Absorb(f, rest) == hole;
    } else {
      assert Freed(Carve(hole, name, size), 0) == [hole];
    }
  }

  /** Behind an allocated partition (or nothing), two tails that merge alike still merge alike. */
  lemma CoalesceSameTail(left: seq<Partition>, x: seq<Partition>, y: seq<Partition>)
    requires |left| > 0 ==> !left[|left| - 1].free
    requires Coalesce(x) == Coalesce(y)
    ensures Coalesce(left + x) == Coalesce(left + y)
  {
    if |left| == 0 {
      assert left + x == x && left + y == y;
    } else {
      CoalesceConcat(left, x);
      CoalesceConcat(left, y);
    }
  }

  /**
   Allocating part of a hole and releasing it again gives back the table as it was: the freed
   partition and what was left of the hole merge back into the original hole, whose neighbours
   are allocated.
   */
  lemma AllocateReleaseRoundTrip(ps: seq<Partition>, names: set<string>, capacity: int, k: int, name: string, size: int)
    requires TableOk(ps, names, capacity)
    requires 0 <= k < |ps| && Fits(ps[k], size) && size > 0
    ensures Coalesce(Freed(Split(ps, k, name, size), k)) == ps
  {
    var hole := ps[k];
    var left, right := ps[..k], ps[k + 1..];
    var back := Freed(Carve(hole, name, size), 0);
    assert hole.owner == None by {
      assert hole in ps;
    }
    FreedSplitShape(ps, k, name, size);
    RefillHole(hole, name, size, right);
    if k > 0 {
      BeforeHoleAllocated(ps, k);
    }
    CoalesceSameTail(left, back + right, [hole] + right);
    CoalesceIdentity(ps);
  }

  /** The table after a split and the release of the new partition, and the table before, around position k. */
  lemma FreedSplitShape(ps: seq<Partition>, k: int, name: string, size: int)
    requires 0 <= k < |ps| && Fits(ps[k], size)
    ensures Freed(Split(ps, k, name, size), k) == ps[..k] + (Freed(Carve(ps[k], name, size), 0) + ps[k + 1..])
    ensures ps == ps[..k] + ([ps[k]] + ps[k + 1..])
  {
    var left, c, right := ps[..k], Carve(ps[k], name, size), ps[k + 1..];
    FreedAround(left, c, right);
    assert left + Freed(c, 0) + right == left + (Freed(c, 0) + right);
    AroundIndex(ps, k);
    assert left + [ps[k]] + right == left + ([ps[k]] + right);
  }
}
