/**
 The contiguous-memory allocator object: the partition list, the allocation index and the
 next-fit cursor, and the operations that update them step by step.
 */
module Allocator {
  import opened PartitionTable
  import opened Placement
  import opened Coalescing
  import opened MemoryStats

  class ContigousMemoryAllocator {
    /** The size of the address range [0, capacity); never changes after construction. */
    const capacity: int
    /** The partition list, in list order. */
    var parts: seq<Partition>
    /** The keys of the allocation index: every name ever allocated (release removes none). */
    var names: set<string>
    /** Where the next next-fit scan starts. */
    var cursor: int

    ghost predicate Valid()
      reads this
    {
      && 0 < capacity <= MaxInt
      && TableOk(parts, names, capacity)
      && 0 <= cursor < |parts|
    }

    /**
     The outcome of a placement that chose index `k` of `ps0` (-1 for none): on a choice, `name`
     holds `size` units split off that hole and joins the index; otherwise nothing changed.
     */
    ghost predicate Placed(r: int, k: int, name: string, size: int, ps0: seq<Partition>, names0: set<string>)
      reads this
    {
      && (k == -1 ==> r == -1 && parts == ps0 && names == names0)
      && (k != -1 ==> 0 <= k < |ps0| && Fits(ps0[k], size) && r == size
                      && parts == Split(ps0, k, name, size) && names == names0 + {name})
    }

    /** A fresh allocator: one hole covering the whole range, an empty index, the cursor at 0. */
    constructor (capacity: int)
      requires 0 < capacity <= MaxInt
      ensures Valid()
      ensures this.capacity == capacity
      ensures parts == [Partition(0, capacity, true, None)] && names == {} && cursor == 0
    {
      this.capacity := capacity;
      cursor := 0;
      names := {};
      parts := [Partition(0, capacity, true, None)];
      new;
      assert parts[1..] == [];
      assert Chain(parts, 0, capacity);
      assert Owners(parts) == {} && UniqueOwners(parts);
    }

    /**
     The split step the three strategies share: the allocated partition is inserted at `k`, the
     hole moves to k + 1 with its base advanced and its length reduced by `size`, and is removed
     when nothing is left of it.
     */
    method AllocateAt(k: int, name: string, size: int)
      requires Valid() && 0 <= k < |parts| && Fits(parts[k], size) && size > 0 && name !in names
      modifies this`parts, this`names
      ensures Valid()
      ensures parts == Split(old(parts), k, name, size) && names == old(names) + {name}
    {
      ghost var ps0 := parts;
      var part := parts[k];
      var allocPart := Partition(part.base, size, false, Some(name));
      parts := parts[..k] + [allocPart] + parts[k..];
      names := names + {name};
      part := part.(base := part.base + size, length := part.length - size);
      parts := parts[k + 1 := part];
      InsertThenSet(ps0, k, allocPart, part);
      if part.length == 0 {
        parts := parts[..k + 1] + parts[k + 2..];
        RemoveAfter(ps0[..k], allocPart, part, ps0[k + 1..]);
      }
      SplitKeepsTable(ps0, old(names), capacity, k, name, size);
    }

    /**
     Best fit (Smallest) or worst fit (Largest): scan the whole list for the preferred fitting hole,
     the first one in list order among equals, and split it; -1 when the name is already in the
     index or no hole fits.
     */
    method PlaceBy(pref: Preference, name: string, size: int) returns (r: int)
      requires Valid() && size > 0
      modifies this`parts, this`names
      ensures Valid()
      ensures Placed(r, if name in old(names) then -1 else SelectAmong(old(parts), |old(parts)|, size, pref),
                     name, size, old(parts), old(names))
    {
      if name in names {
        return -1;
      }
      var index, chosen := 0, -1;
      while index < |parts|
        invariant 0 <= index <= |parts|
        invariant chosen == SelectAmong(parts, index, size, pref)
      {
        var part := parts[index];
        if Fits(part, size) {
          if chosen == -1 || Prefers(pref, part.length, parts[chosen].length) {
            chosen := index;
          }
        }
        index := index + 1;
      }
      if chosen != -1 {
        AllocateAt(chosen, name, size);
        r := size;
      } else {
        r := -1;
      }
    }

    /** Best fit: the smallest hole of at least `size`, the first of equally small ones. */
    method BestFit(name: string, size: int) returns (r: int)
      requires Valid() && size > 0
      modifies this`parts, this`names
      ensures Valid()
      ensures Placed(r, if name in old(names) then -1 else SelectAmong(old(parts), |old(parts)|, size, Smallest),
                     name, size, old(parts), old(names))
      ensures r == -1 <==> name in old(names) || forall j :: 0 <= j < |old(parts)| ==> !Fits(old(parts)[j], size)
    {
      r := PlaceBy(Smallest, name, size);
    }

    /** Worst fit: the largest hole of at least `size`, the first of equally large ones. */
    method WorstFit(name: string, size: int) returns (r: int)
      requires Valid() && size > 0
      modifies this`parts, this`names
      ensures Valid()
      ensures Placed(r, if name in old(names) then -1 else SelectAmong(old(parts), |old(parts)|, size, Largest),
                     name, size, old(parts), old(names))
      ensures r == -1 <==> name in old(names) || forall j :: 0 <= j < |old(parts)| ==> !Fits(old(parts)[j], size)
    {
      r := PlaceBy(Largest, name, size);
    }

    /**
     Next fit: split the first fitting hole the scan from the cursor finds. The cursor is left at
     the match (which now holds the new allocation), or where it started when no hole fits; it is
     not touched when the name is already in the index.
     */
    method NextFit(name: string, size: int) returns (r: int)
      requires Valid() && size > 0
      modifies this
      ensures Valid()
      ensures var k := if name in old(names) then -1 else NextFitIndex(old(parts), old(cursor), size);
        Placed(r, k, name, size, old(parts), old(names)) && cursor == (if k == -1 then old(cursor) else k)
      ensures r == -1 <==> name in old(names) || forall j :: 0 <= j < |old(parts)| ==> !Fits(old(parts)[j], size)
    {
      if name in names {
        return -1;
      }
      var index, found := NextFitScan(size);
      // the Java method splits the hole inside the scan loop, right before leaving it
      if found {
        AllocateAt(index, name, size);
        r := size;
      } else {
        r := -1;
      }
      cursor := index;
    }

    /**
     The do-while loop of next fit: visit the positions from the cursor on, wrapping around with
     the remainder, each at most once, and stop at the first fitting hole (found) or back at the
     cursor (not found).
     */
    method NextFitScan(size: int) returns (index: int, found: bool)
      requires Valid()
      ensures found <==> NextFitIndex(parts, cursor, size) != -1
      ensures index == if found then NextFitIndex(parts, cursor, size) else cursor
    {
      index := cursor;
      ghost var t := 0;
      found := false;
      while true
        invariant 0 <= t < |parts| && index == Wrap(cursor, t, |parts|) && !found
        invariant NextFitIndex(parts, cursor, size) == NextFitFrom(parts, cursor, size, t)
        decreases |parts| - t
      {
        var part := parts[index];
        if Fits(part, size) {
          found := true;
          break;
        }
        WrapStep(cursor, t, |parts|);
        index := (index + 1) % |parts|;
        t := t + 1;
        if index == cursor {
          break;
        }
      }
    }

    /**
     Release: free the first allocated partition owned by `name`, merge the holes, and return the
     length it had; -1, with nothing changed, when the name was never allocated or holds nothing
     any more. The index keeps the name either way.
     */
    method Release(name: string) returns (r: int)
      requires Valid()
      modifies this`parts, this`cursor
      ensures Valid()
      ensures var i := if name in old(names) then OwnedIndex(old(parts), name) else -1;
        && (i == -1 ==> r == -1 && parts == old(parts) && cursor == old(cursor))
        && (i != -1 ==> 0 <= i < |old(parts)| && r == old(parts)[i].length
                        && parts == Coalesce(Freed(old(parts), i))
                        && cursor == Clamp(old(cursor), |parts|))
      ensures r != -1 ==> r > 0 && name !in Owners(parts) && OwnedIndex(parts, name) == -1
    {
      if name !in names {
        return -1;
      }
      var size := -1;
      var i := 0;
      while i < |parts|
        invariant 0 <= i <= |parts| && parts == old(parts) && size == -1
        invariant OwnedIndex(parts, name) == OwnedFrom(parts, name, i)
      {
        var part := parts[i];
        if !part.free && part.owner == Some(name) {
          ChainAscending(parts, 0, capacity);
          parts := parts[i := part.(free := true, owner := None)];
          size := part.length;
          break;
        }
        i := i + 1;
      }
      if size < 0 {
        return size;
      }
      assert i == OwnedIndex(old(parts), name) && parts == Freed(old(parts), i);
      ReleaseKeepsTable(old(parts), names, capacity, i);
      ChainUpdate(old(parts), i, parts[i], 0, capacity);
      MergeHoles();
      NotOwnerNotFound(parts, name);
      r := size;
    }

    /**
     Sort the list by base. The library sort is not modelled: every list the allocator builds is a
     tiling, whose bases already ascend strictly, and SortedPermutationIsIdentity shows that the
     only permutation sorted by base is then the list itself.
     */
    method OrderPartitions()
      requires Chain(parts, 0, capacity)
      modifies this`parts
      ensures SortedByBase(parts) && multiset(parts) == multiset(old(parts))
      ensures parts == old(parts)
    {
      ChainAscending(parts, 0, capacity);
    }

    /**
     The merge pass after a release: sort, then let every hole absorb the holes that follow it and
     start where it ends. After each removal the cursor is pulled back to the last index if it fell
     off the end; otherwise it stays where it is.
     */
    method MergeHoles()
      requires Chain(parts, 0, capacity) && 0 <= cursor < |parts|
      modifies this`parts, this`cursor
      ensures parts == Coalesce(old(parts))
      ensures cursor == Clamp(old(cursor), |parts|)
    {
      OrderPartitions();
      ghost var merged, cursor0 := Coalesce(parts), cursor;
      var i := 0;
      while i < |parts|
        invariant 0 <= i <= |parts| && |parts| > 0
        invariant merged == parts[..i] + Coalesce(parts[i..])
        invariant cursor == Clamp(cursor0, |parts|)
        decreases |parts| - i
      {
        var part := parts[i];
        if part.free {
          ghost var n := |parts|;
          AbsorbFollowing(i);
          ClampTwice(cursor0, n, |parts|);
        }
        CoalesceKeepAt(parts, i);
        i := i + 1;
      }
      assert parts[..|parts|] == parts;
    }

    /**
     The inner loop of the merge pass: the hole at `i` absorbs each following hole that starts where
     it ends, until the next partition is allocated, not adjacent, or missing. What the whole pass
     produces is unchanged, and the cursor is clamped after each removal.
     */
    method AbsorbFollowing(i: int)
      requires 0 <= i < |parts| && parts[i].free && 0 <= cursor < |parts|
      modifies this`parts, this`cursor
      ensures i < |parts| <= old(|parts|)
      ensures parts[..i] + Coalesce(parts[i..]) == old(parts[..i] + Coalesce(parts[i..]))
      ensures !(i + 1 < |parts| && parts[i].free && parts[i + 1].free && parts[i + 1].base == End(parts[i]))
      ensures cursor == Clamp(old(cursor), |parts|)
    {
      var part := parts[i];
      var endAddr := part.base + part.length;
      var j := i + 1;
      while j < |parts|
        invariant j == i + 1 && i < |parts| <= old(|parts|)
        invariant part == parts[i] && part.free && endAddr == End(part)
        invariant parts[..i] + Coalesce(parts[i..]) == old(parts[..i] + Coalesce(parts[i..]))
        invariant cursor == Clamp(old(cursor), |parts|)
        decreases |parts|
      {
        var nextPart := parts[j];
        if nextPart.free && nextPart.base == endAddr {
          CoalesceAbsorbAt(parts, i, j);
          part := part.(length := part.length + nextPart.length);
          assert part == Absorb(parts[i], parts[j]);
          parts := parts[i := part];
          parts := parts[..j] + parts[j + 1..];
          if cursor >= |parts| {
            cursor := |parts| - 1;
          }
          endAddr := part.base + part.length;
        } else {
          break;
        }
      }
    }

    /** The counting loop of the memory statistics: the number of holes and their total length. */
    method CountHoles() returns (totalHoles: int, totalFreeMemory: int)
      ensures totalHoles == Holes(parts).holes && totalFreeMemory == Holes(parts).freeTotal
    {
      totalFreeMemory, totalHoles := 0, 0;
      for k := 0 to |parts|
        invariant totalHoles == Holes(parts[..k]).holes
        invariant totalFreeMemory == Holes(parts[..k]).freeTotal
      {
        var part := parts[k];
        if part.free {
          totalFreeMemory := totalFreeMemory + part.length;
          totalHoles := totalHoles + 1;
        }
        HolesSnoc(parts[..k], part);
        assert parts[..k + 1] == parts[..k] + [part];
      }
      assert parts[..|parts|] == parts;
    }
  }

  /** Inserting `p` at `k` and then overwriting position k + 1 with `q` replaces ps[k] by [p, q]. */
  lemma InsertThenSet(ps: seq<Partition>, k: int, p: Partition, q: Partition)
    requires 0 <= k < |ps|
    ensures (ps[..k] + [p] + ps[k..])[k + 1 := q] == ps[..k] + [p, q] + ps[k + 1..]
  {
  }

  /** Removing the element after `p` from left + [p, q] + right leaves left + [p] + right. */
  lemma RemoveAfter(left: seq<Partition>, p: Partition, q: Partition, right: seq<Partition>)
    ensures var xs := left + [p, q] + right;
      xs[..|left| + 1] + xs[|left| + 2..] == left + [p] + right
  {
    var xs := left + [p, q] + right;
    assert xs[..|left| + 1] == left + [p];
    assert xs[|left| + 2..] == right;
  }

  /** The next-fit cursor after the list shrank to `n` partitions: unchanged if still inside, else the last index. */
  function Clamp(cursor: int, n: int): (c: int)
    requires 0 < n
    ensures c < n && (0 <= cursor ==> 0 <= c)
    ensures c == cursor || c == n - 1
    ensures cursor < n ==> c == cursor
  {
    if cursor < n then cursor else n - 1
  }

  /** Clamping to a length and then to a smaller one is clamping to the smaller one. */
  lemma ClampTwice(cursor: int, n: int, m: int)
    requires 0 < m <= n
    ensures Clamp(Clamp(cursor, n), m) == Clamp(cursor, m)
  {
  }
}
