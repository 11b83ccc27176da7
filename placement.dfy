/**
 The placement strategies as specifications: which partition best fit, worst fit and next fit
 choose for a request, and the split that turns the chosen hole into an allocated partition
 followed by what is left of the hole.
 */
module Placement {
  import opened PartitionTable

  /** Best fit prefers the smallest sufficient hole, worst fit the largest. */
  datatype Preference = Smallest | Largest

  /** A hole of length `a` is strictly preferred to one of length `b`. */
  predicate Prefers(pref: Preference, a: int, b: int)
  {
    match pref
    case Smallest => a < b
    case Largest => a > b
  }

  /**
   The index a best-fit (Smallest) or worst-fit (Largest) scan of ps[..n] settles on: a hole that
   fits, no fitting hole is preferred to it, and every fitting hole before it is strictly worse,
   so the first of equally good holes in list order wins. -1 when no hole in ps[..n] fits.
   */
  function SelectAmong(ps: seq<Partition>, n: int, size: int, pref: Preference): (k: int)
    requires 0 <= n <= |ps|
    ensures -1 <= k < n
    ensures k == -1 ==> forall j :: 0 <= j < n ==> !Fits(ps[j], size)
    ensures k != -1 ==> Fits(ps[k], size)
    ensures k != -1 ==> forall j :: 0 <= j < n && Fits(ps[j], size) ==> !Prefers(pref, ps[j].length, ps[k].length)
    ensures k != -1 ==> forall j :: 0 <= j < k && Fits(ps[j], size) ==> Prefers(pref, ps[k].length, ps[j].length)
    decreases n
  {
    if n == 0 then -1
    else
      var k := SelectAmong(ps, n - 1, size, pref);
      if Fits(ps[n - 1], size) && (k == -1 || Prefers(pref, ps[n - 1].length, ps[k].length)) then n - 1 else k
  }

  /** The position `d` steps after `start` in a circular list of `n` partitions (d < n). */
  function Wrap(start: int, d: int, n: int): int
  {
    if start + d < n then start + d else start + d - n
  }

  /** How many steps a circular scan from `start` takes to reach position `j`. */
  function Dist(start: int, j: int, n: int): int
  {
    if start <= j then j - start else j + n - start
  }

  /**
   The index the next-fit scan takes when it has already passed `t` positions starting at `start`:
   the first hole that fits, in circular list order, among the positions at least `t` steps on;
   -1 once a full circuit has found none.
   */
  function NextFitFrom(ps: seq<Partition>, start: int, size: int, t: int): (k: int)
    requires 0 <= start < |ps| && 0 <= t <= |ps|
    ensures k == -1 ==> forall j :: 0 <= j < |ps| && t <= Dist(start, j, |ps|) ==> !Fits(ps[j], size)
    ensures k != -1 ==> 0 <= k < |ps| && Fits(ps[k], size) && t <= Dist(start, k, |ps|)
    ensures k != -1 ==> forall j :: 0 <= j < |ps| && t <= Dist(start, j, |ps|) < Dist(start, k, |ps|) ==> !Fits(ps[j], size)
    decreases |ps| - t
  {
    if t == |ps| then -1
    else
      var i := Wrap(start, t, |ps|);
      if Fits(ps[i], size) then i else NextFitFrom(ps, start, size, t + 1)
  }

  /**
   The next-fit choice for a scan starting at the cursor `start`: -1 exactly when no hole in the
   list fits, otherwise a fitting hole that no fitting hole precedes in circular order from `start`.
   */
  function NextFitIndex(ps: seq<Partition>, start: int, size: int): (k: int)
    requires 0 <= start < |ps|
    ensures k == -1 <==> forall j :: 0 <= j < |ps| ==> !Fits(ps[j], size)
    ensures k != -1 ==> 0 <= k < |ps| && Fits(ps[k], size)
    ensures k != -1 ==> forall j :: 0 <= j < |ps| && Dist(start, j, |ps|) < Dist(start, k, |ps|) ==> !Fits(ps[j], size)
  {
    assert forall j :: 0 <= j < |ps| ==> 0 <= Dist(start, j, |ps|);
    NextFitFrom(ps, start, size, 0)
  }

  /** One step of the scan, written as the Java method writes it, moves one position on around the circle. */
  lemma WrapStep(start: int, t: int, n: int)
    requires 0 <= start < n && 0 <= t < n
    ensures (Wrap(start, t, n) + 1) % n == Wrap(start, t + 1, n)
    ensures Wrap(start, t + 1, n) == start <==> t + 1 == n
  {
    var x := Wrap(start, t, n) + 1;
    assert 0 < x <= n;
    if x < n {
      assert x % n == x;
    } else {
      assert x % n == 0;
    }
  }

  /**
   What replaces the hole when `name` receives `size` units of it: the allocated partition at the
   hole's base, followed by what remains of the hole, which is dropped when nothing remains.
   */
  function Carve(hole: Partition, name: string, size: int): (c: seq<Partition>)
    ensures 1 <= |c| <= 2 && (|c| == 1 <==> hole.length == size)
    ensures c[0].base == hole.base && c[0].length == size && !c[0].free && c[0].owner == Some(name)
    ensures |c| == 2 ==> c[1].free == hole.free && c[1].owner == hole.owner
    ensures |c| == 2 ==> c[1].base == End(c[0]) && End(c[1]) == End(hole)
  {
    var alloc := Partition(hole.base, size, false, Some(name));
    if hole.length == size then [alloc] else [alloc, hole.(base := hole.base + size, length := hole.length - size)]
  }

  /**
   The table after `name` receives `size` units of the hole at `k`: the partitions before `k` and
   after it are kept, the hole's place is taken by the allocation at its base, and the list grows
   by one exactly when part of the hole remains.
   */
  function Split(ps: seq<Partition>, k: int, name: string, size: int): (r: seq<Partition>)
    requires 0 <= k < |ps| && Fits(ps[k], size)
    ensures |r| == |ps| || |r| == |ps| + 1
    ensures |r| == |ps| <==> ps[k].length == size
    ensures r[..k] == ps[..k] && r[|r| - (|ps| - k - 1)..] == ps[k + 1..]
    ensures r[k] == Partition(ps[k].base, size, false, Some(name))
  {
    ps[..k] + Carve(ps[k], name, size) + ps[k + 1..]
  }

  /** The carved pieces have the hole's total length. */
  lemma CarveTotal(hole: Partition, name: string, size: int)
    ensures TotalLength(Carve(hole, name, size)) == hole.length
  {
    var c := Carve(hole, name, size);
    if hole.length != size {
      var rest := hole.(base := hole.base + size, length := hole.length - size);
      assert c[1..] == [rest];
      TotalLengthSingle(rest);
    } else {
      assert c[1..] == [];
    }
  }

  /**
   Carving `size` units out of a hole tiles exactly the hole's range, has no neighbouring holes,
   and gives the new partition, the only owned one, to `name`.
   */
  lemma CarveFacts(hole: Partition, name: string, size: int)
    requires hole.free && hole.owner == None && 0 < size <= hole.length
    ensures Chain(Carve(hole, name, size), hole.base, End(hole))
    ensures NoAdjacentFree(Carve(hole, name, size)) && FreeIffUnowned(Carve(hole, name, size))
    ensures Owners(Carve(hole, name, size)) == {name} && UniqueOwners(Carve(hole, name, size))
    ensures !Carve(hole, name, size)[0].free
  {
    var c := Carve(hole, name, size);
    if hole.length != size {
      var rest := hole.(base := hole.base + size, length := hole.length - size);
      assert c[1..] == [rest];
      assert c[1..][1..] == [];
      assert Owners(c[1..]) == {} && UniqueOwners(c[1..]);
    } else {
      assert c[1..] == [];
    }
  }

  /** A split moves `size` units from the hole to the new partition: the total length is unchanged. */
  lemma SplitTotal(ps: seq<Partition>, k: int, name: string, size: int)
    requires 0 <= k < |ps| && Fits(ps[k], size)
    ensures TotalLength(Split(ps, k, name, size)) == TotalLength(ps)
  {
    var hole := ps[k];
    var left, right := ps[..k], ps[k + 1..];
    AroundIndex(ps, k);
    TotalLengthThree(left, [hole], right);
    TotalLengthSingle(hole);
    TotalLengthThree(left, Carve(hole, name, size), right);
    CarveTotal(hole, name, size);
  }

  /**
   Allocating `size` units of a fitting hole to a name the allocation index does not hold keeps
   the table invariant, with the name added to the index; the table does not get shorter.
   */
  lemma SplitKeepsTable(ps: seq<Partition>, names: set<string>, capacity: int, k: int, name: string, size: int)
    requires TableOk(ps, names, capacity)
    requires 0 <= k < |ps| && Fits(ps[k], size) && size > 0 && name !in names
    ensures TableOk(Split(ps, k, name, size), names + {name}, capacity)
    ensures |Split(ps, k, name, size)| >= |ps|
  {
    var hole := ps[k];
    var left, right := ps[..k], ps[k + 1..];
    var c := Carve(hole, name, size);
    AroundIndex(ps, k);
    assert hole.owner == None by {
      assert hole in ps;
    }
    CarveFacts(hole, name, size);
    ReplaceChain(left, hole, c, right, 0, capacity);
    ReplaceNoAdjacentFree(left, hole, c, right);
    ReplaceOwners(left, hole, c, right, names, name);
    assert FreeIffUnowned(left + c + right) by {
      assert forall p :: p in left + c + right ==> p in ps || p in c;
    }
  }

  /** The example of best and worst fit over holes of 10, 30 and 50 units with a request of 20. */
  lemma BestAndWorstFitExample()
    ensures
      var ps := [Partition(0, 10, true, None), Partition(10, 5, false, Some("A")),
                 Partition(15, 30, true, None), Partition(45, 5, false, Some("B")),
                 Partition(50, 50, true, None)];
      SelectAmong(ps, 5, 20, Smallest) == 2 && SelectAmong(ps, 5, 20, Largest) == 4
  {
  }
}
