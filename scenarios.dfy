/**
 Uses of the allocator object as the driver makes them: a release undoing an allocation, the
 allocation index refusing a name for good once it has been used, and small concrete runs of the
 three strategies.
 */
module Scenarios {
  import opened PartitionTable
  import opened Placement
  import opened Coalescing
  import opened Allocator

  /**
   Best fit followed by the release of the same name gives back the table and the next-fit cursor
   as they were; only the allocation index remembers the name.
   */
  method AllocateThenRelease(a: ContigousMemoryAllocator, name: string, size: int) returns (got: int, freed: int)
    requires a.Valid() && size > 0 && name !in a.names
    modifies a
    ensures a.Valid()
    ensures got == -1 <==> forall j :: 0 <= j < |old(a.parts)| ==> !Fits(old(a.parts)[j], size)
    ensures got != -1 ==> freed == got == size && name in a.names
    ensures a.parts == old(a.parts) && a.cursor == old(a.cursor)
  {
    ghost var ps0, names0 := a.parts, a.names;
    got := a.BestFit(name, size);
    freed := -1;
    if got != -1 {
      ghost var k := SelectAmong(ps0, |ps0|, size, Smallest);
      SplitThenOwnedIndex(ps0, k, name, size);
      AllocateReleaseRoundTrip(ps0, names0, a.capacity, k, name, size);
      freed := a.Release(name);
    }
  }

  /**
   Once a name has been released, every operation refuses it: the index still holds it, and no
   partition is owned by it any more.
   */
  method ReleasedNameIsRefused(a: ContigousMemoryAllocator, name: string, size: int)
    returns (again: int, best: int, worst: int, next: int)
    requires a.Valid() && size > 0 && name in a.names && name !in Owners(a.parts)
    modifies a
    ensures a.Valid()
    ensures again == -1 && best == -1 && worst == -1 && next == -1
    ensures a.parts == old(a.parts) && a.names == old(a.names) && a.cursor == old(a.cursor)
  {
    NotOwnerNotFound(a.parts, name);
    again := a.Release(name);
    best := a.BestFit(name, size);
    worst := a.WorstFit(name, size);
    next := a.NextFit(name, size);
  }

  /** A memory of 10 units: P1 takes all of it, and then P2 finds no hole. */
  method WholeMemoryFilled() returns (a: ContigousMemoryAllocator, p1: int, p2: int)
    ensures fresh(a) && a.Valid() && a.names == {"P1"} && a.cursor == 0
    ensures a.parts == [Partition(0, 10, false, Some("P1"))]
    ensures p1 == 10 && p2 == -1
  {
    a := new ContigousMemoryAllocator(10);
    p1 := a.BestFit("P1", 10);
    assert a.parts == [] + Carve(Partition(0, 10, true, None), "P1", 10) + [];
    p2 := a.WorstFit("P2", 1);
  }

  /** Then releasing a name never allocated fails, and releasing P1 gives its 10 units back as one hole. */
  method WholeMemoryReleased() returns (a: ContigousMemoryAllocator, p1: int, p2: int, unknown: int, back: int)
    ensures fresh(a) && a.Valid() && a.names == {"P1"}
    ensures a.parts == [Partition(0, 10, true, None)]
    ensures p1 == 10 && p2 == -1 && unknown == -1 && back == 10
  {
    a, p1, p2 := WholeMemoryFilled();
    unknown := a.Release("Ghost");
    ghost var ps := a.parts;
    assert OwnedIndex(ps, "P1") == 0;
    assert Freed(ps, 0) == [Partition(0, 10, true, None)];
    CoalesceIdentity(Freed(ps, 0));
    back := a.Release("P1");
  }

  /** The whole run, ending with P1 refused although the memory is free again. */
  method WholeMemoryRun() returns (p1: int, p2: int, unknown: int, back: int, p1Again: int)
    ensures p1 == 10 && p2 == -1 && unknown == -1 && back == 10 && p1Again == -1
  {
    var a;
    a, p1, p2, unknown, back := WholeMemoryReleased();
    p1Again := a.NextFit("P1", 5);
  }

  /** Next fit in a fresh memory of 100 units: A takes the first 30 units, and the cursor stays at 0. */
  method NextFitPlacesOne() returns (a: ContigousMemoryAllocator)
    ensures fresh(a) && a.Valid() && a.names == {"A"} && a.cursor == 0
    ensures a.parts == [Partition(0, 30, false, Some("A")), Partition(30, 70, true, None)]
  {
    a := new ContigousMemoryAllocator(100);
    assert NextFitFrom(a.parts, 0, 30, 0) == 0;
    var r := a.NextFit("A", 30);
    assert a.parts == [] + Carve(Partition(0, 100, true, None), "A", 30) + [];
  }

  /** Then B takes the 20 units after A: the scan passes A, and the cursor moves on to B. */
  method NextFitPlacesTwo() returns (a: ContigousMemoryAllocator)
    ensures fresh(a) && a.Valid() && a.names == {"A", "B"} && a.cursor == 1
    ensures a.parts == [Partition(0, 30, false, Some("A")), Partition(30, 20, false, Some("B")), Partition(50, 50, true, None)]
  {
    a := NextFitPlacesOne();
    ghost var ps := a.parts;
    assert "B" !in a.names by {
      assert "B"[0] != "A"[0];
    }
    assert NextFitFrom(ps, 0, 20, 1) == 1;
    var r := a.NextFit("B", 20);
    assert a.parts == ps[..1] + Carve(ps[1], "B", 20) + [];
  }

  /** Releasing A leaves a 30-unit hole at address 0, before the cursor, which stays on B. */
  method NextFitReleasesFirst() returns (a: ContigousMemoryAllocator, freed: int)
    ensures fresh(a) && a.Valid() && a.names == {"A", "B"} && a.cursor == 1 && freed == 30
    ensures a.parts == [Partition(0, 30, true, None), Partition(30, 20, false, Some("B")), Partition(50, 50, true, None)]
  {
    a := NextFitPlacesTwo();
    ghost var ps := a.parts;
    assert OwnedIndex(ps, "A") == 0;
    ghost var holes := Freed(ps, 0);
    assert holes[1..][1..] == [ps[2]];
    CoalesceIdentity(holes);
    freed := a.Release("A");
  }

  /**
   Next fit resumes at its cursor: C goes into the hole after B although the hole at address 0,
   before the cursor, would also hold it.
   */
  method NextFitResumesRun() returns (c: int, placed: Partition, cursor: int)
    ensures c == 25 && placed == Partition(50, 25, false, Some("C")) && cursor == 2
  {
    var a, freed := NextFitReleasesFirst();
    ghost var ps := a.parts;
    assert "C" !in a.names by {
      assert "C"[0] != "A"[0] && "C"[0] != "B"[0];
    }
    assert NextFitFrom(ps, 1, 25, 1) == 2;
    c := a.NextFit("C", 25);
    assert a.parts == ps[..2] + Carve(ps[2], "C", 25) + [];
    placed, cursor := a.parts[2], a.cursor;
  }
}
