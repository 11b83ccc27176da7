# Contiguous memory allocator — a Dafny model

This project models the core of `ContigousMemoryAllocator`, a simulator of contiguous memory
allocation. One address range `[0, size)` is kept as a list of partitions. Each partition is
either allocated to a named process or free (a hole). The allocator places a process with one of
three strategies:

- best fit takes the smallest hole that is large enough;
- worst fit takes the largest one;
- next fit takes the first one found circularly from a persistent cursor.

The chosen hole is split: the process gets a partition at the hole's base, and the rest of the hole
stays free. Releasing a process frees its partition. The merge pass then joins neighbouring holes,
and keeps the next-fit cursor inside the list.

The model has six modules:

- `PartitionTable` (`table.dfy`) holds the partition record and the table invariant `TableOk`:
  - the partitions tile `[0, capacity)` exactly, in list order, each with positive length;
  - no two neighbouring partitions are both holes;
  - a partition has an owner exactly when it is allocated;
  - no process owns two partitions;
  - every owner is in the allocation index.
- `Placement` (`placement.dfy`) specifies the three strategies' choices (`SelectAmong`,
  `NextFitFrom`) and the split (`Split`).
- `Coalescing` (`coalesce.dfy`) specifies release (`OwnedIndex`, `Freed`) and the merge pass
  (`Coalesce`). It also holds the allocate-then-release round trip.
- `MemoryStats` (`stats.dfy`) holds the integer part of the memory statistics.
- `Allocator` (`allocator.dfy`) is the allocator object. Its class `ContigousMemoryAllocator` has:
  - the partition list as a `seq` field;
  - the allocation index's key set as a `set` field;
  - the next-fit cursor.

  Its methods update these fields step by step, as the Java methods do. Each method is proved
  against the specification functions of the modules above. The public operations (the
  constructor, best, worst and next fit, release) keep `Valid()`. The merge helpers
  (`OrderPartitions`, `MergeHoles`, `AbsorbFollowing`) run inside `Release`, on a list that may
  briefly hold two neighbouring holes. They neither require nor ensure `Valid()` and are proved
  equal to `Coalesce` (and to the sort's outcome) only.
- `Scenarios` (`scenarios.dfy`) uses the object as a client would: allocate then release, a
  refused name, and two concrete runs.

Four behaviours of the code are worth stating:

- Release does not remove the process from the allocation map (`allocMap`). The model's index
  therefore only grows. A released name is refused by every later allocation and release
  (`Scenarios.ReleasedNameIsRefused`, `Scenarios.WholeMemoryRun`). The index is not one-to-one with
  the allocated partitions. The invariant kept is weaker: owners are distinct and all in the
  index.
- After a next-fit success, the cursor is left at the matched index, which now holds the new
  allocation. It is not moved to the position after the match.
- Every failure is the value `-1`. The failures are:
  - a name already in the index;
  - no fitting hole;
  - an unknown name;
  - a name that no longer holds a partition.
- Insertions might seem able to leave the list out of address order, so that next fit would cycle
  by list position and not by address (`ContigousMemoryAllocator.java:151-169`). Every table the allocator can build is an
  exact tiling, so its bases ascend strictly. List order and address order are therefore the same
  (`PartitionTable.ChainAscending`), and sorting by base changes nothing
  (`PartitionTable.SortedPermutationIsIdentity`).

## Model

| member | source | states |
|---|---|---|
| PartitionTable.ChainTotal | ContigousMemoryAllocator.java:10-15 | the partition lengths of a tiling of [lo, hi) add up to hi - lo: no memory is lost or doubled |
| PartitionTable.ChainAscending | ContigousMemoryAllocator.java:76-78 | in a tiling, the bases strictly ascend in list order and every partition is non-empty and inside the range |
| PartitionTable.SortedPermutationIsIdentity | ContigousMemoryAllocator.java:76-78 | a permutation sorted by base of a list with strictly ascending bases is that list, so the sort leaves every reachable table as it is |
| MemoryStats.Holes | ContigousMemoryAllocator.java:56-61 | the hole count is between 0 and the number of partitions |
| MemoryStats.FreePlusAllocated | ContigousMemoryAllocator.java:56-61 | the total free memory plus the lengths of the allocated partitions is the total length of the list |
| MemoryStats.HolesWithinRange | ContigousMemoryAllocator.java:56-61 | on a tiling, the free total lies between 0 and the range size, and it is 0 exactly when there are no holes |
| Placement.SelectAmong | ContigousMemoryAllocator.java:86-96 | the best-fit and worst-fit scan: -1 iff no hole fits; otherwise a fitting hole that no fitting hole beats, and every fitting hole before it is strictly worse, so ties go to the first in list order |
| Placement.NextFitFrom | ContigousMemoryAllocator.java:151-169 | the circular scan from the cursor: -1 iff no hole at least t steps on fits; otherwise the fitting hole with the fewest steps from the cursor |
| Placement.WrapStep | ContigousMemoryAllocator.java:168-169 | `(index + 1) % size` moves the scan one step around the circle, and it is back at the cursor exactly after a full circuit |
| Placement.NextFitIndex | ContigousMemoryAllocator.java:151-169 | the next-fit choice from the cursor: -1 exactly when no hole in the list fits, otherwise a fitting hole with no fitting hole fewer circular steps from the cursor |
| Placement.Carve | ContigousMemoryAllocator.java:99-108 | the allocation sits at the hole's base with the requested size and owner; a remainder exists exactly when the hole was larger, is still a hole, starts where the allocation ends and ends where the hole ended |
| Placement.Split | ContigousMemoryAllocator.java:98-108 | the partitions before and after the hole are kept, the allocation takes the hole's index, and the list grows by one exactly when part of the hole remains |
| Placement.CarveTotal | ContigousMemoryAllocator.java:98-108 | the allocated partition and what remains of the hole have together the hole's length |
| Placement.CarveFacts | ContigousMemoryAllocator.java:98-108 | the pieces carved from a hole tile exactly its range, hold no two neighbouring holes, and give the one allocated piece, first in line, to the name |
| Placement.SplitTotal | ContigousMemoryAllocator.java:98-108 | the split keeps the total length of the list |
| Placement.SplitKeepsTable | ContigousMemoryAllocator.java:98-108 | splitting a fitting hole for a name not in the index keeps the table invariant, adds the name to the index, and does not shorten the list |
| Placement.BestAndWorstFitExample | ContigousMemoryAllocator.java:86-96 | with holes of 10, 30 and 50 units and a request of 20, best fit picks the 30-unit hole and worst fit the 50-unit one |
| Coalescing.OwnedFrom | ContigousMemoryAllocator.java:180-187 | the release scan: the first allocated partition owned by the name at or after i, or -1 when there is none |
| Coalescing.OwnedIndex | ContigousMemoryAllocator.java:180-186 | the release scan: -1 exactly when the name owns no allocated partition, otherwise the first one it owns |
| Coalescing.Freed | ContigousMemoryAllocator.java:182-183 | the found partition becomes a hole without an owner, with its base and length; every other partition is unchanged |
| Coalescing.Absorb | ContigousMemoryAllocator.java:211 | the grown hole keeps its base, flag and owner, takes both lengths, and ends where the absorbed adjacent hole ended |
| Coalescing.Coalesce | ContigousMemoryAllocator.java:199-228 | the merge pass never lengthens the list, and keeps the first partition's base, free flag and owner |
| Coalescing.CoalesceMergeStep | ContigousMemoryAllocator.java:209-213 | a hole followed by an adjacent hole: the pass absorbs the second into the first and goes on from the grown hole |
| Coalescing.CoalesceKeepStep | ContigousMemoryAllocator.java:220-226 | any other first partition is kept as it is, and the pass goes on with the rest |
| Coalescing.CoalesceAbsorbAt | ContigousMemoryAllocator.java:207-219 | growing the hole at i and removing the one at j = i + 1, as the inner loop does, shortens the list by one, leaves the grown hole at i, and leaves what the whole pass produces unchanged |
| Coalescing.CoalesceKeepAt | ContigousMemoryAllocator.java:203-226 | moving the outer loop past a partition that absorbs nothing more leaves what the pass produces unchanged |
| Coalescing.CoalesceKeepsChain | ContigousMemoryAllocator.java:199-228 | merging keeps a tiling of [lo, hi) a tiling of [lo, hi) |
| Coalescing.CoalesceNoAdjacentFree | ContigousMemoryAllocator.java:199-228 | after merging a tiling, no two neighbouring partitions are holes |
| Coalescing.CoalesceTotal | ContigousMemoryAllocator.java:211-213 | merging keeps the total length |
| Coalescing.CoalesceKeepsAllocated | ContigousMemoryAllocator.java:204-226 | merging leaves the allocated partitions, in order, exactly as they were |
| Coalescing.CoalesceKeepsOwners | ContigousMemoryAllocator.java:204-226 | merging keeps the set of owners, distinct owners, and "owned iff allocated" |
| Coalescing.CoalesceIdentity | ContigousMemoryAllocator.java:199-228 | a list without neighbouring holes is left unchanged by the merge pass |
| Coalescing.CoalesceIdempotent | ContigousMemoryAllocator.java:199-228 | merging a tiling twice gives the same list as merging it once |
| Coalescing.CoalesceConcat | ContigousMemoryAllocator.java:204-226 | an allocated partition separates the merge pass: each side is merged on its own |
| Coalescing.ReleaseKeepsTable | ContigousMemoryAllocator.java:180-193 | freeing an allocated partition and merging keeps the table invariant and a non-empty list, and its former owner no longer owns anything |
| Coalescing.NotOwnerNotFound | ContigousMemoryAllocator.java:180-190 | the release scan finds nothing for a name that owns no partition |
| Coalescing.SplitThenOwnedIndex | ContigousMemoryAllocator.java:97-103 | after a split for a name that owned nothing, the release scan finds the name at the split index |
| Coalescing.RefillHole | ContigousMemoryAllocator.java:204-219 | freeing the allocated piece carved from a hole and merging it with what remained gives back the original hole |
| Coalescing.CoalesceSameTail | ContigousMemoryAllocator.java:204-226 | behind an allocated partition, two tails that merge to the same list still do so with the front attached |
| Coalescing.AllocateReleaseRoundTrip | ContigousMemoryAllocator.java:97-193 | on a valid table, freeing the partition a split created and merging gives back the table as it was before the split |
| Allocator.ContigousMemoryAllocator.constructor | ContigousMemoryAllocator.java:10-15 | a fresh allocator is valid: one hole covering the whole range, an empty index, the cursor at 0 |
| Allocator.ContigousMemoryAllocator.AllocateAt | ContigousMemoryAllocator.java:98-108 | the insert, shrink and remove steps of a placement produce exactly Split of the old list, add the name to the index, and keep Valid |
| Allocator.ContigousMemoryAllocator.PlaceBy | ContigousMemoryAllocator.java:81-112 | the scan-and-split shared by best and worst fit: -1 with nothing changed for a known name or no fit, else the SelectAmong hole is split and the size returned |
| Allocator.ContigousMemoryAllocator.BestFit | ContigousMemoryAllocator.java:81-112 | places into the SelectAmong(Smallest) hole; -1 exactly when the name is known or no hole fits |
| Allocator.ContigousMemoryAllocator.WorstFit | ContigousMemoryAllocator.java:115-144 | places into the SelectAmong(Largest) hole; -1 exactly when the name is known or no hole fits |
| Allocator.ContigousMemoryAllocator.NextFitScan | ContigousMemoryAllocator.java:151-169 | the scan loop changes nothing; it reports found exactly when NextFitIndex finds a hole, and the index is that hole, or the cursor when none fits |
| Allocator.ContigousMemoryAllocator.NextFit | ContigousMemoryAllocator.java:147-172 | places into the NextFitIndex hole and leaves the cursor there, or leaves the cursor unchanged; -1 exactly when the name is known or no hole fits |
| Allocator.ContigousMemoryAllocator.Release | ContigousMemoryAllocator.java:175-196 | -1 with nothing changed for an unknown name or one that holds nothing; else returns the freed length, the table becomes Coalesce(Freed(...)) with the cursor clamped, and the name then owns nothing |
| Allocator.ContigousMemoryAllocator.OrderPartitions | ContigousMemoryAllocator.java:76-78 | on a tiling, the sorted list is sorted by base, a permutation of the old one, and equal to it |
| Allocator.ContigousMemoryAllocator.MergeHoles | ContigousMemoryAllocator.java:199-228 | the outer loop, with the inner one, produces exactly Coalesce of the old list, and the cursor is clamped to the last index only if it fell off the end |
| Allocator.ContigousMemoryAllocator.AbsorbFollowing | ContigousMemoryAllocator.java:205-224 | the inner loop leaves the hole at i with no adjacent hole after it, never lengthens the list, keeps what the pass produces, and keeps the cursor clamped |
| Allocator.InsertThenSet | ContigousMemoryAllocator.java:102-105 | inserting the allocation at k and then updating the hole, now at k + 1, replaces the hole by the two pieces |
| Allocator.RemoveAfter | ContigousMemoryAllocator.java:106-108 | removing the emptied hole after the allocation leaves the allocation alone in the hole's place |
| Allocator.Clamp | ContigousMemoryAllocator.java:215-217 | the clamped cursor is a valid index of the shrunk list: the old cursor when still inside, otherwise the last index |
| Allocator.ClampTwice | ContigousMemoryAllocator.java:213-217 | clamping after each removal is the same as clamping once to the final length |
| Allocator.ContigousMemoryAllocator.CountHoles | ContigousMemoryAllocator.java:53-61 | the counting loop returns the number of holes and their total length, as Holes defines them |
| Scenarios.AllocateThenRelease | ContigousMemoryAllocator.java:81-196 | best fit followed by the release of the same name restores the partition list and the cursor |
| Scenarios.ReleasedNameIsRefused | ContigousMemoryAllocator.java:81-196 | a name that is in the index but owns nothing is refused (-1) by release and all three strategies, with nothing changed |
| Scenarios.WholeMemoryFilled | ContigousMemoryAllocator.java:10-144 | capacity 10: P1 gets all 10 units by best fit, the emptied hole is dropped, and P2 then gets -1 by worst fit |
| Scenarios.WholeMemoryReleased | ContigousMemoryAllocator.java:175-196 | releasing an unknown name then gives -1, and releasing P1 gives 10 and leaves one 10-unit hole |
| Scenarios.WholeMemoryRun | ContigousMemoryAllocator.java:147-150 | the whole run returns 10, -1, -1, 10 and then -1: P1 is refused by next fit although the memory is free again |
| Scenarios.NextFitPlacesOne | ContigousMemoryAllocator.java:147-172 | in a fresh memory of 100 units, next fit gives A the first 30 units and leaves the cursor at 0 |
| Scenarios.NextFitPlacesTwo | ContigousMemoryAllocator.java:147-172 | B then gets the 20 units after A, and the cursor moves to B |
| Scenarios.NextFitReleasesFirst | ContigousMemoryAllocator.java:175-196 | releasing A gives its 30 units back as a hole at address 0, and the cursor stays on B |
| Scenarios.NextFitResumesRun | ContigousMemoryAllocator.java:147-172 | next fit then resumes from its cursor: C goes into the hole after B, not into the freed hole at address 0, and the cursor moves to C |

## Left out

- `main` and its configuration file, random process generation, the simulation loop and timing:
  these are I/O and randomness, not allocator logic.
- `print_status` and `findProcessByName`: text output, and a search over the driver's process list.
  `Process.java` is not part of this model.
- The average hole size and the free percentage in `printMemoryStats`: floating point, and printing.
  Only the integer counting loop is modelled (`CountHoles`).
- `Collections.sort` itself: `OrderPartitions` does not run a sort. It states the sort's outcome
  and proves that the outcome is the list itself.
- `Partition.java` is not part of this model. The partition is a value with base, length, free flag
  and owner. The list slots are updated in place of the Java setters on a shared object, and
  `partList.remove(part)` is taken to remove the shrunk hole at index + 1.
- Object aliasing: `allocMap` maps each name to the Java partition object. The mapped objects are
  never read, so only the key set is kept.
- Allocator.ContigousMemoryAllocator.constructor: requires 0 < capacity <= 2^31 - 1, because the
  Java code builds a partition of non-positive length for a non-positive size.
- Allocator.ContigousMemoryAllocator.BestFit, WorstFit, NextFit: require size > 0, because the Java
  code would create a non-positive allocated partition. Java `int` overflow is not modelled
  because it cannot arise: every base and length stays within the capacity, which fits an `int`.
