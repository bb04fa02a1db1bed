/** Inputs that show where allocate_contiguous_clusters meets write faults of the drive and full volumes. */
module AllocationExamples {
  import opened Fat
  import opened FatFile
  import opened Contiguous
  import opened ChainBuilding
  import opened ContiguousResults

  function GapEntry(kind: FatType, from: nat, to: nat, i: nat): nat {
    if from <= i < to then 0 else LastLink(kind)
  }

  /** A volume with clusters of 512 bytes on which exactly the clusters in [from, to) are free. */
  function Gap(kind: FatType, n: nat, from: nat, to: nat, unwritable: set<int>): Volume {
    Volume(kind, seq(n, i requires 0 <= i < n => GapEntry(kind, from, to, i)), {}, unwritable, NONE, 1, 100,
           UNKNOWN, UNKNOWN)
  }

  /** A new file, open for writing. */
  const NEW_FILE := FileState(0, 0, 0, 0, true, Ok)

  lemma GapIsValid(kind: FatType, n: nat, from: nat, to: nat, unwritable: set<int>)
    requires 2 <= n <= 1000
    ensures Gap(kind, n, from, to, unwritable).Valid()
  {
  }

  /** In a new file on such a volume, the run of a length that fits is the gap itself. */
  lemma GapIsFirst(kind: FatType, n: nat, from: nat, to: nat, unwritable: set<int>, k: nat)
    requires 2 <= from < to <= n <= 1000 && 0 < k <= to - from
    ensures var v := Gap(kind, n, from, to, unwritable);
      Freed(v, NEW_FILE) == (v, Ok) && FirstRun(v, 2, k) == from && IsFreeRun(v, from, k)
  {
    var v := Gap(kind, n, from, to, unwritable);
    assert v.Valid();
    assert IsFreeRun(v, from, k);
    FirstRunIsFirst(v, 2, k);
    var c := FirstRun(v, 2, k);
    assert v.GetFat(c) == 0;
  }

  lemma BytesOf(v: Volume, k: nat)
    requires v.csize == 1 && 0 < k <= 1000
    ensures ClustersFor(v, 512 * k) == k && v.Extent(k) == 512 * k && Representable(v, 512 * k)
  {
    assert (512 * k + 511) / 512 == k;
  }

  /** A call for a new file of k clusters. */
  lemma NewFile(kind: FatType, n: nat, from: nat, to: nat, unwritable: set<int>, k: nat)
    requires 2 <= from < to <= n <= 1000 && 0 < k <= to - from
    ensures var v := Gap(kind, n, from, to, unwritable);
      var a := Allocate(v, NEW_FILE, 512 * k);
      if Buildable(v, from, k) then a.sect != 0 && Relocated(v, NEW_FILE, k, a) && a.f.sclust == from
      else a.sect == 0 && a.f.err == DiskErr
  {
    hide Allocate, Reallocate, Freed, FirstRun, Buildable, ClustersFor;
    var v := Gap(kind, n, from, to, unwritable);
    GapIsValid(kind, n, from, to, unwritable);
    GapIsFirst(kind, n, from, to, unwritable, k);
    BytesOf(v, k);
    AllocateCases(v, NEW_FILE, 512 * k);
    ReallocateFreed(v, NEW_FILE, k);
    StartOfRun(v, k, Allocate(v, NEW_FILE, 512 * k));
  }

  lemma StartOfRun(v: Volume, k: nat, a: Allocation)
    ensures Relocated(v, NEW_FILE, k, a) ==> a.f.sclust == FirstRun(Freed(v, NEW_FILE).0, 2, k)
  {
    hide FirstRun, Freed, Buildable, IsFreeRun, Chained;
  }

  /** A sector is returned although the only table sector involved cannot be written: the changes stay in
      the window. */
  lemma SucceedsInOneSector()
    ensures var v := Gap(Fat16, 100, 2, 100, {0});
      var a := Allocate(v, NEW_FILE, 5120);
      a.sect == 100 && a.f.sclust == 2 && a.v.held == 0
  {
    hide Allocate, Relocated;
    var v := Gap(Fat16, 100, 2, 100, {0});
    assert OneSector(v, 2, 10);
    NewFile(Fat16, 100, 2, 100, {0}, 10);
    var a := Allocate(v, NEW_FILE, 5120);
    RelocatedHeld(v, NEW_FILE, 10, a);
    GapIsValid(Fat16, 100, 2, 100, {0});
    AllocatedIsContiguous(v, NEW_FILE, 5120);
    GapIsFirst(Fat16, 100, 2, 100, {0}, 10);
  }

  /** The call fails if the run crosses into a table sector that cannot be written. */
  lemma FailsAcrossSectors()
    ensures Allocate(Gap(Fat16, 600, 250, 270, {1}), NEW_FILE, 5120).sect == 0
  {
    hide Allocate;
    var v := Gap(Fat16, 600, 250, 270, {1});
    assert !WritableEntry(v, 257);
    assert !OneSector(v, 250, 10);
    NewFile(Fat16, 600, 250, 270, {1}, 10);
  }

  /** On a table of 12-bit entries a second call can fail: the entry of cluster 341 lies in two sectors, and
      the window cannot leave the second one. */
  lemma SecondCallFails()
    ensures var v := Gap(Fat12, 400, 341, 342, {1});
      var a := Allocate(v, NEW_FILE, 512);
      a.sect != 0 && Allocate(a.v, a.f, 512) != Allocation(a.v, a.f.(fptr := 0), a.sect)
  {
    hide Allocate, Relocated, FirstRun, Contig, ClustersFor;
    var v := Gap(Fat12, 400, 341, 342, {1});
    assert v.First(341) == 0 && v.Second(341) == 1;
    NewFile(Fat12, 400, 341, 342, {1}, 1);
    GapIsValid(Fat12, 400, 341, 342, {1});
    BytesOf(v, 1);
    AllocateIsIdempotent(v, NEW_FILE, 512);
  }

  /** The one file of a full volume, two clusters that are not neighbours. */
  function FullVolume(): Volume {
    Volume(Fat16, seq(100, i => if i == 2 then 4 else 0xFFFF), {}, {}, NONE, 1, 100, UNKNOWN, UNKNOWN)
  }

  /** Asking for a third cluster empties the file and fails. */
  lemma EmptiesTheFile()
    ensures var a := Allocate(FullVolume(), FileState(2, 1024, 0, 0, true, Ok), 1536);
      a.sect == 0 && a.f.fsize == 0
  {
    hide Allocate, FirstRun;
    var v, f, cs := FullVolume(), FileState(2, 1024, 0, 0, true, Ok), [2, 4];
    assert v.Valid() && IsChain(v, cs);
    BytesOf(v, 3);
    var w := v.(fat := Zeroed(v.fat, cs));
    FirstRunIsFirst(w, 2, 3);
    var c := FirstRun(w, 2, 3);
    assert w.GetFat(3) != 0 && w.GetFat(5) != 0;
    assert c == 2 || c == 4 || w.GetFat(c) != 0;
    assert !IsFreeRun(w, c, 3);
    LosesDataIff(v, f, cs, 1536);
  }
}
