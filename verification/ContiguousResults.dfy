/** What allocate_contiguous_clusters achieves, exactly when, and what it leaves alone. */
module ContiguousResults {
  import opened Fat
  import opened FatFile
  import opened Contiguous
  import opened ChainBuilding

  // --- The search for the run --------------------------------------------------------

  /** The free-run scan is sound, complete and first-fit. */
  lemma {:induction false} FirstRunIsFirst(v: Volume, c: nat, n: nat)
    requires n > 0
    ensures var r := FirstRun(v, c, n);
            && (r != 0 ==> c <= r && IsFreeRun(v, r, n) && forall e: nat :: c <= e < r ==> !IsFreeRun(v, e, n))
            && (r == 0 ==> forall e: nat :: c <= e ==> !IsFreeRun(v, e, n))
    decreases v.N() - c
  {
    if c + n <= v.N() && !IsFreeRun(v, c, n) {
      FirstRunIsFirst(v, c + 1, n);
    }
  }

  // --- Reallocation --------------------------------------------------------------------

  /** The volume after f_truncate at offset 0, and whether that worked. */
  ghost function Freed(v: Volume, f: FileState): (Volume, FResult) {
    if f.fsize > 0 then RemoveChain(v, f.sclust) else (v, Ok)
  }

  /** An open file at offset 0; as ff.h says, sclust is 0 when the file is empty. */
  ghost predicate Rewound(f: FileState) {
    f.err == Ok && f.fptr == 0 && (f.fsize == 0 ==> f.sclust == 0)
  }

  lemma TruncatedIsFreed(v: Volume, f: FileState)
    requires v.N() >= 2 && Rewound(f) && f.write
    ensures var o := Truncated(v, f);
      && o.v == Freed(v, f).0 && o.res == Freed(v, f).1
      && (if o.res == Ok then IsEmpty(o.f) else o.f.fsize == 0 && o.f.sclust == 0 && o.f.err == o.res)
  {
    hide FreeFrom;
  }

  lemma FreedKeepsValid(v: Volume, f: FileState)
    requires v.Valid()
    ensures var (w, res) := Freed(v, f);
      && w.Valid() && (res == Ok && CountRight(v) ==> CountRight(w))
      && w.N() == v.N() && w == v.(fat := w.fat, held := w.held, freeClust := w.freeClust)
  {
    if f.fsize > 0 && v.InRange(f.sclust) {
      FreeFromCount(v, f.sclust);
    }
  }

  /** Reallocation works exactly when the old chain can be freed and, after that, the first run of n
      free clusters exists and a chain can be built in it. */
  ghost predicate Relocatable(v: Volume, f: FileState, n: nat) {
    var (w, res) := Freed(v, f);
    var c := FirstRun(w, 2, n);
    f.write && res == Ok && c != 0 && Buildable(w, c, n)
  }

  /** The outcome of a successful reallocation: the file is the first run of n clusters that is free
      once its old chain is freed, and nothing else in the table differs from that. */
  ghost predicate Relocated(v: Volume, f: FileState, n: nat, a: Allocation) {
    var w := Freed(v, f).0;
    var c := FirstRun(w, 2, n);
    && w.Valid() && c != 0 && IsUsableRun(w, c, n) && Built(w, a.v, c, n)
    && (CountRight(v) ==> CountRight(a.v))
    && a.f.sclust == c && a.f.fsize == a.f.fptr == v.Extent(n) && a.f.write && a.f.err == Ok
    && a.sect == v.Clust2Sect(c)
  }

  lemma SectorsArePositive(v: Volume, c: nat)
    requires v.database > 0 && v.InRange(c)
    ensures v.Clust2Sect(c) > 0
  {
    var d, e := c - 2, v.csize;
    assert d * e >= 0;
  }

  lemma SameRuns(v: Volume, w: Volume, c: nat, n: nat)
    requires w == v.(lastClust := w.lastClust)
    ensures IsFreeRun(v, c, n) <==> IsFreeRun(w, c, n)
    ensures Buildable(v, c, n) <==> Buildable(w, c, n)
    ensures Chained(v, c, n) == Chained(w, c, n)
  {
    hide FirstSector, SecondSector;
    assert forall i: nat :: v.GetFat(i) == w.GetFat(i);
    assert forall i: nat :: WritableEntry(v, i) <==> WritableEntry(w, i);
  }

  /** What reallocation does once the old chain has been freed. */
  lemma ReallocateFreed(v: Volume, f: FileState, n: nat)
    requires v.Valid() && Rewound(f) && f.write && n > 0 && Freed(v, f).1 == Ok
    ensures var w, a := Freed(v, f).0, Reallocate(v, f, n);
      var c := FirstRun(w, 2, n);
      if c == 0 then a.v == w && a.sect == 0 && IsEmpty(a.f)
      else if Buildable(w, c, n) then a.sect != 0 && Relocated(v, f, n, a)
      else a.sect == 0 && a.f.fsize == 0 && a.f.err == DiskErr
  {
    hide Seek, Truncated, Freed, Buildable, Chained, FirstRun;
    TruncatedIsFreed(v, f);
    FreedKeepsValid(v, f);
    var o := Truncated(v, f);
    var w := o.v;
    var c := FirstRun(w, 2, n);
    FirstRunIsFirst(w, 2, n);
    if c != 0 {
      var w' := w.(lastClust := c - 1);
      SameRuns(w, w', c, n);
      BuildRun(w', o.f, c, n);
      SectorsArePositive(v, c);
    }
  }

  lemma ReallocateExactly(v: Volume, f: FileState, n: nat)
    requires v.Valid() && Rewound(f) && n > 0
    ensures var a := Reallocate(v, f, n);
      && (a.sect != 0 <==> Relocatable(v, f, n))
      && (a.sect != 0 ==> Relocated(v, f, n, a))
      && (!f.write ==> a == Allocation(v, f, 0))
      && (f.write && a.sect == 0 ==> a.f.fsize == 0 && (a.f.err == Ok ==> a.f.sclust == 0))
  {
    hide Freed, Buildable, FirstRun, Relocated;
    if f.write {
      TruncatedIsFreed(v, f);
      if Freed(v, f).1 == Ok {
        ReallocateFreed(v, f, n);
      }
    }
  }

  // --- The whole call ------------------------------------------------------------------

  /** A file as f_open and the other functions leave it: sclust is 0 when the file is empty. */
  ghost predicate Proper(f: FileState) {
    f.fsize == 0 ==> f.sclust == 0
  }

  /** The file already occupies the wanted size in one piece. */
  ghost predicate AlreadyThere(v: Volume, f: FileState, n: nat) {
    f.fsize == v.Extent(n) && Contig(v, f.sclust, n)
  }

  /** The check does not find a damaged chain, so the file is up for reallocation. */
  ghost predicate GoesOn(v: Volume, f: FileState, n: nat) {
    f.fsize != v.Extent(n) || Check(v, f.sclust, n) == Scattered
  }

  /** len rounded up to clusters fits 32 bits; otherwise `len + csz - 1` wraps around to less than a cluster. */
  predicate Representable(v: Volume, len: nat) {
    len + v.ClusterSize() - 1 < DWORD
  }

  lemma RoundsUp(v: Volume, len: nat)
    requires v.Valid() && 0 < len < DWORD
    ensures Representable(v, len) ==> ClustersFor(v, len) > 0 &&
                                      len <= v.Extent(ClustersFor(v, len)) < len + v.ClusterSize()
    ensures !Representable(v, len) ==> ClustersFor(v, len) == 0
  {
    hide Quotient;
    var b := v.ClusterSize();
    assert 0 < b <= 0x1_0000;
    if Representable(v, len) {
      QuotientBounds(len + b - 1, b);
    } else {
      QuotientBounds(len + b - 1 - DWORD, b);
    }
  }

  lemma QuotientBounds(a: nat, b: nat)
    requires b > 0
    ensures a < b ==> Quotient(a, b) == 0
    ensures a >= b ==> Quotient(a, b) > 0
    ensures a - b < Quotient(a, b) * b <= a
  {
  }

  /** The three ways of a call with a size that can be represented. */
  lemma AllocateCases(v: Volume, f: FileState, len: nat)
    requires v.Valid() && f.err == Ok && 0 < len < DWORD && Representable(v, len)
    ensures var n, f0 := ClustersFor(v, len), f.(fptr := 0);
      && n > 0
      && Allocate(v, f, len)
         == (if AlreadyThere(v, f, n) then Allocation(v, f0, v.Clust2Sect(f.sclust))
             else if GoesOn(v, f, n) then Reallocate(v, f0, n)
             else Allocation(v, f0, 0))
      && (AlreadyThere(v, f, n) ==> !GoesOn(v, f, n) && v.Clust2Sect(f.sclust) != 0)
  {
    hide Reallocate, ClustersFor;
    RoundsUp(v, len);
    var n := ClustersFor(v, len);
    CheckIsContig(v, f.sclust, n);
    if Contig(v, f.sclust, n) {
      ContigStart(v, f.sclust, n);
      SectorsArePositive(v, f.sclust);
    }
  }

  /** The call returns a sector exactly when the size is representable and the file is either in place
      already, or open for writing and relocatable. */
  lemma AllocateExactly(v: Volume, f: FileState, len: nat)
    requires v.Valid() && Proper(f) && len < DWORD
    ensures var n := ClustersFor(v, len);
            Allocate(v, f, len).sect != 0 <==>
            && f.err == Ok && len > 0 && Representable(v, len)
            && (AlreadyThere(v, f, n) || (GoesOn(v, f, n) && Relocatable(v, f.(fptr := 0), n)))
  {
    if f.err == Ok && len > 0 {
      if Representable(v, len) {
        hide Allocate, ClustersFor, AlreadyThere, GoesOn, Reallocate, Relocatable, Relocated;
        AllocateCases(v, f, len);
        ReallocateExactly(v, f.(fptr := 0), ClustersFor(v, len));
      } else {
        AllocateWrapped(v, f, len);
      }
    }
  }

  // --- Failed calls ---------------------------------------------------------------------

  lemma ReallocateNothing(v: Volume, f: FileState)
    requires v.Valid() && Rewound(f)
    ensures Reallocate(v, f, 0).sect == 0
    ensures if f.write then Reallocate(v, f, 0).f.fsize == 0 else Reallocate(v, f, 0) == Allocation(v, f, 0)
  {
    hide FirstRun, Freed;
    assert v.Extent(0) == 0;
    if f.write {
      TruncatedIsFreed(v, f);
    }
  }

  /** When the size wraps around, the call fails, and it has emptied the file by then if it may write and
      the check, which takes an empty file for the wanted one, does not stop it. */
  lemma AllocateWrapped(v: Volume, f: FileState, len: nat)
    requires v.Valid() && Proper(f) && f.err == Ok && 0 < len < DWORD && !Representable(v, len)
    ensures Allocate(v, f, len).sect == 0
    ensures f.write ==> Allocate(v, f, len).f.fsize == 0
  {
    hide Quotient, Reallocate;
    RoundsUp(v, len);
    assert v.Extent(0) == 0;
    ReallocateNothing(v, f.(fptr := 0));
  }

  /** With clusters of 512 bytes a request for 4 GB - 1 does this to any writable file. */
  lemma LastLengthWraps(v: Volume, f: FileState)
    requires v.Valid() && v.csize == 1 && Proper(f) && f.err == Ok && f.write
    ensures Allocate(v, f, 0xFFFF_FFFF).sect == 0 && Allocate(v, f, 0xFFFF_FFFF).f.fsize == 0
  {
    AllocateWrapped(v, f, 0xFFFF_FFFF);
  }

  /** A failed call with a representable size leaves everything but the file pointer as it was, if the file
      cannot be written or the check finds a damaged chain; otherwise the file is empty. */
  lemma FailedCall(v: Volume, f: FileState, len: nat)
    requires v.Valid() && Proper(f) && f.err == Ok && 0 < len < DWORD && Representable(v, len)
    requires Allocate(v, f, len).sect == 0
    ensures var a := Allocate(v, f, len);
      if f.write && GoesOn(v, f, ClustersFor(v, len)) then a.f.fsize == 0 && (a.f.err == Ok ==> a.f.sclust == 0)
      else a == Allocation(v, f.(fptr := 0), 0)
  {
    hide Allocate, ClustersFor, AlreadyThere, GoesOn, Reallocate, Relocatable, Relocated;
    AllocateCases(v, f, len);
    ReallocateExactly(v, f.(fptr := 0), ClustersFor(v, len));
  }

  /** A drive without faults. */
  ghost predicate Faultless(v: Volume) {
    v.unreadable == {} && v.unwritable == {}
  }

  lemma FaultlessBuilds(v: Volume, c: nat, n: nat)
    requires Faultless(v)
    ensures Buildable(v, c, n)
  {
    assert forall i: nat :: WritableEntry(v, i);
  }

  lemma FaultlessFrees(v: Volume, f: FileState, cs: seq<nat>)
    requires v.Valid() && Faultless(v) && f.fsize > 0 && IsChain(v, cs) && f.sclust == cs[0]
    ensures Freed(v, f).1 == Ok && Freed(v, f).0.fat == Zeroed(v.fat, cs) && Faultless(Freed(v, f).0)
  {
    hide FirstSector, SecondSector, FreeFrom, Zeroed;
    assert v.InRange(cs[0]);
    FreeChain(v, cs);
    assert Freeable(v, cs);
  }

  /** On a faultless drive a writable file with an intact chain loses its data in a failed call exactly when
      the table has no run of n free clusters even with the file's own clusters counted as free. */
  lemma LosesDataIff(v: Volume, f: FileState, cs: seq<nat>, len: nat)
    requires v.Valid() && Faultless(v) && f.write && f.err == Ok && 0 < len < DWORD && Representable(v, len)
    requires f.fsize > 0 && IsChain(v, cs) && f.sclust == cs[0]
    ensures var a, n := Allocate(v, f, len), ClustersFor(v, len);
      a.sect == 0 && a.f.fsize == 0 <==> GoesOn(v, f, n) && FirstRun(v.(fat := Zeroed(v.fat, cs)), 2, n) == 0
  {
    hide Allocate, ClustersFor, AlreadyThere, GoesOn, Reallocate, Relocated, Freed, Zeroed, FirstRun, Buildable;
    var n, f0 := ClustersFor(v, len), f.(fptr := 0);
    AllocateCases(v, f, len);
    FaultlessFrees(v, f0, cs);
    FreedKeepsValid(v, f0);
    var w := Freed(v, f0).0;
    ReallocateFreed(v, f0, n);
    SameFirstRun(w, v.(fat := Zeroed(v.fat, cs)), 2, n);
    FaultlessBuilds(w, FirstRun(w, 2, n), n);
    assert !GoesOn(v, f, n) ==> Allocate(v, f, len).f.fsize == f.fsize;
  }

  lemma {:induction false} SameFirstRun(v: Volume, w: Volume, c: nat, n: nat)
    requires v.Valid() && w.fat == v.fat && Faultless(v) && Faultless(w) && v.held == NONE
    requires w.held == NONE
    ensures FirstRun(v, c, n) == FirstRun(w, c, n)
    decreases v.N() - c
  {
    assert forall i: nat :: v.GetFat(i) == w.GetFat(i);
    if c + n <= v.N() && c < v.N() {
      SameFirstRun(v, w, c + 1, n);
    }
  }

  // --- Successful calls -----------------------------------------------------------------

  /** In the table, cluster i links to its successor, or, if that is the end, possibly to nothing. */
  ghost predicate LinksOn(v: Volume, i: nat, end: nat) {
    v.InRange(i) && (v.fat[i] == i + 1 || (i + 1 == end && v.N() <= v.fat[i] < DISK_ERROR))
  }

  /** The n clusters from s on are linked in sequence, whether or not their entries can be read at the
      moment. */
  ghost predicate InSequence(v: Volume, s: nat, n: nat) {
    var end := s + n;
    n > 0 && forall i: nat :: s <= i < end ==> LinksOn(v, i, end)
  }

  lemma ContigInSequence(v: Volume, s: nat, n: nat)
    requires v.Valid() && Contig(v, s, n)
    ensures InSequence(v, s, n)
  {
    CutFits(v.kind, 0);
    var end := s + n;
    forall i: nat | s <= i < end
      ensures LinksOn(v, i, end)
    {
      assert i < end - 1 ==> Next(v, i);
    }
  }

  /** In a relocated file's volume, cluster k of the file can be loaded and is linked in sequence. */
  lemma RelocatedEntry(v: Volume, f: FileState, n: nat, a: Allocation, k: nat)
    requires Relocated(v, f, n, a) && a.f.sclust <= k < a.f.sclust + n
    ensures a.v.InRange(k) && a.v.Accessible(NONE, k)
    ensures a.v.fat[k] == if k == a.f.sclust + n - 1 then LastLink(a.v.kind) else k + 1
  {
    hide FirstSector, SecondSector, FirstRun, Freed, Buildable;
    assert Freed(v, f).0.GetFat(k) == 0;
  }

  lemma RelocatedInSequence(v: Volume, f: FileState, n: nat, a: Allocation)
    requires Relocated(v, f, n, a) && n > 0
    ensures InSequence(a.v, a.f.sclust, n)
  {
    hide Relocated;
    var c := a.f.sclust;
    CutFits(a.v.kind, 0);
    RelocatedValid(v, f, n, a);
    var end := c + n;
    forall i: nat | c <= i < end
      ensures LinksOn(a.v, i, end)
    {
      RelocatedEntry(v, f, n, a, i);
    }
  }

  lemma RelocatedValid(v: Volume, f: FileState, n: nat, a: Allocation)
    requires Relocated(v, f, n, a)
    ensures a.v.Valid() && a.v.InRange(a.f.sclust)
  {
    hide Freed, FirstRun, Buildable;
  }

  /** The cluster chain of a relocated file is exactly c, c + 1, ..., c + n - 1. */
  lemma RelocatedChain(v: Volume, f: FileState, n: nat, a: Allocation, cs: seq<nat>)
    requires Relocated(v, f, n, a) && n > 0
    requires |cs| == n && forall i :: 0 <= i < n ==> cs[i] == a.f.sclust + i
    ensures IsChain(a.v, cs)
  {
    hide Relocated;
    CutFits(a.v.kind, 0);
    RelocatedValid(v, f, n, a);
    forall i | 0 <= i < n
      ensures a.v.InRange(cs[i])
      ensures a.v.fat[cs[i]] == if i == n - 1 then LastLink(a.v.kind) else cs[i] + 1
    {
      RelocatedEntry(v, f, n, a, cs[i]);
    }
    assert a.v.N() <= LastLink(a.v.kind);
  }

  /** After a successful call the file is contiguous in the table, of the wanted size, and starts at the
      returned sector. */
  lemma AllocatedIsContiguous(v: Volume, f: FileState, len: nat)
    requires v.Valid() && Proper(f) && len < DWORD && Allocate(v, f, len).sect != 0
    ensures var a, n := Allocate(v, f, len), ClustersFor(v, len);
            && InSequence(a.v, a.f.sclust, n) && a.f.fsize == n * v.csize * 512
            && len <= a.f.fsize < len + v.csize * 512
            && a.v.InRange(a.f.sclust) && a.sect == v.database + (a.f.sclust - 2) * v.csize
            && a.v.Valid() && (CountRight(v) ==> CountRight(a.v)) && Proper(a.f) && a.f.err == Ok
            && (if AlreadyThere(v, f, n) then a.v == v && a.f == f.(fptr := 0) else Relocated(v, f.(fptr := 0), n, a))
  {
    hide Allocate, ClustersFor, GoesOn, Reallocate, Relocatable, Relocated, InSequence, Contig;
    AllocateExactly(v, f, len);
    AllocateCases(v, f, len);
    var a, n := Allocate(v, f, len), ClustersFor(v, len);
    if AlreadyThere(v, f, n) {
      ContigInSequence(v, f.sclust, n);
    } else {
      ReallocateExactly(v, f.(fptr := 0), n);
      RelocatedInSequence(v, f.(fptr := 0), n, a);
      RelocatedFields(v, f.(fptr := 0), n, a);
      RelocatedShape(v, f.(fptr := 0), n, a);
      RelocatedValid(v, f.(fptr := 0), n, a);
    }
    RoundsUp(v, len);
    assert a.v.Extent(n) == n * (v.csize * 512) == n * v.csize * 512;
  }

  lemma RelocatedFields(v: Volume, f: FileState, n: nat, a: Allocation)
    requires Relocated(v, f, n, a) && v.Valid()
    ensures a.f.fsize == a.v.Extent(n) && a.sect == a.v.Clust2Sect(a.f.sclust)
    ensures a.v.Valid() && (CountRight(v) ==> CountRight(a.v)) && Proper(a.f) && a.f.err == Ok
  {
    hide CountRight;
    RelocatedShape(v, f, n, a);
    RelocatedValid(v, f, n, a);
    ExtentStep(v, n);
  }

  lemma RelocatedShape(v: Volume, f: FileState, n: nat, a: Allocation)
    requires Relocated(v, f, n, a) && v.Valid()
    ensures SameShape(v, a.v)
  {
    hide CountRight, FirstRun, Buildable, IsFreeRun, Freed;
    FreedKeepsValid(v, f);
  }

  /** The entry of the file's first cluster can be read. */
  ghost predicate Revisitable(a: Allocation) {
    a.v.GetFat(a.f.sclust) != DISK_ERROR
  }

  /** After a relocation the whole chain can be read if its first entry can. */
  lemma RelocatedContig(v: Volume, f: FileState, n: nat, a: Allocation)
    requires Relocated(v, f, n, a)
    ensures Contig(a.v, a.f.sclust, n) <==> Revisitable(a)
    ensures Revisitable(a) <==>
      n > 1 || a.v.Second(a.f.sclust) == a.v.First(a.f.sclust) || a.v.Second(a.f.sclust) !in a.v.unwritable
  {
    hide FirstSector, SecondSector, FirstRun, Freed, Chained;
    var w, c := Freed(v, f).0, a.f.sclust;
    RelocatedValid(v, f, n, a);
    RelocatedInSequence(v, f, n, a);
    CutFits(a.v.kind, 0);
    assert a.v.fat[c] < DISK_ERROR;
    RelocatedAccess(v, f, n, a);
    if Revisitable(a) {
      forall i: nat | c <= i < c + n - 1 ensures Next(a.v, i) {
        RelocatedEntry(v, f, n, a, i);
        RelocatedEntry(v, f, n, a, i + 1);
      }
      RelocatedEntry(v, f, n, a, c + n - 1);
    } else if Contig(a.v, c, n) {
      ContigStart(a.v, c, n);
    }
  }

  /** Which entries of the new chain can be read. */
  lemma RelocatedAccess(v: Volume, f: FileState, n: nat, a: Allocation)
    requires Relocated(v, f, n, a)
    ensures var c := a.f.sclust;
      if n > 1 || a.v.Second(c) == a.v.First(c) || a.v.Second(c) !in a.v.unwritable
      then forall i: nat :: c <= i < c + n ==> a.v.Accessible(a.v.held, i)
      else !a.v.Accessible(a.v.held, c)
  {
    hide FirstSector, SecondSector, Relocated, Buildable;
    var c := a.f.sclust;
    var w := Freed(v, f).0;
    RelocatedHeld(v, f, n, a);
    if n > 1 || a.v.Second(c) == a.v.First(c) || a.v.Second(c) !in a.v.unwritable {
      forall i: nat | c <= i < c + n
        ensures a.v.Accessible(a.v.held, i)
      {
        RelocatedEntry(v, f, n, a, i);
        HeldFits(w, c, n, i);
      }
    }
  }

  /** What the window holds after a relocation. */
  lemma RelocatedHeld(v: Volume, f: FileState, n: nat, a: Allocation)
    requires Relocated(v, f, n, a)
    ensures var w, c := Freed(v, f).0, a.f.sclust;
      && a.v.held == w.Hold(w.Second(c)) && Buildable(w, c, n) && n > 0
      && a.v.kind == w.kind && a.v.unwritable == w.unwritable && a.v.unreadable == w.unreadable
      && w.First(c) <= w.Second(c)
  {
    hide FirstSector, SecondSector, FirstRun, Freed, Chained, IsFreeRun;
    SectorsGrow(v.kind, a.f.sclust);
    SectorsGrow(Freed(v, f).0.kind, a.f.sclust);
  }

  lemma HeldFits(w: Volume, c: nat, n: nat, i: nat)
    requires Buildable(w, c, n) && c <= i < c + n
    requires n > 1 || w.Second(c) == w.First(c) || w.Second(c) !in w.unwritable
    ensures w.Hold(w.Second(c)) != NONE ==> w.First(i) == w.Second(i) == w.Hold(w.Second(c))
  {
    hide FirstSector, SecondSector;
    if OneSector(w, c, n) {
      InOneSector(w, c, n, i);
      InOneSector(w, c, n, c);
    } else if AllWritable(w, c, n) {
      assert WritableEntry(w, c);
    }
  }

  /** Calling again with the same length returns the same sector and changes nothing but the file pointer.
      The one exception is a relocated file of a single cluster whose 12-bit entry lies in two sectors, the
      second of which cannot be written. */
  lemma AllocateIsIdempotent(v: Volume, f: FileState, len: nat)
    requires v.Valid() && Proper(f) && len < DWORD && Allocate(v, f, len).sect != 0
    ensures var a, n := Allocate(v, f, len), ClustersFor(v, len);
      Allocate(a.v, a.f, len) == Allocation(a.v, a.f.(fptr := 0), a.sect) <==>
        || AlreadyThere(v, f, n)
        || n > 1
        || v.First(a.f.sclust) == v.Second(a.f.sclust)
        || v.Second(a.f.sclust) !in v.unwritable
  {
    hide Allocate, GoesOn, Reallocate, Relocatable, Relocated, InSequence, Contig;
    AllocatedIsContiguous(v, f, len);
    AllocateExactly(v, f, len);
    var a, n := Allocate(v, f, len), ClustersFor(v, len);
    assert ClustersFor(a.v, len) == n;
    SizeIsExtent(v, n);
    hide Volume.Extent;
    AllocateCases(v, f, len);
    AllocateCases(a.v, a.f, len);
    if AlreadyThere(v, f, n) {
      ContigStart(v, f.sclust, n);
    } else {
      RelocatedContig(v, f.(fptr := 0), n, a);
      RelocatedShape(v, f.(fptr := 0), n, a);
      if !Revisitable(a) {
        NotRevisited(a, n);
      }
    }
  }

  lemma SizeIsExtent(v: Volume, n: nat)
    ensures n * v.csize * 512 == v.Extent(n)
  {
    assert n * (v.csize * 512) == n * v.csize * 512;
  }

  /** If the first entry cannot be read, the check reports a damaged chain. */
  lemma NotRevisited(a: Allocation, n: nat)
    requires !Revisitable(a) && a.f.fsize == a.v.Extent(n)
    ensures !GoesOn(a.v, a.f, n)
  {
  }

  // --- Other files ------------------------------------------------------------------------

  /** The clusters S belong to other files: they are in use, and nothing outside S leads into S. */
  ghost predicate OtherFiles(v: Volume, S: set<nat>) {
    Closed(v, S) && 0 !in S && forall c: nat :: c in S ==> v.InRange(c) && v.fat[c] != 0
  }

  lemma PutFrame(v: Volume, c: nat, val: nat, S: set<nat>)
    requires v.Valid() && OtherFiles(v, S) && c !in S && val !in S && LastLink(v.kind) !in S
    requires val <= LastLink(v.kind) || val == 0x0FFF_FFFF
    ensures var (w, r) := v.PutFat(c, val);
      w.Valid() && SameShape(v, w) && SameOn(v, w, S) && (r == Ok ==> OtherFiles(w, S))
  {
    hide FirstSector, SecondSector, Cut, Torn;
    PutKeepsValid(v, c, val);
    CutFits(v.kind, val);
  }

  lemma LastLinkIsNoFile(v: Volume, S: set<nat>)
    requires v.Valid() && OtherFiles(v, S)
    ensures forall x: nat :: x >= v.N() ==> x !in S
  {
  }

  /** Even a failed attempt to take a cluster leaves the other files alone. */
  lemma TakeFrame(v: Volume, last: nat, c: nat, S: set<nat>)
    requires v.Valid() && OtherFiles(v, S) && v.InRange(c) && v.GetFat(c) == 0
    requires last !in S && (last == 0 || v.InRange(last))
    ensures var (w, r) := Take(v, last, c);
      && w.Valid() && SameOn(v, w, S) && (r == c ==> OtherFiles(w, S))
      && (r == c || r == DISK_ERROR || r == INTERNAL_ERROR)
  {
    hide Volume.PutFat, OtherFiles, Volume.Valid, SameOn;
    LastLinkIsNoFile(v, S);
    LastLinkBeyond(v);
    FreeIsNoFile(v, c, S);
    PutFrame(v, c, 0x0FFF_FFFF, S);
    var (v1, r1) := v.PutFat(c, 0x0FFF_FFFF);
    var w := Take(v, last, c).0;
    if r1 == Ok && last != 0 {
      PutFrame(v1, last, c, S);
      var v2 := v1.PutFat(last, c).0;
      SameHints(v2, w, S);
      SameTwice(v1, v2, w, S);
      SameTwice(v, v1, w, S);
    } else {
      SameHints(v1, w, S);
      SameTwice(v, v1, w, S);
    }
    CutFits(v.kind, 0);
  }

  lemma SameHints(v: Volume, w: Volume, S: set<nat>)
    requires w == v.(lastClust := w.lastClust, freeClust := w.freeClust)
    ensures v.Valid() ==> w.Valid()
    ensures SameOn(v, w, S) && (OtherFiles(v, S) ==> OtherFiles(w, S))
  {
  }

  lemma SameTwice(u: Volume, v: Volume, w: Volume, S: set<nat>)
    requires SameOn(u, v, S)
    ensures SameOn(v, w, S) ==> SameOn(u, w, S)
  {
  }

  lemma LastLinkBeyond(v: Volume)
    requires v.Valid()
    ensures v.N() <= LastLink(v.kind) < 0x1000_0000
  {
  }

  lemma FreeIsNoFile(v: Volume, c: nat, S: set<nat>)
    requires OtherFiles(v, S) && v.InRange(c) && v.GetFat(c) == 0
    ensures c !in S
  {
  }

  lemma CreateChainFrame(v: Volume, last: nat, S: set<nat>)
    requires v.Valid() && OtherFiles(v, S) && last !in S
    ensures var (w, c) := CreateChain(v, last);
      w.Valid() && SameOn(v, w, S) && c !in S && (c != DISK_ERROR && c != INTERNAL_ERROR ==> OtherFiles(w, S))
  {
    hide Take, Volume.Accessible;
    CutFits(v.kind, 0);
    var scl := if last == 0 then Suggested(v) else last;
    if Searches(v, last, scl) && FindFree(v, scl, scl).Found? {
      var c := FindFree(v, scl, scl).c;
      TakeFrame(v, last, c, S);
      FreeIsNoFile(v, c, S);
    }
  }

  /** f_lseek's loop, and f_lseek, never change an entry of another file, even when they abort. */
  lemma {:induction false} FollowFrame(v: Volume, f: FileState, c: nat, ofs: nat, S: set<nat>)
    requires v.Valid() && OtherFiles(v, S) && c !in S
    ensures SameOn(v, Follow(v, f, c, ofs).v, S)
    decreases ofs
  {
    hide CreateChain, OtherFiles, Volume.Accessible;
    var bcs := v.ClusterSize();
    if ofs > bcs {
      CreateChainFrame(v, c, S);
      ReadFrame(v, c, S);
      var (v1, next) := if f.write then CreateChain(v, c) else (v, v.GetFat(c));
      if !(f.write && next == 0) && next != DISK_ERROR && 1 < next < v1.N() {
        FollowFrame(v1, f.(clust := next, fptr := f.fptr + bcs), next, ofs - bcs, S);
      }
    }
  }

  lemma ReadFrame(v: Volume, c: nat, S: set<nat>)
    requires v.Valid() && OtherFiles(v, S) && c !in S
    ensures v.GetFat(c) < v.N() ==> v.GetFat(c) !in S
  {
  }

  lemma StartFrame(v: Volume, f: FileState, goal: nat, S: set<nat>)
    requires v.Valid() && OtherFiles(v, S) && f.sclust !in S && (f.fptr > 0 ==> f.clust !in S)
    requires goal > 0
    ensures SameOn(v, Start(v, f, goal).v, S)
  {
    hide CreateChain, OtherFiles, Follow;
    var bcs := v.ClusterSize();
    if f.fptr > 0 && (goal - 1) / bcs >= (f.fptr - 1) / bcs {
      FloorBelow(f.fptr - 1, goal - 1, bcs);
      var base := Floor(f.fptr - 1, bcs);
      FollowFrame(v, f.(fptr := base), f.clust, goal - base, S);
    } else {
      NoFileIsZero(v, S);
      CreateChainFrame(v, 0, S);
      var (v1, c) := if f.sclust == 0 then CreateChain(v, 0) else (v, f.sclust);
      if c != 0 && (f.sclust != 0 || (c != DISK_ERROR && c != INTERNAL_ERROR)) {
        FollowFrame(v1, f.(fptr := 0, sclust := c, clust := c), c, goal, S);
      }
    }
  }

  lemma NoFileIsZero(v: Volume, S: set<nat>)
    requires OtherFiles(v, S)
    ensures 0 !in S
  {
  }

  lemma SeekFrame(v: Volume, f: FileState, ofs: nat, S: set<nat>)
    requires v.Valid() && OtherFiles(v, S) && f.sclust !in S && (f.fptr > 0 ==> f.clust !in S)
    ensures SameOn(v, Seek(v, f, ofs).v, S)
  {
    hide Start;
    var goal := if ofs > f.fsize && !f.write then f.fsize else ofs;
    if f.err == Ok && goal > 0 {
      StartFrame(v, f, goal, S);
    }
  }

  lemma FreedFrame(v: Volume, f: FileState, S: set<nat>)
    requires v.Valid() && OtherFiles(v, S) && f.sclust !in S
    ensures var (w, res) := Freed(v, f);
      w.Valid() && w.N() == v.N() && SameOn(v, w, S) && (res == Ok ==> OtherFiles(w, S))
  {
    hide FreeFrom, FirstSector, SecondSector;
    if f.fsize > 0 && v.InRange(f.sclust) {
      FreeFromFrame(v, f.sclust, S);
    }
  }

  lemma ReallocateFrame(v: Volume, f: FileState, n: nat, S: set<nat>)
    requires v.Valid() && Rewound(f) && OtherFiles(v, S) && f.sclust !in S
    ensures SameOn(v, Reallocate(v, f, n).v, S)
  {
    hide Seek, Freed, FirstRun, OtherFiles, SameOn;
    if f.write {
      hide Truncated;
      FreedFrame(v, f, S);
      TruncatedIsFreed(v, f);
      var o := Truncated(v, f);
      var c := FirstRun(o.v, 2, if n == 0 then 1 else n);
      if o.res == Ok && c != 0 {
        var w := o.v.(lastClust := c - 1);
        SameHints(o.v, w, S);
        NoFileIsZero(w, S);
        SeekFrame(w, o.f, v.Extent(n), S);
        var x := Seek(w, o.f, v.Extent(n)).v;
        SameTwice(v, o.v, w, S);
        SameTwice(v, w, x, S);
      }
    } else {
      SameHints(v, v, S);
    }
  }

  /** No call, successful or not, changes a table entry of another file, whatever the table and its free
      count hold and whatever the drive refuses. */
  lemma AllocateFrame(v: Volume, f: FileState, len: nat, S: set<nat>)
    requires v.Valid() && Proper(f) && OtherFiles(v, S) && f.sclust !in S
    ensures SameOn(v, Allocate(v, f, len).v, S)
  {
    hide Reallocate, OtherFiles, ClustersFor;
    if f.err == Ok {
      ReallocateFrame(v, f.(fptr := 0), ClustersFor(v, len), S);
    }
  }
}
