/** Allocation of a contiguous area to a file. */
module Contiguous {
  import opened Fat
  import opened FatFile

  // --- What the allocator computes ----------------------------------------------

  /** The number of clusters for len bytes, in DWORD arithmetic. */
  function ClustersFor(v: Volume, len: nat): nat
    requires v.csize > 0
  {
    Quotient((len + v.ClusterSize() - 1) % DWORD, v.ClusterSize())
  }

  function Quotient(a: nat, b: nat): nat
    requires b > 0
  {
    a / b
  }

  datatype CheckResult = HardError | Scattered | Contiguous

  /** The check loop, at cluster c with n clusters to go. */
  function Check(v: Volume, c: nat, n: nat): CheckResult
    decreases n
  {
    var cl := v.GetFat(c);
    if (cl + 1) % DWORD < 3 then HardError
    else if cl != c + 1 && cl < v.N() then if n == 0 then Contiguous else Scattered
    else if n > 1 then Check(v, cl, n - 1)
    else if n == 1 then Contiguous else Scattered
  }

  /** n clusters from c on are free. */
  ghost predicate IsFreeRun(v: Volume, c: nat, n: nat) {
    2 <= c && c + n <= v.N() && forall i :: c <= i < c + n ==> v.GetFat(i) == 0
  }

  /** The lowest cluster from c on where n free clusters start, 0 if there is none. */
  ghost function FirstRun(v: Volume, c: nat, n: nat): nat
    decreases v.N() - c
  {
    if c + n > v.N() || c >= v.N() then 0
    else if IsFreeRun(v, c, n) then c
    else FirstRun(v, c + 1, n)
  }

  datatype Allocation = Allocation(v: Volume, f: FileState, sect: nat)

  ghost function Reallocate(v: Volume, f: FileState, tcl: nat): (a: Allocation)
    requires v.N() >= 2 && v.csize > 0
    ensures SameShape(v, a.v)
  {
    var o := Truncated(v, f);
    if o.res != Ok then Allocation(o.v, o.f, 0) else
    var ccl := FirstRun(o.v, 2, if tcl == 0 then 1 else tcl);
    if ccl == 0 then Allocation(o.v, o.f, 0) else
    var p := Seek(o.v.(lastClust := ccl - 1), o.f, v.Extent(tcl));
    Allocation(p.v, p.f, if p.res != Ok then 0 else p.v.Clust2Sect(p.f.sclust))
  }

  /** allocate_contiguous_clusters: sect is the first sector, 0 for failure. */
  ghost function Allocate(v: Volume, f: FileState, len: nat): (a: Allocation)
    requires v.N() >= 2 && v.csize > 0
    ensures SameShape(v, a.v)
  {
    if f.err != Ok then Allocation(v, f, 0) else
    var f0 := f.(fptr := 0);
    if len == 0 then Allocation(v, f0, 0) else
    var tcl := ClustersFor(v, len);
    if v.Extent(tcl) != f.fsize then Reallocate(v, f0, tcl) else
    match Check(v, f.sclust, tcl)
    case HardError => Allocation(v, f0, 0)
    case Contiguous => Allocation(v, f0, v.Clust2Sect(f.sclust))
    case Scattered => Reallocate(v, f0, tcl)
  }

  // --- The code -----------------------------------------------------------------

  lemma RunUnfold(v: Volume, c: nat, d: nat, n: nat)
    requires c <= d && n > 0
    requires forall e :: c <= e < d ==> !IsFreeRun(v, e, n)
    ensures FirstRun(v, c, n) == FirstRun(v, d, n)
    decreases d - c
  {
    if c < d {
      if c + n <= v.N() {
        RunUnfold(v, c + 1, d, n);
      } else {
        NoRoom(v, d, n);
      }
    }
  }

  lemma NoRoom(v: Volume, d: nat, n: nat)
    requires d + n > v.N()
    ensures FirstRun(v, d, n) == 0
  {
  }

  /** The search for a free area: cl scans the table, ccl is where the current free run starts. */
  method FindRun(fs: FileSystem, tcl: nat) returns (ccl: nat)
    ensures ccl == FirstRun(fs.V(), 2, if tcl == 0 then 1 else tcl)
  {
    hide FirstSector, SecondSector, Volume.Accessible, FirstRun;
    var cl, ncl := 2, 0;
    ccl := 2;
    ghost var v, need := fs.V(), if tcl == 0 then 1 else tcl;
    while true
      invariant 2 <= ccl && cl == ccl + ncl && ncl < need && fs.V() == v
      invariant forall i :: ccl <= i < cl ==> v.GetFat(i) == 0
      invariant forall e :: 2 <= e < ccl ==> !IsFreeRun(v, e, need)
      decreases v.N() - cl
    {
      if cl >= fs.fat.Length {
        RunUnfold(v, 2, ccl, need);
        NoRoom(v, ccl, need);
        return 0;
      }
      var status := fs.GetFat(cl);
      if status != 0 {
        ghost var used := cl;
        while true
          invariant used <= cl < fs.fat.Length && fs.V() == v
          invariant forall i :: used <= i <= cl ==> v.GetFat(i) != 0
          decreases v.N() - cl
        {
          cl := cl + 1;
          if cl >= fs.fat.Length {
            SkipUsed(v, ccl, used, cl, need);
            RunUnfold(v, 2, cl, need);
            NoRoom(v, cl, need);
            return 0;
          }
          status := fs.GetFat(cl);
          if status == 0 { break; }
        }
        SkipUsed(v, ccl, used, cl, need);
        ccl, ncl := cl, 0;
      }
      cl := cl + 1;
      ncl := ncl + 1;
      if ncl >= tcl { break; }
    }
    assert IsFreeRun(v, ccl, need);
    RunUnfold(v, 2, ccl, need);
    RunHere(v, ccl, need);
  }

  lemma RunHere(v: Volume, c: nat, n: nat)
    requires n > 0 && IsFreeRun(v, c, n)
    ensures FirstRun(v, c, n) == c
  {
  }

  /** No run of n clusters starts in [from, to) when [used, to) is in use and used is less than n clusters away. */
  lemma SkipUsed(v: Volume, from: nat, used: nat, to: nat, n: nat)
    requires from <= used < to && used - from < n
    requires forall i :: used <= i < to ==> v.GetFat(i) != 0
    ensures forall e :: from <= e < to ==> !IsFreeRun(v, e, n)
  {
    forall e | from <= e < to ensures !IsFreeRun(v, e, n) {
      var i := if e < used then used else e;
      assert v.GetFat(i) != 0;
    }
  }

  /** The check loop of allocate_contiguous_clusters. */
  method CheckChain(fs: FileSystem, sclust: nat, tcl: nat) returns (r: CheckResult)
    ensures r == Check(fs.V(), sclust, tcl)
  {
    hide Volume.Accessible;
    var ncl: nat, ccl: nat := 0, sclust;
    while true
      invariant ncl == 0 || ncl < tcl
      invariant Check(fs.V(), sclust, tcl) == Check(fs.V(), ccl, tcl - ncl)
      decreases tcl - ncl
    {
      var cl := fs.GetFat(ccl);
      if (cl + 1) % DWORD < 3 { return HardError; }
      if cl != ccl + 1 && cl < fs.fat.Length { break; }
      ccl := cl;
      ncl := ncl + 1;
      if ncl >= tcl { break; }
    }
    return if ncl == tcl then Contiguous else Scattered;
  }

  /** The second half of allocate_contiguous_clusters: frees the chain and builds a contiguous one. */
  method Rebuild(fp: File, tcl: nat) returns (sect: nat)
    requires fp.fs.fat.Length >= 2 && fp.fs.csize > 0
    modifies fp, fp.fs, fp.fs.fat
    ensures Allocation(fp.fs.V(), fp.F(), sect) == Reallocate(old(fp.fs.V()), old(fp.F()), tcl)
    ensures sect != 0 ==> 2 <= fp.sclust < fp.fs.fat.Length
                          && sect == fp.fs.database + (fp.sclust - 2) * fp.fs.csize
  {
    hide Seek, Truncated, FirstRun, Volume.GetFat;
    var res := fp.Truncate();
    if res != Ok { return 0; }
    var ccl := FindRun(fp.fs, tcl);
    if ccl == 0 { return 0; }
    fp.fs.lastClust := ccl - 1;
    res := fp.Lseek(tcl * (fp.fs.csize * SECTOR_SIZE));
    if res != Ok { return 0; }
    return fp.fs.Clust2Sect(fp.sclust);
  }

  lemma SeekToStart(v: Volume, f: FileState)
    requires v.N() >= 2 && v.csize > 0
    ensures Seek(v, f, 0) == if f.err != Ok then Outcome(v, f, f.err) else Outcome(v, f.(fptr := 0), Ok)
  {
  }

  method AllocateContiguousClusters(fp: File, len0: nat) returns (sect: nat)
    requires fp.fs.fat.Length >= 2 && fp.fs.csize > 0
    modifies fp, fp.fs, fp.fs.fat
    ensures Allocation(fp.fs.V(), fp.F(), sect) == Allocate(old(fp.fs.V()), old(fp.F()), len0)
    ensures old(fp.err) != Ok ==> sect == 0 && fp.F() == old(fp.F()) && fp.fs.V() == old(fp.fs.V())
    ensures old(fp.err) == Ok && len0 == 0 ==>
      sect == 0 && fp.F() == old(fp.F()).(fptr := 0) && fp.fs.V() == old(fp.fs.V())
    ensures sect != 0 ==> 2 <= fp.sclust < fp.fs.fat.Length
                          && sect == fp.fs.database + (fp.sclust - 2) * fp.fs.csize
  {
    hide Seek, Reallocate, Check, Quotient;
    SeekToStart(fp.fs.V(), fp.F());
    var res := fp.Lseek(0);
    if res != Ok || len0 == 0 { return 0; }
    var csz := fp.fs.csize * SECTOR_SIZE;
    var tcl := Quotient((len0 + csz - 1) % DWORD, csz);
    if tcl * csz == fp.fsize {
      var check := CheckChain(fp.fs, fp.sclust, tcl);
      if check == HardError { return 0; }
      if check == Contiguous { return fp.fs.Clust2Sect(fp.sclust); }
    }
    sect := Rebuild(fp, tcl);
  }

  // --- What a successful call guarantees -------------------------------------------

  /** Cluster c links to its successor on the disk. */
  ghost predicate Next(v: Volume, c: nat) {
    v.InRange(c + 1) && v.GetFat(c) == c + 1
  }

  /** The chain may end with cluster c: it links to its successor or to nothing. */
  ghost predicate Last(v: Volume, c: nat) {
    v.InRange(c) && (v.GetFat(c) == c + 1 || v.N() <= v.GetFat(c) < DISK_ERROR)
  }

  /** The n clusters from s on are linked in sequence. */
  ghost predicate Contig(v: Volume, s: nat, n: nat) {
    n > 0 && (forall i: nat :: s <= i < s + n - 1 ==> Next(v, i)) && Last(v, s + n - 1)
  }

  lemma ContigStep(v: Volume, s: nat, n: nat)
    requires n > 1
    ensures Contig(v, s, n) <==> Next(v, s) && Contig(v, s + 1, n - 1)
  {
  }

  lemma ContigStart(v: Volume, s: nat, n: nat)
    requires Contig(v, s, n)
    ensures v.InRange(s) && Last(v, s)
  {
    if n > 1 {
      assert Next(v, s);
    }
  }

  lemma ContigOne(v: Volume, s: nat)
    ensures Contig(v, s, 1) <==> Last(v, s)
  {
  }

  /** The entry of cluster c, reached from s in sequence, stops the check: it is free, out of range or
      unreadable, or the chain ends there although clusters up to `end` are missing. */
  ghost predicate BreaksOff(v: Volume, s: nat, end: nat, c: nat) {
    && s <= c < end
    && (forall i: nat :: s <= i < c ==> v.GetFat(i) == i + 1)
    && (v.GetFat(c) in {0, 1, DISK_ERROR} || (c + 1 < end && v.GetFat(c) >= v.N()))
  }

  /** Some entry from s on stops the check. */
  ghost predicate Breaks(v: Volume, s: nat, end: nat) {
    exists c: nat :: BreaksOff(v, s, end, c)
  }

  lemma BreaksLater(v: Volume, s: nat, end: nat)
    requires 1 < v.GetFat(s) == s + 1 < v.N() && s + 1 < end && s + 1 != DISK_ERROR
    ensures Breaks(v, s, end) <==> Breaks(v, s + 1, end)
  {
    if Breaks(v, s, end) {
      var c: nat :| BreaksOff(v, s, end, c);
      assert BreaksOff(v, s + 1, end, c);
    }
    if Breaks(v, s + 1, end) {
      var c: nat :| BreaksOff(v, s + 1, end, c);
      assert BreaksOff(v, s, end, c);
    }
  }

  lemma BreaksHere(v: Volume, s: nat, n: nat)
    requires n > 0 && (v.GetFat(s) in {0, 1, DISK_ERROR} || (n > 1 && v.GetFat(s) >= v.N()))
    ensures Breaks(v, s, s + n) && Check(v, s, n) == HardError
  {
    assert BreaksOff(v, s, s + n, s);
    if n > 1 && v.GetFat(s) >= v.N() {
      assert v.GetFat(v.GetFat(s)) == INTERNAL_ERROR;
    }
  }

  lemma BreaksNowhere(v: Volume, s: nat, n: nat)
    requires n > 0 && v.GetFat(s) !in {0, 1, DISK_ERROR} && v.GetFat(s) <= LastLink(v.kind)
    requires n > 1 ==> v.GetFat(s) < v.N() && v.GetFat(s) != s + 1
    ensures !Breaks(v, s, s + n) && Check(v, s, n) != HardError
  {
  }

  /** The check reports a damaged chain exactly when it breaks off; a chain that only goes on elsewhere is
      up for reallocation. */
  lemma {:induction false} CheckIsHardError(v: Volume, s: nat, n: nat)
    requires v.EntriesFit() && v.N() <= LastLink(v.kind) && n > 0
    ensures Check(v, s, n) == HardError <==> Breaks(v, s, s + n)
    decreases n
  {
    hide Volume.GetFat, Breaks;
    GetFatFits(v, s);
    CutFits(v.kind, 0);
    var cl := v.GetFat(s);
    if cl in {0, 1, DISK_ERROR} || (n > 1 && cl >= v.N()) {
      BreaksHere(v, s, n);
    } else if n > 1 && cl == s + 1 {
      CheckIsHardError(v, s + 1, n - 1);
      assert s + 1 + (n - 1) == s + n;
      BreaksLater(v, s, s + n);
    } else {
      BreaksNowhere(v, s, n);
    }
  }

  lemma GetFatFits(v: Volume, c: nat)
    requires v.EntriesFit()
    ensures v.GetFat(c) <= LastLink(v.kind) || v.GetFat(c) == DISK_ERROR
  {
  }

  /** The check loop accepts exactly the files whose first n clusters are in sequence. A chain that
      ends early is caught one step later, because get_fat returns 1 outside the table. */
  lemma {:induction false} CheckIsContig(v: Volume, s: nat, n: nat)
    requires v.EntriesFit() && v.N() <= LastLink(v.kind) && n > 0
    ensures Check(v, s, n) == Contiguous <==> Contig(v, s, n)
    decreases n
  {
    hide Volume.Accessible, Contig;
    ContigOne(v, s);
    if Contig(v, s, n) {
      ContigStart(v, s, n);
    }
    if n > 1 {
      var cl := v.GetFat(s);
      ContigStep(v, s, n);
      if cl == s + 1 {
        CheckIsContig(v, s + 1, n - 1);
        if Contig(v, s + 1, n - 1) {
          ContigStart(v, s + 1, n - 1);
        }
      } else if cl >= v.N() {
        assert v.GetFat(cl) == INTERNAL_ERROR;
      }
    }
  }
}
