/** Building a chain in a free run of clusters by seeking behind the end of an empty file, on a drive
    that may refuse to write some sectors of the table. */
module ChainBuilding {
  import opened Fat
  import opened FatFile
  import opened Contiguous

  // --- Sectors of the table -------------------------------------------------------

  lemma SectorsGrow(t: FatType, c: nat)
    ensures FirstSector(t, c) <= SecondSector(t, c) <= FirstSector(t, c + 1)
  {
    if t == Fat12 {
      assert c + c / 2 + 1 <= c + 1 + (c + 1) / 2;
    }
  }

  lemma {:induction false} SectorsOrdered(t: FatType, c: nat, d: nat)
    requires c < d
    ensures FirstSector(t, c) <= SecondSector(t, c) <= FirstSector(t, d) <= SecondSector(t, d)
    decreases d
  {
    hide FirstSector, SecondSector;
    SectorsGrow(t, d - 1);
    SectorsGrow(t, d);
    if c < d - 1 {
      SectorsOrdered(t, c, d - 1);
    } else {
      SectorsGrow(t, c);
    }
  }

  /** The entry is free and in sectors that can be read. */
  ghost predicate Vacant(v: Volume, c: nat) {
    v.InRange(c) && v.fat[c] == 0 && v.Accessible(NONE, c)
  }

  ghost predicate WritableEntry(v: Volume, c: nat) {
    v.First(c) !in v.unwritable && v.Second(c) !in v.unwritable
  }

  ghost predicate AllWritable(v: Volume, c: nat, n: nat) {
    forall i: nat :: c <= i < c + n ==> WritableEntry(v, i)
  }

  /** The entries of the n clusters from c on lie in one sector. */
  ghost predicate OneSector(v: Volume, c: nat, n: nat) {
    n > 0 && v.First(c) == v.Second(c + n - 1)
  }

  lemma InOneSector(v: Volume, c: nat, n: nat, i: nat)
    requires OneSector(v, c, n) && c <= i < c + n
    ensures v.First(i) == v.Second(i) == v.First(c)
  {
    hide FirstSector, SecondSector;
    SectorsGrow(v.kind, i);
    if i > c { SectorsOrdered(v.kind, c, i); }
    if i < c + n - 1 { SectorsOrdered(v.kind, i, c + n - 1); }
  }

  /** A chain can be built in the n clusters from c on although the drive may not write every sector:
      the entries lie in one sector, which stays in the window, or all their sectors can be written; a
      single entry may end in a sector that cannot. */
  ghost predicate Buildable(v: Volume, c: nat, n: nat) {
    OneSector(v, c, n) || AllWritable(v, c, n) || (n == 1 && v.First(c) !in v.unwritable)
  }

  ghost predicate IsUsableRun(v: Volume, c: nat, n: nat) {
    IsFreeRun(v, c, n) && Buildable(v, c, n)
  }

  // --- Growing a chain by one cluster ---------------------------------------------

  ghost function ChainedAt(v: Volume, c: nat, n: nat, i: nat): nat
    requires i < v.N()
  {
    if c <= i < c + n - 1 then i + 1 else if i == c + n - 1 then LastLink(v.kind) else v.fat[i]
  }

  /** The table with the n clusters from c on linked in sequence, the last one to nothing. */
  ghost function Chained(v: Volume, c: nat, n: nat): seq<nat> {
    seq(v.N(), i requires 0 <= i < v.N() => ChainedAt(v, c, n, i))
  }

  /** c is the last cluster of a chain that is being built: its own sectors have been written, or the
      window holds the last of them. */
  ghost predicate IsTail(v: Volume, c: nat) {
    && v.InRange(c) && v.fat[c] == LastLink(v.kind) && v.Accessible(NONE, c)
    && if v.held == NONE then WritableEntry(v, c) else v.held == v.Second(c)
  }

  /** The chain can grow from its tail c to n clusters. */
  ghost predicate Extends(v: Volume, c: nat, n: nat) {
    n == 1 || (if v.held == NONE then AllWritable(v, c, n) else OneSector(v, c, n) && v.First(c) == v.held)
  }

  ghost function Linked(v: Volume, c: nat): Volume
    requires c + 1 < v.N()
  {
    v.(fat := v.fat[c + 1 := LastLink(v.kind)][c := c + 1], lastClust := c + 1, freeClust := Decrement(v.freeClust))
  }

  lemma NextIsFound(v: Volume, c: nat)
    requires v.InRange(c) && v.InRange(c + 1)
    ensures FindFree(v, c, c).Found? && FindFree(v, c, c).c == c + 1 <==> v.GetFat(c + 1) == 0
    ensures v.GetFat(c + 1) == DISK_ERROR ==> FindFree(v, c, c) == Failed(DISK_ERROR)
  {
  }

  /** Taking the next cluster fails exactly when the two entries do not fit the drive's write faults. */
  lemma LeaksForward(v: Volume, c: nat)
    requires v.Valid() && IsTail(v, c) && Vacant(v, c + 1)
    requires v.held == NONE
    ensures Leaks(v, c, c + 1) <==> !AllWritable(v, c, 2)
  {
    hide FirstSector, SecondSector;
    SectorsOrdered(v.kind, c, c + 1);
    if AllWritable(v, c, 2) {
      assert WritableEntry(v, c + 1);
    } else {
      assert !WritableEntry(v, c + 1);
    }
  }

  lemma HeldForward(v: Volume, c: nat)
    requires v.Valid() && IsTail(v, c) && Vacant(v, c + 1)
    requires v.held != NONE
    ensures v.GetFat(c) != DISK_ERROR && v.GetFat(c + 1) != DISK_ERROR <==> Extends(v, c, 2)
    ensures Extends(v, c, 2) ==> !Leaks(v, c, c + 1)
  {
    hide FirstSector, SecondSector;
    SectorsOrdered(v.kind, c, c + 1);
    CutFits(v.kind, 0);
  }

  lemma TakesForward(v: Volume, c: nat)
    requires v.Valid() && IsTail(v, c) && Vacant(v, c + 1) && Extends(v, c, 2)
    ensures Take(v, c, c + 1) == (Linked(v, c), c + 1)
    ensures Linked(v, c).Valid() && IsTail(Linked(v, c), c + 1)
  {
    hide FirstSector, SecondSector, Cut, Torn;
    SectorsOrdered(v.kind, c, c + 1);
    CutFits(v.kind, 0x0FFF_FFFF);
    CutFits(v.kind, c + 1);
    if v.held == NONE {
      assert WritableEntry(v, c + 1);
    }
  }

  /** A chain whose tail is followed by a vacant cluster grows into that cluster, or reports a disk error. */
  lemma GrowsForward(v: Volume, c: nat)
    requires v.Valid() && IsTail(v, c) && Vacant(v, c + 1)
    ensures Extends(v, c, 2) ==> CreateChain(v, c) == (Linked(v, c), c + 1)
    ensures Extends(v, c, 2) ==> Linked(v, c).Valid() && IsTail(Linked(v, c), c + 1)
    ensures Extends(v, c, 2) && CountRight(v) ==> CountRight(Linked(v, c))
    ensures !Extends(v, c, 2) ==> CreateChain(v, c).1 == DISK_ERROR
  {
    hide FirstSector, SecondSector, Take, FindFree, Leaks;
    NextIsFound(v, c);
    if v.held == NONE {
      LeaksForward(v, c);
    } else {
      HeldForward(v, c);
    }
    if Extends(v, c, 2) {
      TakesForward(v, c);
      if CountRight(v) {
        TakeCount(v, c, c + 1);
      }
    } else if v.GetFat(c) != DISK_ERROR && v.GetFat(c + 1) != DISK_ERROR {
      TakeResult(v, c, c + 1);
    }
  }

  // --- Growing it over the whole run ----------------------------------------------

  lemma ExtentStep(v: Volume, n: nat)
    requires n > 0 && v.csize > 0
    ensures v.Extent(n) == v.ClusterSize() + v.Extent(n - 1)
    ensures n > 1 ==> v.Extent(n - 1) > 0
  {
  }

  lemma StretchStep(v: Volume, f: FileState, c: nat, ofs: nat)
    requires v.Valid() && f.write && IsTail(v, c) && Vacant(v, c + 1)
    requires ofs > v.ClusterSize()
    ensures if Extends(v, c, 2) then
        Follow(v, f, c, ofs)
        == Follow(Linked(v, c), f.(clust := c + 1, fptr := f.fptr + v.ClusterSize()), c + 1, ofs - v.ClusterSize())
      else Follow(v, f, c, ofs).res == DiskErr && Follow(v, f, c, ofs).f == f.(err := DiskErr)
  {
    hide CreateChain, FirstSector, SecondSector, Extends;
    GrowsForward(v, c);
  }

  lemma FollowHere(v: Volume, f: FileState, c: nat)
    requires v.Valid()
    ensures Follow(v, f, c, v.Extent(1)) == Outcome(v, f.(fptr := f.fptr + v.Extent(1)), Ok)
  {
    assert v.Extent(1) == v.ClusterSize();
  }

  lemma ChainedOne(v: Volume, c: nat)
    requires IsTail(v, c)
    ensures Chained(v, c, 1) == v.fat
  {
  }

  lemma ChainedAfterLink(v: Volume, c: nat, n: nat)
    requires n > 1 && c + n <= v.N()
    ensures Chained(Linked(v, c), c + 1, n - 1) == Chained(v, c, n)
  {
  }

  /** The clusters behind c, up to n with c, are vacant. */
  ghost predicate VacantBehind(v: Volume, c: nat, n: nat) {
    forall i: nat :: c < i < c + n ==> Vacant(v, i)
  }

  lemma VacantAfterLink(v: Volume, c: nat, n: nat)
    requires n > 1 && c + n <= v.N() && VacantBehind(v, c, n)
    ensures VacantBehind(Linked(v, c), c + 1, n - 1)
  {
    forall i: nat | c + 1 < i < c + n ensures Vacant(Linked(v, c), i) {
      assert Vacant(v, i);
    }
  }

  lemma ExtendsStep(v: Volume, c: nat, n: nat)
    requires n > 1 && c + 1 < v.N()
    ensures Extends(v, c, n) <==> Extends(v, c, 2) && Extends(Linked(v, c), c + 1, n - 1)
  {
    hide FirstSector, SecondSector;
    var w := Linked(v, c);
    if v.held == NONE {
      if AllWritable(v, c, n) {
        forall i: nat | c + 1 <= i < c + n ensures WritableEntry(w, i) {
          assert WritableEntry(v, i);
        }
        assert WritableEntry(v, c) && WritableEntry(v, c + 1);
      }
      if AllWritable(v, c, 2) && Extends(w, c + 1, n - 1) {
        forall i: nat | c <= i < c + n ensures WritableEntry(v, i) {
          assert i <= c + 1 ==> WritableEntry(v, i);
          assert i > c + 1 ==> WritableEntry(w, i);
        }
      }
    } else {
      SectorsOrdered(v.kind, c, c + 1);
      if n > 2 {
        SectorsOrdered(v.kind, c + 1, c + n - 1);
      }
    }
  }

  /** Seeking n clusters ahead stretches a one-cluster chain at c over the vacant run behind it. */
  lemma {:induction false} StretchRun(v: Volume, f: FileState, c: nat, n: nat)
    requires v.Valid() && f.write && IsTail(v, c) && n > 0 && c + n <= v.N() && VacantBehind(v, c, n)
    ensures var o := Follow(v, f, c, v.Extent(n));
      if Extends(v, c, n) then
        && o.res == Ok
        && o.v == v.(fat := Chained(v, c, n), lastClust := o.v.lastClust, freeClust := o.v.freeClust)
        && o.v.lastClust == (if n > 1 then c + n - 1 else v.lastClust)
        && o.f == f.(clust := o.f.clust, fptr := f.fptr + v.Extent(n))
        && o.v.Valid() && (CountRight(v) ==> CountRight(o.v))
      else o.res == DiskErr && o.f == f.(clust := o.f.clust, fptr := o.f.fptr, err := DiskErr)
    decreases n
  {
    hide Follow, IsTail, Extends, CreateChain, Chained;
    if n == 1 {
      ChainedOne(v, c);
      FollowHere(v, f, c);
      ExtendsOne(v, c);
    } else {
      ExtentStep(v, n);
      assert Vacant(v, c + 1);
      GrowsForward(v, c);
      StretchStep(v, f, c, v.Extent(n));
      ExtendsStep(v, c, n);
      if Extends(v, c, 2) {
        VacantAfterLink(v, c, n);
        ChainedAfterLink(v, c, n);
        StretchRun(Linked(v, c), f.(clust := c + 1, fptr := f.fptr + v.ClusterSize()), c + 1, n - 1);
      }
    }
  }

  lemma ExtendsOne(v: Volume, c: nat)
    ensures Extends(v, c, 1)
  {
  }

  // --- From an empty file -----------------------------------------------------------

  /** An open, writable file without clusters, positioned at its start. */
  ghost predicate IsEmpty(f: FileState) {
    f.err == Ok && f.write && f.sclust == 0 && f.fsize == 0 && f.fptr == 0
  }

  ghost function FirstTaken(v: Volume, c: nat): Volume
    requires c < v.N()
  {
    v.(fat := v.fat[c := LastLink(v.kind)], held := v.Hold(v.Second(c)), lastClust := c,
       freeClust := Decrement(v.freeClust))
  }

  /** last_clust = c - 1 makes the next new chain start at c. */
  lemma StartsAt(v: Volume, c: nat)
    requires v.Valid() && v.InRange(c) && v.GetFat(c) == 0 && v.lastClust == c - 1
    ensures if v.Tears(c) then CreateChain(v, 0).1 == DISK_ERROR
            else CreateChain(v, 0) == (FirstTaken(v, c), c)
    ensures !v.Tears(c) ==> FirstTaken(v, c).Valid() && IsTail(FirstTaken(v, c), c)
    ensures !v.Tears(c) && CountRight(v) ==> CountRight(FirstTaken(v, c))
  {
    hide FirstSector, SecondSector, Cut, Torn;
    CutFits(v.kind, 0x0FFF_FFFF);
    assert Suggested(v) == c - 1;
    assert FindFree(v, c - 1, c - 1) == Found(c);
    PutAfterGet(v, c, 0x0FFF_FFFF);
    TakeResult(v, 0, c);
    if CountRight(v) {
      TakeCount(v, 0, c);
    }
  }

  /** Buildable is what the first two steps together need. */
  lemma BuildableSplit(v: Volume, c: nat, n: nat)
    requires v.Valid() && v.InRange(c) && v.Accessible(v.held, c) && n > 0 && c + n <= v.N()
    ensures Buildable(v, c, n) <==> !v.Tears(c) && Extends(FirstTaken(v, c), c, n)
  {
    hide FirstSector, SecondSector;
    SectorsGrow(v.kind, c);
    if n > 1 {
      var w := FirstTaken(v, c);
      SectorsOrdered(v.kind, c, c + n - 1);
      if OneSector(v, c, n) {
        forall i: nat | c <= i < c + n ensures v.First(i) == v.Second(i) == v.First(c) {
          InOneSector(v, c, n, i);
        }
      }
      if AllWritable(v, c, n) {
        assert WritableEntry(v, c);
        assert forall i: nat :: WritableEntry(v, i) ==> WritableEntry(w, i);
      }
      if !v.Tears(c) && w.held == NONE && AllWritable(w, c, n) {
        assert forall i: nat :: WritableEntry(w, i) ==> WritableEntry(v, i);
      }
    } else {
      assert AllWritable(v, c, 1) ==> WritableEntry(v, c);
    }
  }

  lemma FreeIsVacant(v: Volume, c: nat, n: nat)
    requires v.Valid() && IsFreeRun(v, c, n) && n > 0
    ensures v.GetFat(c) == 0 && VacantBehind(FirstTaken(v, c), c, n)
  {
    forall i: nat | c < i < c + n ensures Vacant(FirstTaken(v, c), i) {
      assert v.GetFat(i) == 0;
    }
  }

  /** The volume after a chain has been built in the n clusters from c on. */
  ghost predicate Built(v: Volume, w: Volume, c: nat, n: nat) {
    && n > 0
    && w == v.(fat := Chained(v, c, n), held := v.Hold(v.Second(c)), lastClust := c + n - 1, freeClust := w.freeClust)
    && w.Valid() && (CountRight(v) ==> CountRight(w))
  }

  lemma ChainedFromFirst(v: Volume, c: nat, n: nat)
    requires c < v.N() && n > 0
    ensures Chained(FirstTaken(v, c), c, n) == Chained(v, c, n)
  {
  }

  /** Seeking to n clusters in an empty file builds the chain in the run that last_clust points at,
      exactly when that is possible with the sectors that the drive can write. */
  lemma BuildRun(v: Volume, f: FileState, c: nat, n: nat)
    requires v.Valid() && IsEmpty(f) && n > 0 && IsFreeRun(v, c, n) && v.lastClust == c - 1
    ensures var o := Seek(v, f, v.Extent(n));
      if Buildable(v, c, n) then
        && o.res == Ok && Built(v, o.v, c, n)
        && o.f.sclust == c && o.f.fsize == o.f.fptr == v.Extent(n) && o.f.write && o.f.err == Ok
      else o.res == DiskErr && o.f.fsize == 0 && o.f.err == DiskErr
  {
    hide Follow, Chained, Extends, Buildable, FindFree, IsTail, CreateChain;
    ExtentStep(v, n);
    FreeIsVacant(v, c, n);
    StartsAt(v, c);
    BuildableSplit(v, c, n);
    if !v.Tears(c) {
      StretchRun(FirstTaken(v, c), f.(sclust := c, clust := c), c, n);
      ChainedFromFirst(v, c, n);
    }
  }
}
