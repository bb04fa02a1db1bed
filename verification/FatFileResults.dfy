/** What f_lseek and f_truncate mean for the chain of a file. */
module FatFileResults {
  import opened Fat
  import opened FatFile
  import opened Contiguous

  /** The number of the cluster that holds byte x - 1, and so the current one at offset x. */
  function ClusterNo(v: Volume, x: nat): nat
    requires v.csize > 0 && x > 0
  {
    Quotient(x - 1, v.ClusterSize())
  }

  /** f.clust is the cluster of the file pointer in the chain cs, as f_lseek leaves it. */
  ghost predicate AtCluster(v: Volume, f: FileState, cs: seq<nat>)
    requires v.csize > 0
  {
    f.fptr > 0 ==> ClusterNo(v, f.fptr) < |cs| && f.clust == cs[ClusterNo(v, f.fptr)]
  }

  lemma UniqueQuotient(p: nat, s: nat, q: nat, r: nat, b: nat)
    requires p * b + s == q * b + r && s < b && r < b
    ensures p == q
  {
    if p < q {
      MultiplesApart(p, q, b);
    } else if q < p {
      MultiplesApart(q, p, b);
    }
  }

  lemma QuotientIs(x: nat, b: nat, q: nat, r: nat)
    requires r < b && x == q * b + r
    ensures Quotient(x, b) == q
  {
    var p, s := x / b, x % b;
    assert x == p * b + s;
    UniqueQuotient(p, s, q, r, b);
  }

  lemma QuotientSteps(x: nat, b: nat)
    requires b > 0
    ensures x < b ==> Quotient(x, b) == 0
    ensures x >= b ==> Quotient(x, b) == 1 + Quotient(x - b, b)
  {
    hide Quotient;
    if x < b {
      QuotientIs(x, b, 0, x);
    } else {
      var q, r := (x - b) / b, (x - b) % b;
      assert x - b == q * b + r;
      QuotientIs(x - b, b, q, r);
      QuotientIs(x, b, q + 1, r);
    }
  }

  lemma {:induction false} QuotientShift(x: nat, q: nat, b: nat)
    requires b > 0
    ensures x + q * b >= 0 && Quotient(x + q * b, b) == q + Quotient(x, b)
  {
    if q > 0 {
      var y := x + (q - 1) * b;
      assert x + q * b == y + b;
      QuotientShift(x, q - 1, b);
      QuotientSteps(y + b, b);
    }
  }

  /** The entries of cs[from..to] can be read. */
  ghost predicate Readable(v: Volume, cs: seq<nat>, from: nat, to: nat)
    requires to <= |cs|
  {
    forall i :: from <= i < to ==> v.Accessible(v.held, cs[i])
  }

  lemma ReadableStep(v: Volume, cs: seq<nat>, from: nat, to: nat)
    requires from < to <= |cs|
    ensures Readable(v, cs, from, to) <==> v.Accessible(v.held, cs[from]) && Readable(v, cs, from + 1, to)
  {
  }

  /** Following a chain for ofs bytes reaches the cluster of that offset exactly when the links on the way
      can be read, whether or not the file may be stretched; in any case the volume stays as it is. */
  lemma {:induction false} FollowReaches(v: Volume, f: FileState, cs: seq<nat>, k: nat, ofs: nat)
    requires v.Valid() && IsChain(v, cs) && k < |cs| && f.clust == cs[k]
    requires ofs > 0 && k + ClusterNo(v, ofs) < |cs|
    ensures var o, m := Follow(v, f, cs[k], ofs), k + ClusterNo(v, ofs);
      if Readable(v, cs, k, m) then o == Outcome(v, f.(clust := cs[m], fptr := f.fptr + ofs), Ok)
      else o == Outcome(v, f.(clust := o.f.clust, fptr := o.f.fptr, err := DiskErr), DiskErr)
    decreases ofs
  {
    hide FirstSector, SecondSector, Volume.Accessible, Readable;
    CutFits(v.kind, 0);
    var b := v.ClusterSize();
    QuotientSteps(ofs - 1, b);
    if ofs > b {
      assert v.fat[cs[k]] == cs[k + 1] && v.InRange(cs[k + 1]);
      ReadableStep(v, cs, k, k + ClusterNo(v, ofs));
      if v.Accessible(v.held, cs[k]) {
        FollowReaches(v, f.(clust := cs[k + 1], fptr := f.fptr + b), cs, k + 1, ofs - b);
      }
    } else {
      ReadNothing(v, cs, k);
    }
  }

  lemma ReadNothing(v: Volume, cs: seq<nat>, k: nat)
    requires k <= |cs|
    ensures Readable(v, cs, k, k)
  {
  }

  /** The cluster of the chain from which f_lseek starts to walk. */
  function WalksFrom(v: Volume, f: FileState, ofs: nat): nat
    requires v.csize > 0 && ofs > 0
  {
    if f.fptr > 0 && (ofs - 1) / v.ClusterSize() >= (f.fptr - 1) / v.ClusterSize() then ClusterNo(v, f.fptr) else 0
  }

  /** The offset that f_lseek goes to; without write access it stops at the end of the file. */
  function Goal(f: FileState, ofs: nat): nat {
    if ofs > f.fsize && !f.write then f.fsize else ofs
  }

  /** Cluster numbers count on from the start of the current cluster. */
  lemma FromCurrent(v: Volume, fptr: nat, goal: nat)
    requires v.csize > 0 && fptr > 0 && goal > 0 && (goal - 1) / v.ClusterSize() >= (fptr - 1) / v.ClusterSize()
    ensures var base := Floor(fptr - 1, v.ClusterSize());
      base < goal && ClusterNo(v, fptr) + ClusterNo(v, goal - base) == ClusterNo(v, goal)
  {
    var b := v.ClusterSize();
    FloorBelow(fptr - 1, goal - 1, b);
    var q, base := ClusterNo(v, fptr), Floor(fptr - 1, b);
    assert base == q * b;
    QuotientShift(goal - 1 - base, q, b);
  }

  /** f_lseek to an offset within the chain finds the cluster of that offset, from the start or from the
      current cluster, exactly when the links on the way can be read; in any case the volume stays as it is. */
  lemma SeekFindsCluster(v: Volume, f: FileState, cs: seq<nat>, ofs: nat)
    requires v.Valid() && IsChain(v, cs) && f.sclust == cs[0] && f.err == Ok && AtCluster(v, f, cs)
    requires 0 < Goal(f, ofs) && ClusterNo(v, Goal(f, ofs)) < |cs|
    ensures var o, goal := Seek(v, f, ofs), Goal(f, ofs);
      && o.v == v
      && if Readable(v, cs, WalksFrom(v, f, goal), ClusterNo(v, goal)) then
           && o.res == Ok && AtCluster(v, o.f, cs)
           && o.f == f.(fptr := goal, clust := o.f.clust, fsize := if goal > f.fsize then goal else f.fsize)
         else o.res == DiskErr && o.f == f.(fptr := o.f.fptr, clust := o.f.clust, err := DiskErr)
  {
    hide Follow, Volume.Accessible, Readable, CreateChain, FirstSector, SecondSector, ClusterNo, Floor;
    var b, goal := v.ClusterSize(), Goal(f, ofs);
    assert v.InRange(cs[0]);
    if f.fptr > 0 && (goal - 1) / b >= (f.fptr - 1) / b {
      var q, base := ClusterNo(v, f.fptr), Floor(f.fptr - 1, b);
      FromCurrent(v, f.fptr, goal);
      FollowReaches(v, f.(fptr := base), cs, q, goal - base);
    } else {
      FollowReaches(v, f.(fptr := 0, clust := cs[0]), cs, 0, goal);
    }
  }

  /** No cluster is free, and all entries can be read. */
  ghost predicate NoneFree(v: Volume) {
    forall c: nat :: v.InRange(c) ==> v.Accessible(v.held, c) && v.fat[c] >= 2
  }

  lemma FullSearch(v: Volume, last: nat)
    requires v.Valid() && NoneFree(v) && v.InRange(last) && v.fat[last] >= v.N()
    ensures CreateChain(v, last) == (v, 0)
  {
    hide Volume.Accessible, Take;
    CutFits(v.kind, 0);
    assert forall c: nat :: v.InRange(c) ==> 2 <= v.GetFat(c) < DISK_ERROR;
    FindFreeIsFirst(v, last, last);
  }

  lemma ExtentSum(v: Volume, m: nat, n: nat)
    ensures v.Extent(m + n) == v.Extent(m) + v.Extent(n)
  {
  }

  lemma OneExtent(v: Volume)
    ensures v.Extent(1) == v.ClusterSize()
  {
  }

  /** Stretching a chain on a full volume ends behind its last cluster. */
  lemma {:induction false} FollowToEnd(v: Volume, f: FileState, cs: seq<nat>, k: nat, ofs: nat)
    requires v.Valid() && IsChain(v, cs) && NoneFree(v) && f.write && k < |cs| && f.clust == cs[k]
    requires ofs > 0 && k + ClusterNo(v, ofs) >= |cs|
    ensures Follow(v, f, cs[k], ofs)
         == Outcome(v, f.(clust := cs[|cs| - 1], fptr := f.fptr + v.Extent(|cs| - k)), Ok)
    decreases ofs
  {
    hide FirstSector, SecondSector, FindFree, Take, Volume.Extent;
    CutFits(v.kind, 0);
    var b := v.ClusterSize();
    OneExtent(v);
    QuotientSteps(ofs - 1, b);
    if k + 1 < |cs| {
      assert v.fat[cs[k]] == cs[k + 1] && v.InRange(cs[k + 1]);
      ExtentSum(v, 1, |cs| - k - 1);
      FollowToEnd(v, f.(clust := cs[k + 1], fptr := f.fptr + b), cs, k + 1, ofs - b);
    } else {
      FullSearch(v, cs[k]);
    }
  }

  /** f_lseek in an empty file asks create_chain for the first cluster: without one it stays empty, and its
      error statuses become errors of the file. */
  lemma SeekInEmptyFile(v: Volume, f: FileState, ofs: nat)
    requires v.Valid() && f.write && f.err == Ok && f.sclust == 0 && f.fsize == 0 && f.fptr == 0 && ofs > 0
    ensures var (w, c) := CreateChain(v, 0);
      && (c == 0 ==> Seek(v, f, ofs) == Outcome(w, f.(clust := 0), Ok))
      && (c == 1 ==> Seek(v, f, ofs) == Outcome(w, f.(err := IntErr), IntErr))
      && (c == DISK_ERROR ==> Seek(v, f, ofs) == Outcome(w, f.(err := DiskErr), DiskErr))
      && (2 <= c != DISK_ERROR && ofs <= v.csize * 512 ==>
            Seek(v, f, ofs) == Outcome(w, f.(sclust := c, clust := c, fptr := ofs, fsize := ofs), Ok))
  {
    hide CreateChain;
  }

  /** Without write access, a chain that is too short for the offset is an internal error. */
  lemma {:induction false} FollowTooShort(v: Volume, f: FileState, cs: seq<nat>, k: nat, ofs: nat)
    requires v.Valid() && IsChain(v, cs) && Readable(v, cs, k, |cs|) && !f.write && k < |cs| && f.clust == cs[k]
    requires ofs > 0 && k + ClusterNo(v, ofs) >= |cs|
    ensures var o := Follow(v, f, cs[k], ofs);
      o == Outcome(v, f.(clust := cs[|cs| - 1], fptr := o.f.fptr, err := IntErr), IntErr)
    decreases ofs
  {
    hide FirstSector, SecondSector, Volume.Accessible;
    CutFits(v.kind, 0);
    var b := v.ClusterSize();
    QuotientSteps(ofs - 1, b);
    if k + 1 < |cs| {
      assert v.fat[cs[k]] == cs[k + 1] && v.InRange(cs[k + 1]);
      FollowTooShort(v, f.(clust := cs[k + 1], fptr := f.fptr + b), cs, k + 1, ofs - b);
    }
  }

  /** f_lseek behind the end of the chain of a writable file, on a full volume: it succeeds, with the file
      pointer at the end of the last cluster, and the file is as long as that. */
  lemma SeekToEnd(v: Volume, f: FileState, cs: seq<nat>, ofs: nat)
    requires v.Valid() && IsChain(v, cs) && NoneFree(v) && f.sclust == cs[0] && f.err == Ok && AtCluster(v, f, cs)
    requires f.write && ofs > 0 && ClusterNo(v, ofs) >= |cs|
    ensures var end := |cs| * v.csize * 512;
      Seek(v, f, ofs)
      == Outcome(v, f.(fptr := end, clust := cs[|cs| - 1], fsize := if end > f.fsize then end else f.fsize), Ok)
  {
    hide Follow, Volume.Accessible, CreateChain, FirstSector, SecondSector, ClusterNo, Floor;
    var b := v.ClusterSize();
    assert v.InRange(cs[0]);
    assert |cs| * v.csize * 512 == |cs| * b;
    if f.fptr > 0 && (ofs - 1) / b >= (f.fptr - 1) / b {
      var q, base := ClusterNo(v, f.fptr), Floor(f.fptr - 1, b);
      FromCurrent(v, f.fptr, ofs);
      FloorIs(v, f.fptr);
      FollowToEnd(v, f.(fptr := base), cs, q, ofs - base);
      ExtentSum(v, q, |cs| - q);
    } else {
      FollowToEnd(v, f.(fptr := 0, clust := cs[0]), cs, 0, ofs);
    }
  }

  lemma FloorIs(v: Volume, fptr: nat)
    requires v.csize > 0 && fptr > 0
    ensures Floor(fptr - 1, v.ClusterSize()) == ClusterNo(v, fptr) * v.ClusterSize()
  {
  }

  /** The table after the chain cs has been cut behind its cluster k. */
  ghost function CutBehind(v: Volume, cs: seq<nat>, k: nat): seq<nat>
    requires k < |cs|
  {
    seq(v.N(), i requires 0 <= i < v.N() =>
      if i in cs[k + 1..] then 0 else if i == cs[k] && k + 1 < |cs| then LastLink(v.kind) else v.fat[i])
  }

  /** v with cluster c made a last link. */
  ghost function Ended(v: Volume, c: nat): Volume
    requires c < v.N()
  {
    v.(fat := v.fat[c := Cut(v.kind, 0x0FFF_FFFF)], held := v.Hold(v.Second(c)))
  }

  /** The steps of f_truncate in the middle of a file. */
  lemma TruncateSteps(v: Volume, f: FileState)
    requires v.Valid() && f.err == Ok && f.write && 0 < f.fptr < f.fsize
    requires v.InRange(f.clust) && 2 <= v.fat[f.clust] < DISK_ERROR
    ensures var o, next, f1 := Truncated(v, f), v.fat[f.clust], f.(fsize := f.fptr);
      if !v.Accessible(v.held, f.clust) then o.res == DiskErr
      else if next >= v.N() then o == Outcome(v, f1, Ok)
      else if v.Tears(f.clust) then o.res == DiskErr
      else (Ended(v, f.clust).Valid()
            && var (w, res) := FreeFrom(Ended(v, f.clust), next); o == Outcome(w, f1.(err := res), res))
  {
    hide FirstSector, SecondSector, FreeFrom, Cut, Torn;
    if v.Accessible(v.held, f.clust) {
      PutAfterGet(v, f.clust, 0x0FFF_FFFF);
      PutKeepsValid(v, f.clust, 0x0FFF_FFFF);
    }
  }

  /** f_truncate in the middle of a file keeps the chain up to the cluster of the file pointer, frees
      the rest of it, and changes no other entry, exactly when the entries from there on can be read
      and written in their order. */
  lemma TruncateCuts(v: Volume, f: FileState, cs: seq<nat>)
    requires v.Valid() && IsChain(v, cs) && f.err == Ok && f.write && 0 < f.fptr < f.fsize && AtCluster(v, f, cs)
    ensures var o, k := Truncated(v, f), ClusterNo(v, f.fptr);
      && (o.res == Ok <==> if k + 1 == |cs| then v.Accessible(v.held, cs[k]) else Freeable(v, cs[k..]))
      && (o.res == Ok ==>
            o.f == f.(fsize := f.fptr) && o.v.fat == CutBehind(v, cs, k) && IsChain(o.v, cs[..k + 1]))
  {
    hide Truncated, FreeFrom, Volume.Accessible, Volume.Tears, Freeable, Ended, CutBehind, Zeroed;
    var k := ClusterNo(v, f.fptr);
    assert v.InRange(cs[k]);
    if k + 1 == |cs| {
      TruncateSteps(v, f);
      assert cs[..k + 1] == cs;
      NothingCut(v, cs);
    } else {
      CutRest(v, cs, k);
      TruncateSteps(v, f);
      FreeableRest(v, cs, k, Ended(v, cs[k]));
      if v.Accessible(v.held, cs[k]) && !v.Tears(cs[k]) {
        FreeChain(Ended(v, cs[k]), cs[k + 1..]);
        var o := Truncated(v, f);
        if o.res == Ok {
          SameKind(Ended(v, cs[k]), cs[k + 1]);
          EndedKind(v, cs[k]);
          CutKeepsHead(v, cs, k, o.v);
        }
      }
    }
  }

  lemma NothingCut(v: Volume, cs: seq<nat>)
    requires cs != []
    ensures CutBehind(v, cs, |cs| - 1) == v.fat
  {
    assert cs[|cs| - 1 + 1..] == [];
  }

  lemma SameKind(v: Volume, c: nat)
    requires 2 <= c
    ensures FreeFrom(v, c).0.kind == v.kind
  {
  }

  lemma EndedKind(v: Volume, c: nat)
    requires c < v.N()
    ensures Ended(v, c).kind == v.kind
  {
  }

  lemma FreeableRest(v: Volume, cs: seq<nat>, k: nat, w: Volume)
    requires k + 1 < |cs| && cs[k] < v.N() && w == Ended(v, cs[k])
    ensures Freeable(v, cs[k..]) <==> v.Accessible(v.held, cs[k]) && !v.Tears(cs[k]) && Freeable(w, cs[k + 1..])
  {
    hide Freeable, FirstSector, SecondSector;
    assert cs[k..][0] == cs[k] && cs[k..][1..] == cs[k + 1..];
    FreeableStep(v, cs[k..], w);
  }

  /** The rest of the chain after its cluster k has become a last link. */
  lemma CutRest(v: Volume, cs: seq<nat>, k: nat)
    requires v.Valid() && IsChain(v, cs) && k + 1 < |cs|
    ensures v.fat[cs[k]] == cs[k + 1] && v.InRange(cs[k]) && v.InRange(cs[k + 1])
    ensures IsChain(Ended(v, cs[k]), cs[k + 1..])
    ensures Zeroed(Ended(v, cs[k]).fat, cs[k + 1..]) == CutBehind(v, cs, k)
  {
    hide FirstSector, SecondSector, Cut;
    CutFits(v.kind, 0x0FFF_FFFF);
    var rest := cs[k + 1..];
    assert v.InRange(cs[k]) && v.InRange(cs[k + 1]);
    forall i | k < i < |cs|
      ensures cs[i] != cs[k]
    {
      ChainIsDistinct(v, cs, k, i);
    }
    assert forall i :: 0 <= i < |rest| ==> rest[i] == cs[k + 1 + i];
  }

  lemma CutKeepsHead(v: Volume, cs: seq<nat>, k: nat, w: Volume)
    requires v.Valid() && IsChain(v, cs) && k + 1 < |cs| && w.fat == CutBehind(v, cs, k) && w.kind == v.kind
    ensures IsChain(w, cs[..k + 1])
  {
    var head := cs[..k + 1];
    forall i | 0 <= i <= k
      ensures cs[i] !in cs[k + 1..] && (i < k ==> cs[i] != cs[k])
    {
      forall j | k < j < |cs| ensures cs[i] != cs[j] {
        ChainIsDistinct(v, cs, i, j);
      }
      if i < k { ChainIsDistinct(v, cs, i, k); }
    }
    CutFits(v.kind, 0);
  }
}
