/** Files on a FAT volume: f_lseek and f_truncate, and the table functions they call. */
module FatFile {
  import opened Fat

  /** The fields of an open file that its cluster chain depends on; err is Ok until an operation aborts. */
  datatype FileState = FileState(sclust: nat, fsize: nat, fptr: nat, clust: nat, write: bool, err: FResult)

  datatype Outcome = Outcome(v: Volume, f: FileState, res: FResult)

  function Abort(v: Volume, f: FileState, res: FResult): Outcome {
    Outcome(v, f.(err := res), res)
  }

  /** The cluster following loop of f_lseek: ofs bytes are still ahead of cluster c. */
  function Follow(v: Volume, f: FileState, c: nat, ofs: nat): (o: Outcome)
    requires v.N() >= 2 && v.csize > 0
    ensures SameShape(v, o.v)
    decreases ofs
  {
    var bcs := v.ClusterSize();
    if ofs <= bcs then Outcome(v, f.(fptr := f.fptr + ofs), Ok) else
    var (v1, next) := if f.write then CreateChain(v, c) else (v, v.GetFat(c));
    if f.write && next == 0 then Outcome(v1, f.(fptr := f.fptr + bcs), Ok)
    else if next == DISK_ERROR then Abort(v1, f, DiskErr)
    else if next <= 1 || next >= v1.N() then Abort(v1, f, IntErr)
    else Follow(v1, f.(clust := next, fptr := f.fptr + bcs), next, ofs - bcs)
  }

  /** x rounded down to a multiple of b; for a power of two b this is `x & ~(b - 1)`. */
  function Floor(x: nat, b: nat): (r: nat)
    requires b > 0
    ensures r <= x
  {
    x - x % b
  }

  lemma FloorBelow(x: nat, y: nat, b: nat)
    requires b > 0 && y / b >= x / b
    ensures Floor(x, b) <= y
  {
    assert x - x % b == b * (x / b) && y - y % b == b * (y / b);
    assert b * (y / b) - b * (x / b) == b * (y / b - x / b);
  }

  /** Where f_lseek starts to follow the chain. */
  function Start(v: Volume, f: FileState, ofs: nat): (o: Outcome)
    requires v.N() >= 2 && v.csize > 0 && ofs > 0
    ensures SameShape(v, o.v)
  {
    var bcs := v.ClusterSize();
    if f.fptr > 0 && (ofs - 1) / bcs >= (f.fptr - 1) / bcs then
      FloorBelow(f.fptr - 1, ofs - 1, bcs);
      var base := Floor(f.fptr - 1, bcs);
      if f.clust == 0 then Outcome(v, f.(fptr := base), Ok)
      else Follow(v, f.(fptr := base), f.clust, ofs - base)
    else
      var f0 := f.(fptr := 0);
      var (v1, c) := if f.sclust == 0 then CreateChain(v, 0) else (v, f.sclust);
      if f.sclust == 0 && c == INTERNAL_ERROR then Abort(v1, f0, IntErr)
      else if f.sclust == 0 && c == DISK_ERROR then Abort(v1, f0, DiskErr)
      else
        var f1 := f0.(sclust := c, clust := c);
        if c == 0 then Outcome(v1, f1, Ok) else Follow(v1, f1, c, ofs)
  }

  /** f_lseek */
  function Seek(v: Volume, f: FileState, ofs: nat): (o: Outcome)
    requires v.N() >= 2 && v.csize > 0
    ensures SameShape(v, o.v)
  {
    if f.err != Ok then Outcome(v, f, f.err) else
    var goal := if ofs > f.fsize && !f.write then f.fsize else ofs;
    var o := if goal == 0 then Outcome(v, f.(fptr := 0), Ok) else Start(v, f, goal);
    if o.res == Ok && o.f.fptr > o.f.fsize then o.(f := o.f.(fsize := o.f.fptr)) else o
  }

  /** The walk moves the file pointer and its cluster; an abort leaves its result in err. */
  lemma {:induction false} FollowFields(v: Volume, f: FileState, c: nat, ofs: nat)
    requires v.N() >= 2 && v.csize > 0
    ensures var o := Follow(v, f, c, ofs);
      o.f == f.(clust := o.f.clust, fptr := o.f.fptr, err := if o.res == Ok then f.err else o.res)
    ensures !f.write ==> Follow(v, f, c, ofs).v == v
    decreases ofs
  {
    hide CreateChain, Volume.GetFat;
    var bcs := v.ClusterSize();
    if ofs > bcs {
      ShapeOfChain(v, c);
      var (v1, next) := if f.write then CreateChain(v, c) else (v, v.GetFat(c));
      FollowFields(v1, f.(clust := next, fptr := f.fptr + bcs), next, ofs - bcs);
    }
  }

  lemma ShapeOfChain(v: Volume, c: nat)
    requires v.N() >= 2
    ensures SameShape(v, CreateChain(v, c).0)
  {
  }

  lemma StartFields(v: Volume, f: FileState, ofs: nat)
    requires v.N() >= 2 && v.csize > 0 && ofs > 0
    ensures var o := Start(v, f, ofs);
      o.f == f.(sclust := o.f.sclust, clust := o.f.clust, fptr := o.f.fptr, err := if o.res == Ok then f.err else o.res)
    ensures f.sclust != 0 ==> Start(v, f, ofs).f.sclust == f.sclust
    ensures f.sclust != 0 && !f.write ==> Start(v, f, ofs).v == v
  {
    hide Follow, CreateChain;
    var bcs := v.ClusterSize();
    ShapeOfChain(v, 0);
    if f.fptr > 0 && (ofs - 1) / bcs >= (f.fptr - 1) / bcs {
      FloorBelow(f.fptr - 1, ofs - 1, bcs);
      var base := Floor(f.fptr - 1, bcs);
      FollowFields(v, f.(fptr := base), f.clust, ofs - base);
    } else {
      var (v1, c) := if f.sclust == 0 then CreateChain(v, 0) else (v, f.sclust);
      FollowFields(v1, f.(fptr := 0, sclust := c, clust := c), c, ofs);
    }
  }

  /** f_truncate */
  function Truncated(v: Volume, f: FileState): (o: Outcome)
    requires v.N() >= 2
    ensures o.v.N() == v.N() && o.v == v.(fat := o.v.fat, held := o.v.held, freeClust := o.v.freeClust)
  {
    if f.err != Ok then Outcome(v, f, f.err)
    else if !f.write then Outcome(v, f, Denied)
    else if f.fsize <= f.fptr then Outcome(v, f, Ok)
    else
      var f1 := f.(fsize := f.fptr);
      if f.fptr == 0 then
        var (v1, res) := RemoveChain(v, f.sclust);
        Outcome(v1, f1.(sclust := 0, err := res), res)
      else
        var next := v.GetFat(f.clust);
        if next == DISK_ERROR then Abort(v, f1, DiskErr)
        else if next == INTERNAL_ERROR then Abort(v, f1, IntErr)
        else if next >= v.N() then Outcome(v, f1, Ok)
        else
          var (v1, res) := v.PutFat(f.clust, 0x0FFF_FFFF);
          if res != Ok then Abort(v1, f1, res) else
          var (v2, res2) := RemoveChain(v1, next);
          Outcome(v2, f1.(err := res2), res2)
  }

  // --- The code ---------------------------------------------------------------

  /** FATFS: the table is an array that put_fat updates in place. */
  class FileSystem {
    const kind: FatType
    const fat: array<nat>
    const unreadable: set<int>
    const unwritable: set<int>
    var held: int
    const csize: nat
    const database: nat
    var lastClust: nat
    var freeClust: nat

    constructor (kind: FatType, fat: array<nat>, unreadable: set<int>, unwritable: set<int>, csize: nat,
                 database: nat)
      ensures V() == Volume(kind, fat[..], unreadable, unwritable, NONE, csize, database, UNKNOWN, UNKNOWN)
      ensures this.fat == fat
    {
      this.kind, this.fat, this.unreadable, this.unwritable := kind, fat, unreadable, unwritable;
      this.csize, this.database := csize, database;
      held, lastClust, freeClust := NONE, UNKNOWN, UNKNOWN;
    }

    ghost function V(): Volume
      reads this, fat
    {
      Volume(kind, fat[..], unreadable, unwritable, held, csize, database, lastClust, freeClust)
    }

    /** move_window, as far as it depends on the changes in the window. */
    method MoveWindow(s: int) returns (moved: bool)
      ensures moved == V().Reaches(held, s)
    {
      return if held != NONE then s == held else s !in unreadable;
    }

    method GetFat(c: nat) returns (r: nat)
      ensures r == V().GetFat(c)
    {
      if c < 2 || c >= fat.Length { return INTERNAL_ERROR; }
      var moved := MoveWindow(FirstSector(kind, c));
      if !moved { return DISK_ERROR; }
      moved := MoveWindow(SecondSector(kind, c));
      if !moved { return DISK_ERROR; }
      return fat[c];
    }

    method PutFat(c: nat, val: nat) returns (res: FResult)
      modifies fat, `held
      ensures (V(), res) == old(V()).PutFat(c, val)
    {
      if c < 2 || c >= fat.Length { return IntErr; }
      var first, second := FirstSector(kind, c), SecondSector(kind, c);
      var moved := MoveWindow(first);
      if !moved { return DiskErr; }
      if second != first {
        // the first byte is stored before the window moves on
        held := if first in unwritable then first else NONE;
        moved := MoveWindow(second);
        if !moved {
          fat[c] := Torn(c, fat[c], val);
          return DiskErr;
        }
      }
      fat[c] := Cut(kind, val);
      held := if second in unwritable then second else NONE;
      return Ok;
    }

    function Clust2Sect(c: nat): (s: nat)
      ensures s == if 2 <= c < fat.Length then database + (c - 2) * csize else 0
    {
      if c >= 2 && c < fat.Length then (c - 2) * csize + database else 0
    }

    method RemoveChain(c: nat) returns (res: FResult)
      modifies this, fat
      ensures (V(), res) == Fat.RemoveChain(old(V()), c)
    {
      if c < 2 || c >= fat.Length { return IntErr; }
      var clst := c;
      res := Ok;
      while clst < fat.Length
        invariant clst >= 2 && res == Ok
        invariant FreeFrom(V(), clst) == FreeFrom(old(V()), c)
        decreases Used(V().fat)
      {
        var nxt := GetFat(clst);
        if nxt == 0 { break; }
        if nxt == INTERNAL_ERROR { res := IntErr; break; }
        if nxt == DISK_ERROR { res := DiskErr; break; }
        FreeUsesUp(V(), clst);
        res := PutFat(clst, 0);
        if res != Ok { break; }
        freeClust := Increment(freeClust);
        clst := nxt;
      }
    }

    /** The search loop of create_chain. */
    method SearchFree(scl: nat) returns (r: Search)
      requires 1 <= scl < fat.Length
      ensures r == FindFree(V(), scl, scl)
    {
      var ncl := scl;
      while true
        invariant ncl < fat.Length && (ncl >= scl || ncl >= 2)
        invariant FindFree(V(), scl, ncl) == FindFree(V(), scl, scl)
        decreases Remaining(V(), scl, ncl)
      {
        ncl := ncl + 1;
        if ncl >= fat.Length {
          ncl := 2;
          if ncl > scl { return Full; }
        }
        var cs := GetFat(ncl);
        if cs == 0 { return Found(ncl); }
        if cs == DISK_ERROR || cs == INTERNAL_ERROR { return Failed(cs); }
        if ncl == scl { return Full; }
      }
    }

    method CreateChain(clst: nat) returns (ncl: nat)
      requires fat.Length >= 2
      modifies this, fat
      ensures (V(), ncl) == Fat.CreateChain(old(V()), clst)
      ensures clst != 0 ==>
        var link := old(V()).GetFat(clst);
        && (link == 0 || link == 1 ==> ncl == 1 && V() == old(V()))
        && (link == DISK_ERROR || 2 <= link < fat.Length ==> ncl == link && V() == old(V()))
    {
      var scl;
      if clst == 0 {
        scl := lastClust;
        if scl == 0 || scl >= fat.Length { scl := 1; }
      } else {
        var cs := GetFat(clst);
        if cs < 2 { return INTERNAL_ERROR; }
        if cs == DISK_ERROR { return cs; }
        if cs < fat.Length { return cs; }
        scl := clst;
      }
      var search := SearchFree(scl);
      match search {
        case Full => return 0;
        case Failed(cs) => return cs;
        case Found(c) => ncl := c;
      }
      var res := PutFat(ncl, 0x0FFF_FFFF);
      if res == Ok && clst != 0 {
        res := PutFat(clst, ncl);
      }
      if res == Ok {
        lastClust := ncl;
        freeClust := Decrement(freeClust);
      } else {
        ncl := if res == DiskErr then DISK_ERROR else INTERNAL_ERROR;
      }
    }
  }

  /** FIL */
  class File {
    const fs: FileSystem
    var sclust: nat
    var fsize: nat
    var fptr: nat
    var clust: nat
    var write: bool
    var err: FResult

    constructor (fs: FileSystem, sclust: nat, fsize: nat, write: bool)
      ensures this.fs == fs && F() == FileState(sclust, fsize, 0, 0, write, Ok)
    {
      this.fs, this.sclust, this.fsize, this.write := fs, sclust, fsize, write;
      fptr, clust, err := 0, 0, Ok;
    }

    ghost function F(): FileState
      reads this
    {
      FileState(sclust, fsize, fptr, clust, write, err)
    }

    /** f_lseek; the buffered sector of the file is not modelled. */
    method Lseek(ofs0: nat) returns (res: FResult)
      requires fs.fat.Length >= 2 && fs.csize > 0
      modifies this, fs, fs.fat
      ensures Outcome(fs.V(), F(), res) == Seek(old(fs.V()), old(F()), ofs0)
      ensures old(err) != Ok ==> res == old(err) && F() == old(F()) && fs.V() == old(fs.V())
      ensures old(err) == Ok && (ofs0 == 0 || (old(fsize) == 0 && !write)) ==>
        res == Ok && F() == old(F()).(fptr := 0) && fs.V() == old(fs.V())
      ensures res == Ok ==> fsize == (if fptr > old(fsize) then fptr else old(fsize)) && err == Ok
      ensures res != Ok ==> fsize == old(fsize) && err == res
      ensures write == old(write)
      ensures !write && (old(fsize) > 0 ==> old(sclust) != 0) ==> fs.V() == old(fs.V())
    {
      hide Start;
      if err != Ok { return err; }
      var ofs := ofs0;
      if ofs > fsize && !write { ofs := fsize; }
      if ofs == 0 {
        fptr := 0;
      } else {
        StartFields(fs.V(), F(), ofs);
        res := SeekForward(ofs);
        if res != Ok { return res; }
      }
      if fptr > fsize {
        fsize := fptr;
      }
      return Ok;
    }

    /** The part of f_lseek that follows, and in write mode stretches, the chain. */
    method SeekForward(ofs: nat) returns (res: FResult)
      requires fs.fat.Length >= 2 && fs.csize > 0 && ofs > 0
      modifies this, fs, fs.fat
      ensures Outcome(fs.V(), F(), res) == Start(old(fs.V()), old(F()), ofs)
    {
      hide Follow, CreateChain;
      var bcs := fs.csize * SECTOR_SIZE;
      var clst, rest;
      if fptr > 0 && (ofs - 1) / bcs >= (fptr - 1) / bcs {
        FloorBelow(fptr - 1, ofs - 1, bcs);
        fptr := Floor(fptr - 1, bcs);
        rest := ofs - fptr;
        clst := clust;
      } else {
        fptr := 0;
        rest := ofs;
        clst := sclust;
        if clst == 0 {
          clst := fs.CreateChain(0);
          if clst == INTERNAL_ERROR { err := IntErr; return IntErr; }
          if clst == DISK_ERROR { err := DiskErr; return DiskErr; }
          sclust := clst;
        }
        clust := clst;
      }
      if clst != 0 {
        res := FollowChain(clst, rest);
      } else {
        res := Ok;
      }
    }

    method FollowChain(c: nat, ofs0: nat) returns (res: FResult)
      requires fs.fat.Length >= 2 && fs.csize > 0
      modifies this, fs, fs.fat
      ensures Outcome(fs.V(), F(), res) == Follow(old(fs.V()), old(F()), c, ofs0)
    {
      hide CreateChain, Volume.GetFat;
      var bcs := fs.csize * SECTOR_SIZE;
      var clst: nat, ofs: nat := c, ofs0;
      while ofs > bcs
        invariant Follow(fs.V(), F(), clst, ofs) == Follow(old(fs.V()), old(F()), c, ofs0)
        decreases ofs
      {
        if write {
          clst := fs.CreateChain(clst);
          if clst == 0 {
            fptr := fptr + bcs;
            return Ok;
          }
        } else {
          clst := fs.GetFat(clst);
        }
        if clst == DISK_ERROR { err := DiskErr; return DiskErr; }
        if clst <= 1 || clst >= fs.fat.Length { err := IntErr; return IntErr; }
        clust := clst;
        fptr := fptr + bcs;
        ofs := ofs - bcs;
      }
      fptr := fptr + ofs;
      return Ok;
    }

    /** f_truncate; writing back the buffered sector is not modelled. */
    method Truncate() returns (res: FResult)
      requires fs.fat.Length >= 2
      modifies this, fs, fs.fat
      ensures Outcome(fs.V(), F(), res) == Truncated(old(fs.V()), old(F()))
      ensures old(err) != Ok ==> res == old(err) && F() == old(F()) && fs.V() == old(fs.V())
      ensures old(err) == Ok && !write ==> res == Denied && F() == old(F()) && fs.V() == old(fs.V())
      ensures old(err) == Ok && write && old(fsize) <= fptr ==>
        res == Ok && F() == old(F()) && fs.V() == old(fs.V())
      ensures old(err) == Ok && write && old(fsize) > fptr ==>
        && fptr == old(fptr) == fsize && clust == old(clust) && err == res
        && sclust == if fptr == 0 then 0 else old(sclust)
      ensures old(err) == Ok && write && 0 < fptr < old(fsize) ==>
        var link := old(fs.V()).GetFat(clust);
        && (link == 1 ==> res == IntErr && fs.V() == old(fs.V()))
        && (link == DISK_ERROR ==> res == DiskErr && fs.V() == old(fs.V()))
        && (fs.fat.Length <= link != DISK_ERROR ==> res == Ok && fs.V() == old(fs.V()))
      ensures write == old(write) && fptr == old(fptr)
    {
      if err != Ok { return err; }
      if !write { return Denied; }
      res := Ok;
      if fsize > fptr {
        fsize := fptr;
        if fptr == 0 {
          res := fs.RemoveChain(sclust);
          sclust := 0;
        } else {
          var ncl := fs.GetFat(clust);
          if ncl == DISK_ERROR { res := DiskErr; }
          if ncl == INTERNAL_ERROR { res := IntErr; }
          if res == Ok && ncl < fs.fat.Length {
            res := fs.PutFat(clust, 0x0FFF_FFFF);
            if res == Ok {
              res := fs.RemoveChain(ncl);
            }
          }
        }
      }
      if res != Ok {
        err := res;
      }
    }
  }
}
