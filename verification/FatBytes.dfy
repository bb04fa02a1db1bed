/** The file allocation table as bytes: how get_fat and put_fat pack cluster links of 12, 16 or 28
    bits, and that they act on one link only. */
module FatBytes {
  import opened Fat

  type Byte = x: int | 0 <= x < 0x100

  // --- The layout -------------------------------------------------------------

  /** Half byte i of a table, the low half of a byte before its high half. */
  function Nibble(s: seq<Byte>, i: nat): (x: nat)
    requires i < 2 * |s|
    ensures x < 16
  {
    if i % 2 == 0 then s[i / 2] % 16 else s[i / 2] / 16
  }

  /** The half bytes from one entry to the next, and those that make up its value. */
  function Stride(t: FatType): nat {
    match t
    case Fat12 => 3
    case Fat16 => 4
    case Fat32 => 8
  }

  function Digits(t: FatType): nat {
    if t == Fat32 then 7 else Stride(t)
  }

  /** The number in the n half bytes from i on, the least significant first. */
  function Number(s: seq<Byte>, i: nat, n: nat): (x: nat)
    requires i + n <= 2 * |s|
    decreases n
  {
    if n == 0 then 0 else Nibble(s, i) + 16 * Number(s, i + 1, n - 1)
  }

  /** The table has room for n entries. */
  predicate Holds(t: FatType, s: seq<Byte>, n: nat) {
    Stride(t) * n <= 2 * |s|
  }

  lemma HoldsEntry(t: FatType, s: seq<Byte>, n: nat, c: nat)
    requires Holds(t, s, n) && c < n
    ensures Stride(t) * c + Stride(t) <= 2 * |s|
  {
    match t
    case Fat12 =>
    case Fat16 =>
    case Fat32 =>
  }

  /** The link of cluster c. */
  function Entry(t: FatType, s: seq<Byte>, c: nat): nat
    requires Stride(t) * c + Stride(t) <= 2 * |s|
  {
    Number(s, Stride(t) * c, Digits(t))
  }

  // --- The sector window --------------------------------------------------------

  /** disk with the contents of sector w replaced. */
  ghost function Overlay(disk: seq<Byte>, w: int, win: seq<Byte>): (r: seq<Byte>)
    requires |win| == SECTOR_SIZE && |disk| % SECTOR_SIZE == 0
    ensures |r| == |disk|
  {
    if 0 <= w < |disk| / SECTOR_SIZE then
      assert SECTOR_SIZE * w + SECTOR_SIZE <= |disk|;
      disk[..SECTOR_SIZE * w] + win + disk[SECTOR_SIZE * w + SECTOR_SIZE..]
    else disk
  }

  lemma OverlayAt(disk: seq<Byte>, w: int, win: seq<Byte>, i: nat)
    requires |win| == SECTOR_SIZE && |disk| % SECTOR_SIZE == 0 && i < |disk|
    ensures Overlay(disk, w, win)[i] == if i / SECTOR_SIZE == w then win[i % SECTOR_SIZE] else disk[i]
  {
    var q, r := i / SECTOR_SIZE, i % SECTOR_SIZE;
    assert i == SECTOR_SIZE * q + r;
  }

  /** A byte stored in the window shows in the table. */
  lemma OverlayStore(disk: seq<Byte>, win: seq<Byte>, i: nat, b: Byte)
    requires |win| == SECTOR_SIZE && |disk| % SECTOR_SIZE == 0 && i < |disk|
    ensures Overlay(disk, i / SECTOR_SIZE, win[i % SECTOR_SIZE := b]) == Overlay(disk, i / SECTOR_SIZE, win)[i := b]
  {
    var w := i / SECTOR_SIZE;
    var s, t := Overlay(disk, w, win), Overlay(disk, w, win[i % SECTOR_SIZE := b]);
    forall k | 0 <= k < |disk|
      ensures t[k] == s[i := b][k]
    {
      OverlayAt(disk, w, win, k);
      OverlayAt(disk, w, win[i % SECTOR_SIZE := b], k);
      if k != i && k / SECTOR_SIZE == w {
        assert k == SECTOR_SIZE * w + k % SECTOR_SIZE && i == SECTOR_SIZE * w + i % SECTOR_SIZE;
      }
    }
  }

  /** A window that holds a sector of the drive changes nothing. */
  lemma OverlayClean(disk: seq<Byte>, w: int, win: seq<Byte>)
    requires |win| == SECTOR_SIZE && |disk| % SECTOR_SIZE == 0
    requires 0 <= w < |disk| / SECTOR_SIZE ==>
      SECTOR_SIZE * w + SECTOR_SIZE <= |disk| && win == disk[SECTOR_SIZE * w..SECTOR_SIZE * w + SECTOR_SIZE]
    ensures Overlay(disk, w, win) == disk
  {
    forall k | 0 <= k < |disk|
      ensures Overlay(disk, w, win)[k] == disk[k]
    {
      OverlayAt(disk, w, win, k);
      assert k == SECTOR_SIZE * (k / SECTOR_SIZE) + k % SECTOR_SIZE;
    }
  }

  lemma OverlayTwice(disk: seq<Byte>, w: int, win: seq<Byte>)
    requires |win| == SECTOR_SIZE && |disk| % SECTOR_SIZE == 0
    ensures 0 <= w < |disk| / SECTOR_SIZE ==>
      && SECTOR_SIZE * w + SECTOR_SIZE <= |disk|
      && Overlay(disk, w, win)[SECTOR_SIZE * w..SECTOR_SIZE * w + SECTOR_SIZE] == win
  {
    if 0 <= w < |disk| / SECTOR_SIZE {
      assert SECTOR_SIZE * w + SECTOR_SIZE <= |disk|;
    }
  }

  // --- The code ---------------------------------------------------------------

  /** The part of FATFS that belongs to the table: disk is the table on the drive, win the window with
      sector winsect, wflag says that the window has changes. */
  class Table {
    const kind: FatType
    const nFatent: nat
    const unreadable: set<int>
    const unwritable: set<int>
    const win: array<Byte>
    var disk: seq<Byte>
    var winsect: int
    var wflag: bool

    ghost predicate Valid()
      reads this, win
    {
      && win.Length == SECTOR_SIZE && |disk| % SECTOR_SIZE == 0 && Holds(kind, disk, nFatent)
      && winsect !in unreadable && winsect > NONE
      && (!wflag ==> Bytes() == disk)
    }

    /** The table as seen through the window. */
    ghost function Bytes(): (s: seq<Byte>)
      requires win.Length == SECTOR_SIZE && |disk| % SECTOR_SIZE == 0
      reads this, win
      ensures |s| == |disk|
    {
      Overlay(disk, winsect, win[..])
    }

    /** All links, those of the reserved entries 0 and 1 included. */
    ghost function Links(): seq<nat>
      requires Valid()
      reads this, win
    {
      AllLinks(kind, Bytes(), nFatent)
    }

    /** The sector that the window cannot leave. */
    ghost function Held(): int
      reads this
    {
      if wflag && winsect in unwritable then winsect else NONE
    }

    /** v is this table at the level of cluster links. */
    ghost predicate Models(v: Volume)
      requires Valid()
      reads this, win
    {
      && v.kind == kind && v.fat == Links()
      && v.unreadable == unreadable && v.unwritable == unwritable && v.held == Held()
    }

    constructor (kind: FatType, nFatent: nat, unreadable: set<int>, unwritable: set<int>, disk: seq<Byte>,
                 winsect: int)
      requires |disk| % SECTOR_SIZE == 0 && Holds(kind, disk, nFatent)
      requires winsect !in unreadable && winsect > NONE && !(0 <= winsect < |disk| / SECTOR_SIZE)
      ensures Valid() && fresh(win) && Bytes() == disk && Held() == NONE
      ensures this.kind == kind && this.nFatent == nFatent
      ensures this.unreadable == unreadable && this.unwritable == unwritable
    {
      this.kind, this.nFatent, this.unreadable, this.unwritable := kind, nFatent, unreadable, unwritable;
      this.disk, this.winsect, wflag := disk, winsect, false;
      win := new Byte[SECTOR_SIZE](_ => 0);
    }

    /** sync_window */
    method SyncWindow() returns (ok: bool)
      requires Valid()
      modifies this
      ensures Valid() && winsect == old(winsect) && Bytes() == old(Bytes())
      ensures ok <==> old(Held()) == NONE
      ensures ok ==> !wflag
      ensures !ok ==> wflag && disk == old(disk)
    {
      ok := true;
      if wflag {
        if winsect in unwritable { return false; }
        ghost var s := Bytes();
        if 0 <= winsect < |disk| / SECTOR_SIZE {
          assert SECTOR_SIZE * winsect + SECTOR_SIZE <= |disk|;
          disk := disk[..SECTOR_SIZE * winsect] + win[..] + disk[SECTOR_SIZE * winsect + SECTOR_SIZE..];
        }
        wflag := false;
        assert disk == s;
        OverlayTwice(old(disk), winsect, win[..]);
        OverlayClean(disk, winsect, win[..]);
      }
    }

    /** What the window holds with changes in sector s. */
    ghost function Hold(s: int): int {
      if s in unwritable then s else NONE
    }

    /** move_window can load a sector when the window holds sector h. */
    ghost predicate Moves(h: int, s: int) {
      if h != NONE then s == h else s !in unreadable
    }

    /** move_window */
    method MoveWindow(sector: int) returns (ok: bool)
      requires Valid() && sector > NONE
      modifies this, win
      ensures Valid() && Bytes() == old(Bytes()) && Held() == old(Held())
      ensures ok <==> Moves(old(Held()), sector)
      ensures ok <==> sector == old(winsect)
                      || (!(old(wflag) && old(winsect) in unwritable) && sector !in unreadable)
      ensures ok ==> winsect == sector
      ensures !ok ==> winsect == old(winsect) && (wflag ==> old(wflag))
    {
      ok := true;
      if sector != winsect {
        ok := SyncWindow();
        if !ok { return; }
        if sector in unreadable { return false; }
        ghost var s := disk;
        if 0 <= sector < |disk| / SECTOR_SIZE {
          assert SECTOR_SIZE * sector + SECTOR_SIZE <= |disk|;
          forall i | 0 <= i < SECTOR_SIZE {
            win[i] := disk[SECTOR_SIZE * sector + i];
          }
          assert win[..] == disk[SECTOR_SIZE * sector..SECTOR_SIZE * sector + SECTOR_SIZE];
        }
        winsect := sector;
        OverlayClean(disk, winsect, win[..]);
      }
    }

    /** win[i % SS] */
    method ByteAt(i: nat) returns (b: Byte)
      requires Valid() && i < |disk| && winsect == i / SECTOR_SIZE
      ensures b == Bytes()[i]
    {
      OverlayAt(disk, winsect, win[..], i);
      b := win[i % SECTOR_SIZE];
    }

    method StoreByte(i: nat, b: Byte)
      requires Valid() && i < |disk| && winsect == i / SECTOR_SIZE
      modifies win, `wflag
      ensures Valid() && Bytes() == old(Bytes())[i := b] && wflag
    {
      OverlayStore(disk, win[..], i, b);
      win[i % SECTOR_SIZE] := b;
      wflag := true;
      assert win[..] == old(win[..])[i % SECTOR_SIZE := b];
    }

    /** The cases of get_fat: the value of the entry, unless the window cannot be moved. */
    method GetLink12(clst: nat) returns (r: nat)
      requires Valid() && kind == Fat12 && 2 <= clst < nFatent
      modifies this, win
      ensures Valid() && Bytes() == old(Bytes()) && Held() == old(Held())
      ensures 3 * clst + 3 <= 2 * |Bytes()|
      ensures r == if Moves(old(Held()), FirstSector(Fat12, clst)) && Moves(old(Held()), SecondSector(Fat12, clst))
                   then Entry(Fat12, Bytes(), clst) else DISK_ERROR
    {
      hide Overlay, Entry;
      HoldsEntry(kind, Bytes(), nFatent, clst);
      Digits12(Bytes(), clst);
      var bc := clst;
      bc := bc + bc / 2;
      var ok := MoveWindow(bc / SECTOR_SIZE);
      if !ok { return DISK_ERROR; }
      var b := ByteAt(bc);
      var wc: nat := b;
      bc := bc + 1;
      ok := MoveWindow(bc / SECTOR_SIZE);
      if !ok { return DISK_ERROR; }
      b := ByteAt(bc);
      wc := wc + 0x100 * (b as nat);
      assert wc == Word(Bytes()[bc - 1], Bytes()[bc]);
      r := if clst % 2 == 1 then wc / 16 else wc % 0x1000;
    }

    method GetLink16(clst: nat) returns (r: nat)
      requires Valid() && kind == Fat16 && 2 <= clst < nFatent
      modifies this, win
      ensures Valid() && Bytes() == old(Bytes()) && Held() == old(Held())
      ensures 4 * clst + 4 <= 2 * |Bytes()|
      ensures r == if Moves(old(Held()), FirstSector(Fat16, clst)) then Entry(Fat16, Bytes(), clst) else DISK_ERROR
    {
      hide Overlay, Entry, Word;
      HoldsEntry(kind, Bytes(), nFatent, clst);
      Digits16(Bytes(), clst);
      SameSector(2 * clst, 2);
      var ok := MoveWindow(clst / (SECTOR_SIZE / 2));
      if !ok { return DISK_ERROR; }
      var b0 := ByteAt(2 * clst);
      var b1 := ByteAt(2 * clst + 1);
      r := Word(b0, b1);
    }

    method GetLink32(clst: nat) returns (r: nat)
      requires Valid() && kind == Fat32 && 2 <= clst < nFatent
      modifies this, win
      ensures Valid() && Bytes() == old(Bytes()) && Held() == old(Held())
      ensures 8 * clst + 8 <= 2 * |Bytes()|
      ensures r == if Moves(old(Held()), FirstSector(Fat32, clst)) then Entry(Fat32, Bytes(), clst) else DISK_ERROR
    {
      hide Overlay, Entry, Dword;
      HoldsEntry(kind, Bytes(), nFatent, clst);
      Digits32(Bytes(), clst);
      SameSector(4 * clst, 4);
      var ok := MoveWindow(clst / (SECTOR_SIZE / 4));
      if !ok { return DISK_ERROR; }
      var b0 := ByteAt(4 * clst);
      var b1 := ByteAt(4 * clst + 1);
      var b2 := ByteAt(4 * clst + 2);
      var b3 := ByteAt(4 * clst + 3);
      r := Dword(b0, b1, b2, b3) % 0x1000_0000;
    }

    /** get_fat; v is what the table holds. */
    method GetFat(clst: nat, ghost v: Volume) returns (r: nat)
      requires Valid() && Models(v)
      modifies this, win
      ensures Valid() && Models(v) && Bytes() == old(Bytes()) && r == v.GetFat(clst)
    {
      hide Overlay, AllLinks, Entry, FirstSector;
      if clst < 2 || clst >= nFatent {
        LinkCount(kind, Bytes(), nFatent);
        return INTERNAL_ERROR;
      }
      LinkIsEntry(kind, Bytes(), nFatent, clst);
      match kind {
        case Fat12 => r := GetLink12(clst);
        case Fat16 => r := GetLink16(clst);
        case Fat32 => r := GetLink32(clst);
      }
    }

    /** The cases of put_fat. The entry is stored, or only its first byte because the window cannot go on to
        the second, or nothing because the window cannot go to the first. */
    method PutLink12(clst: nat, val: nat) returns (res: FResult)
      requires Valid() && kind == Fat12 && 2 <= clst < nFatent
      modifies this, win
      ensures Valid() && 3 * clst + 3 <= 2 * |Bytes()| == 2 * |old(Bytes())|
      ensures var first, second := FirstSector(Fat12, clst), SecondSector(Fat12, clst);
        if !Moves(old(Held()), first) then
          res == DiskErr && Bytes() == old(Bytes()) && winsect == old(winsect) && Held() == old(Held())
        else (
          && SameDigits(Bytes(), old(Bytes()), 3 * clst, 3 * clst + 3)
          && (if second != first && !Moves(Hold(first), second) then
                && res == DiskErr && winsect == first
                && Entry(Fat12, Bytes(), clst) == Torn(clst, Entry(Fat12, old(Bytes()), clst), val)
              else res == Ok && winsect == second && wflag && Entry(Fat12, Bytes(), clst) == Cut(Fat12, val)))
    {
      hide Overlay, Entry, SameDigits, Torn, Low12, High12;
      ghost var s := Bytes();
      HoldsEntry(kind, s, nFatent, clst);
      Digits12(s, clst);
      var bc := clst;
      bc := bc + bc / 2;
      var ok := MoveWindow(bc / SECTOR_SIZE);
      if !ok { return DiskErr; }
      var b := ByteAt(bc);
      StoreByte(bc, Low12(clst, b, val));
      ghost var s1 := Bytes();
      Torn12(s, s1, clst, val);
      bc := bc + 1;
      ok := MoveWindow(bc / SECTOR_SIZE);
      if !ok { return DiskErr; }
      b := ByteAt(bc);
      StoreByte(bc, High12(clst, b, val));
      Put12(s, Bytes(), clst, val);
      return Ok;
    }

    method PutLink16(clst: nat, val: nat) returns (res: FResult)
      requires Valid() && kind == Fat16 && 2 <= clst < nFatent
      modifies this, win
      ensures Valid() && 4 * clst + 4 <= 2 * |Bytes()| == 2 * |old(Bytes())|
      ensures if !Moves(old(Held()), FirstSector(Fat16, clst)) then
          res == DiskErr && Bytes() == old(Bytes()) && winsect == old(winsect) && Held() == old(Held())
        else (
          && SameDigits(Bytes(), old(Bytes()), 4 * clst, 4 * clst + 4)
          && res == Ok && winsect == FirstSector(Fat16, clst) && wflag
          && Entry(Fat16, Bytes(), clst) == Cut(Fat16, val))
    {
      hide Overlay, Entry, SameDigits;
      ghost var s := Bytes();
      HoldsEntry(kind, s, nFatent, clst);
      SameSector(2 * clst, 2);
      var ok := MoveWindow(clst / (SECTOR_SIZE / 2));
      if !ok { return DiskErr; }
      StoreByte(2 * clst, val % 0x100);
      StoreByte(2 * clst + 1, (val / 0x100) % 0x100);
      Put16(s, Bytes(), clst, val);
      return Ok;
    }

    /** ST_DWORD */
    method StoreDword(p: nat, x: nat)
      requires Valid() && p % 4 == 0 && p + 4 <= |disk| && winsect == p / SECTOR_SIZE && x < 0x1_0000_0000
      modifies win, `wflag
      ensures Valid() && wflag && |Bytes()| == |old(Bytes())|
      ensures Dword(Bytes()[p], Bytes()[p + 1], Bytes()[p + 2], Bytes()[p + 3]) == x
      ensures Bytes()[p + 3] == x / 0x100_0000
      ensures forall j :: 0 <= j < |Bytes()| && !(p <= j < p + 4) ==> Bytes()[j] == old(Bytes())[j]
    {
      hide Overlay, Dword;
      SameSector(p, 4);
      FourBytes(x);
      StoreByte(p, x % 0x100);
      StoreByte(p + 1, (x / 0x100) % 0x100);
      StoreByte(p + 2, (x / 0x1_0000) % 0x100);
      StoreByte(p + 3, (x / 0x100_0000) % 0x100);
    }

    method PutLink32(clst: nat, val: nat) returns (res: FResult)
      requires Valid() && kind == Fat32 && 2 <= clst < nFatent
      modifies this, win
      ensures Valid() && 8 * clst + 8 <= 2 * |Bytes()| == 2 * |old(Bytes())|
      ensures if !Moves(old(Held()), FirstSector(Fat32, clst)) then
          res == DiskErr && Bytes() == old(Bytes()) && winsect == old(winsect) && Held() == old(Held())
        else (
          && SameDigits(Bytes(), old(Bytes()), 8 * clst, 8 * clst + 8)
          && res == Ok && winsect == FirstSector(Fat32, clst) && wflag && Entry(Fat32, Bytes(), clst) == Cut(Fat32, val)
          && Nibble(Bytes(), 8 * clst + 7) == Or(val / 0x1000_0000, Nibble(old(Bytes()), 8 * clst + 7)))
    {
      hide Overlay, Entry, SameDigits, Dword, Or, KeepTop, Nibble;
      ghost var s := Bytes();
      HoldsEntry(kind, s, nFatent, clst);
      SameSector(4 * clst, 4);
      var ok := MoveWindow(clst / (SECTOR_SIZE / 4));
      if !ok { return DiskErr; }
      var p := 4 * clst;
      var old3 := ByteAt(p + 3);
      Join32(old3, val);
      StoreDword(p, KeepTop(old3, val));
      Put32(s, Bytes(), clst);
      HighNibble(s, p + 3);
      return Ok;
    }

    /** put_fat; v is what the table holds. A failed call marks the window as changed all the same, which
        matters only if it could not be moved to an entry that had not been read before. */
    method PutFat(clst: nat, val: nat, ghost v: Volume) returns (res: FResult)
      requires Valid() && Models(v)
      modifies this, win
      ensures Valid()
      ensures if v.InRange(clst) && v.held == NONE && v.First(clst) in v.unreadable then
          res == DiskErr && winsect == old(winsect) && Models(v.(held := v.Hold(winsect)))
        else (Models(v.PutFat(clst, val).0) && res == v.PutFat(clst, val).1)
      ensures v.InRange(clst) ==>
        && |Bytes()| == |old(Bytes())|
        && SameDigits(Bytes(), old(Bytes()), Stride(kind) * clst, Stride(kind) * clst + Stride(kind))
      ensures res == Ok && kind == Fat32 ==>
        && 8 * clst + 7 < 2 * |Bytes()| == 2 * |old(Bytes())|
        && Nibble(Bytes(), 8 * clst + 7) == Or(val / 0x1000_0000, Nibble(old(Bytes()), 8 * clst + 7))
        && (val < 0x1000_0000 ==> Nibble(Bytes(), 8 * clst + 7) == Nibble(old(Bytes()), 8 * clst + 7))
    {
      hide Overlay, AllLinks, Entry, FirstSector, SameDigits, Torn, Cut, Nibble, Or;
      LinkCount(kind, Bytes(), nFatent);
      if clst < 2 || clst >= nFatent {
        return IntErr;
      }
      ghost var s := Bytes();
      LinkIsEntry(kind, s, nFatent, clst);
      match kind {
        case Fat12 => res := PutLink12(clst, val);
        case Fat16 => res := PutLink16(clst, val);
        case Fat32 => res := PutLink32(clst, val);
      }
      wflag := true;
      if kind == Fat32 && val < 0x1000_0000 {
        OrNothing(val, Nibble(s, 8 * clst + 7));
      }
      ghost var e := Entry(kind, Bytes(), clst);
      SameDigitsRefl(s, Stride(kind) * clst, Stride(kind) * clst + Stride(kind));
      LinksUpdate(kind, s, Bytes(), nFatent, clst, e);
    }
  }

  lemma SameDigitsRefl(s: seq<Byte>, from: nat, to: nat)
    ensures SameDigits(s, s, from, to)
  {
  }

  lemma LinkCount(t: FatType, s: seq<Byte>, n: nat)
    requires Holds(t, s, n)
    ensures |AllLinks(t, s, n)| == n
  {
  }

  lemma LinkIsEntry(t: FatType, s: seq<Byte>, n: nat, c: nat)
    requires Holds(t, s, n) && c < n
    ensures Stride(t) * c + Stride(t) <= 2 * |s|
    ensures |AllLinks(t, s, n)| == n && AllLinks(t, s, n)[c] == Entry(t, s, c)
  {
    HoldsEntry(t, s, n, c);
  }

  lemma SectorIs(i: nat, q: nat, r: nat)
    requires i == SECTOR_SIZE * q + r && r < SECTOR_SIZE
    ensures i / SECTOR_SIZE == q
  {
  }

  /** An aligned group of n bytes lies in one sector. */
  lemma SameSector(i: nat, n: nat)
    requires n == 2 || n == 4
    requires i % n == 0
    ensures i / SECTOR_SIZE == (i / n) / (SECTOR_SIZE / n)
    ensures (i + 1) / SECTOR_SIZE == i / SECTOR_SIZE
    ensures n == 4 ==> (i + 2) / SECTOR_SIZE == (i + 3) / SECTOR_SIZE == i / SECTOR_SIZE
  {
    if n == 2 {
      SameSectorTwo(i / 2);
    } else {
      SameSectorFour(i / 4);
    }
  }

  lemma SameSectorTwo(j: nat)
    ensures (2 * j) / SECTOR_SIZE == (2 * j + 1) / SECTOR_SIZE == j / 256
  {
    var q, r := j / 256, j % 256;
    SectorIs(2 * j, q, 2 * r);
    SectorIs(2 * j + 1, q, 2 * r + 1);
  }

  lemma SameSectorFour(j: nat)
    ensures (4 * j) / SECTOR_SIZE == (4 * j + 1) / SECTOR_SIZE == (4 * j + 2) / SECTOR_SIZE == (4 * j + 3) / SECTOR_SIZE
         == j / 128
  {
    var q, r := j / 128, j % 128;
    SectorIs(4 * j, q, 4 * r);
    SectorIs(4 * j + 1, q, 4 * r + 1);
    SectorIs(4 * j + 2, q, 4 * r + 2);
    SectorIs(4 * j + 3, q, 4 * r + 3);
  }

  ghost function AllLinks(t: FatType, s: seq<Byte>, n: nat): (r: seq<nat>)
    requires Holds(t, s, n)
    ensures |r| == n
  {
    seq(n, c requires 0 <= c < n => HoldsEntry(t, s, n, c); Entry(t, s, c))
  }

  function Power16(n: nat): nat {
    if n == 0 then 1 else 16 * Power16(n - 1)
  }

  lemma {:induction false} NumberBound(s: seq<Byte>, i: nat, n: nat)
    requires i + n <= 2 * |s|
    ensures Number(s, i, n) < Power16(n)
    decreases n
  {
    if n > 0 {
      NumberBound(s, i + 1, n - 1);
    }
  }

  /** Whatever the bytes are, the links fit the width of the table, as Volume.Valid asks. */
  lemma LinksFit(t: FatType, s: seq<Byte>, n: nat)
    requires Holds(t, s, n)
    ensures forall c :: 0 <= c < n ==> AllLinks(t, s, n)[c] <= LastLink(t)
  {
    forall c | 0 <= c < n
      ensures AllLinks(t, s, n)[c] <= LastLink(t)
    {
      HoldsEntry(t, s, n, c);
      NumberBound(s, Stride(t) * c, Digits(t));
      assert Power16(3) == 0x1000 && Power16(4) == 0x1_0000 && Power16(7) == 0x1000_0000;
    }
  }

  /** The half bytes outside [from, to) are the same. */
  ghost predicate SameDigits(s: seq<Byte>, s': seq<Byte>, from: nat, to: nat) {
    |s| == |s'| && forall i: nat :: i < 2 * |s| && !(from <= i < to) ==> Nibble(s, i) == Nibble(s', i)
  }

  lemma {:induction false} NumberFrame(s: seq<Byte>, s': seq<Byte>, from: nat, to: nat, i: nat, n: nat)
    requires SameDigits(s, s', from, to) && i + n <= 2 * |s| && (i + n <= from || to <= i)
    ensures Number(s, i, n) == Number(s', i, n)
    decreases n
  {
    if n > 0 {
      NumberFrame(s, s', from, to, i + 1, n - 1);
    }
  }

  /** A table in which only the digits of entry c have changed. */
  lemma LinksUpdate(t: FatType, s: seq<Byte>, s': seq<Byte>, n: nat, c: nat, x: nat)
    requires Holds(t, s, n) && c < n && |s'| == |s| && Stride(t) * c + Stride(t) <= 2 * |s|
    requires SameDigits(s', s, Stride(t) * c, Stride(t) * c + Stride(t)) && Entry(t, s', c) == x
    ensures Holds(t, s', n) && AllLinks(t, s', n) == AllLinks(t, s, n)[c := x]
  {
    hide Number, SameDigits;
    forall d | 0 <= d < n
      ensures AllLinks(t, s', n)[d] == AllLinks(t, s, n)[c := x][d]
    {
      HoldsEntry(t, s, n, d);
      if d != c {
        EntriesApart(t, c, d);
        NumberFrame(s', s, Stride(t) * c, Stride(t) * c + Stride(t), Stride(t) * d, Digits(t));
      }
    }
  }

  lemma EntriesApart(t: FatType, c: nat, d: nat)
    requires d != c
    ensures Stride(t) * d + Stride(t) <= Stride(t) * c || Stride(t) * c + Stride(t) <= Stride(t) * d
  {
    match t
    case Fat12 =>
    case Fat16 =>
    case Fat32 =>
  }

  /** Digits are kept by keeping whole bytes, and the other half of a byte at an odd end. */
  lemma DigitsKept(s: seq<Byte>, s': seq<Byte>, from: nat, to: nat)
    requires |s'| == |s| && from < to <= 2 * |s|
    requires forall b :: 0 <= b < |s| && !(from / 2 <= b < (to + 1) / 2) ==> s'[b] == s[b]
    requires from % 2 == 1 ==> s'[from / 2] % 16 == s[from / 2] % 16
    requires to % 2 == 1 ==> s'[to / 2] / 16 == s[to / 2] / 16
    ensures SameDigits(s', s, from, to)
  {
    forall i: nat | i < 2 * |s| && !(from <= i < to)
      ensures Nibble(s', i) == Nibble(s, i)
    {
      if i < from {
        assert i / 2 < from / 2 || (from % 2 == 1 && i == from - 1);
      } else {
        assert i / 2 >= (to + 1) / 2 || (to % 2 == 1 && i == to);
      }
    }
  }

  /** What put_fat stores in the two bytes of a 12-bit entry: whole bytes and the other half of a shared one. */
  function Low12(c: nat, b: Byte, val: nat): Byte {
    if c % 2 == 1 then b % 16 + (val % 16) * 16 else val % 0x100
  }

  function High12(c: nat, b: Byte, val: nat): Byte {
    if c % 2 == 1 then (val / 16) % 0x100 else b / 16 * 16 + (val / 0x100) % 16
  }

  lemma Quotients12(val: nat)
    ensures var high := val / 0x1000;
      val / 16 % 0x100 == val / 16 - 0x100 * high && val / 0x100 % 16 == val / 0x100 - 16 * high
  {
    var y, z := val / 16, val / 0x100;
    assert y / 0x100 == val / 0x1000 && z / 16 == val / 0x1000;
    assert y == y % 0x100 + 0x100 * (y / 0x100) && z == z % 16 + 16 * (z / 16);
  }

  lemma Join12(c: nat, b0: Byte, b1: Byte, val: nat)
    ensures c % 2 == 1 ==> Word(Low12(c, b0, val), High12(c, b1, val)) / 16 == val % 0x1000
    ensures c % 2 == 0 ==> Word(Low12(c, b0, val), High12(c, b1, val)) % 0x1000 == val % 0x1000
    ensures if c % 2 == 1 then Low12(c, b0, val) % 16 == b0 % 16 else High12(c, b1, val) / 16 == b1 / 16
  {
    Quotients12(val);
    if c % 2 == 1 {
      Upper12(Low12(c, b0, val), High12(c, b1, val));
    } else {
      Lower12(Low12(c, b0, val), High12(c, b1, val));
    }
  }

  lemma Put12(s: seq<Byte>, s': seq<Byte>, c: nat, val: nat)
    requires 3 * c + 3 <= 2 * |s| && c + c / 2 + 1 < |s|
    requires var b := c + c / 2; s' == s[b := Low12(c, s[b], val)][b + 1 := High12(c, s[b + 1], val)]
    ensures Entry(Fat12, s', c) == val % 0x1000 && SameDigits(s', s, 3 * c, 3 * c + 3)
  {
    hide Entry, SameDigits, Word, Low12, High12;
    var b := c + c / 2;
    Digits12(s', c);
    assert 3 * c == 2 * b + c % 2;
    Join12(c, s[b], s[b + 1], val);
    DigitsKept(s, s', 3 * c, 3 * c + 3);
  }

  lemma JoinTornOdd(b0: Byte, b1: Byte, v: nat)
    requires v < 16
    ensures Word(b0 % 16 + v * 16, b1) / 16 == Word(b0, b1) / 16 / 16 * 16 + v
  {
    Upper12(b0, b1);
    Upper12(b0 % 16 + v * 16, b1);
    hide Word;
    var h := b0 / 16;
    assert (b0 % 16 + v * 16) / 16 == v;
    assert (h + 16 * b1) / 16 == b1;
  }

  lemma JoinTornEven(b0: Byte, b1: Byte, v: nat)
    requires v < 0x100
    ensures Word(v, b1) % 0x1000 == Word(b0, b1) % 0x1000 / 0x100 * 0x100 + v
  {
    Lower12(b0, b1);
    Lower12(v, b1);
    hide Word;
    var l := b1 % 16;
    assert (b0 + 0x100 * l) / 0x100 == l;
  }

  lemma JoinTorn(c: nat, b0: Byte, b1: Byte, val: nat)
    ensures c % 2 == 1 ==> Word(Low12(c, b0, val), b1) / 16 == Torn(c, Word(b0, b1) / 16, val)
    ensures c % 2 == 0 ==> Word(Low12(c, b0, val), b1) % 0x1000 == Torn(c, Word(b0, b1) % 0x1000, val)
    ensures c % 2 == 1 ==> Low12(c, b0, val) % 16 == b0 % 16
  {
    hide Word;
    if c % 2 == 1 {
      JoinTornOdd(b0, b1, val % 16);
    } else {
      JoinTornEven(b0, b1, val % 0x100);
    }
  }

  /** Only the first byte has been stored. */
  lemma Torn12(s: seq<Byte>, s': seq<Byte>, c: nat, val: nat)
    requires 3 * c + 3 <= 2 * |s| && c + c / 2 + 1 < |s|
    requires var b := c + c / 2; s' == s[b := Low12(c, s[b], val)]
    ensures Entry(Fat12, s', c) == Torn(c, Entry(Fat12, s, c), val) && SameDigits(s', s, 3 * c, 3 * c + 3)
  {
    hide Entry, SameDigits, Word, Torn, Low12;
    var b := c + c / 2;
    Digits12(s, c);
    Digits12(s', c);
    JoinTorn(c, s[b], s[b + 1], val);
    assert 3 * c == 2 * b + c % 2;
    DigitsKept(s, s', 3 * c, 3 * c + 3);
  }

  lemma Join16(val: nat)
    ensures Word(val % 0x100, (val / 0x100) % 0x100) == val % 0x1_0000
  {
    var y := val / 0x100;
    var z := y / 0x100;
    assert val == val % 0x100 + 0x100 * y && y == y % 0x100 + 0x100 * z;
    assert val == val % 0x100 + 0x100 * (y % 0x100) + 0x1_0000 * z;
  }

  lemma Put16(s: seq<Byte>, s': seq<Byte>, c: nat, val: nat)
    requires 4 * c + 4 <= 2 * |s|
    requires s' == s[2 * c := val % 0x100][2 * c + 1 := (val / 0x100) % 0x100]
    ensures Entry(Fat16, s', c) == val % 0x1_0000 && SameDigits(s', s, 4 * c, 4 * c + 4)
  {
    hide Entry, SameDigits;
    Digits16(s', c);
    Join16(val);
    DigitsKept(s, s', 4 * c, 4 * c + 4);
  }

  /** The bitwise or of numbers below p, a power of two. */
  function OrBelow(a: nat, b: nat, p: nat): (r: nat)
    ensures p > 0 ==> r < p
    decreases p
  {
    if p <= 1 then 0 else (if a % 2 == 1 || b % 2 == 1 then 1 else 0) + 2 * OrBelow(a / 2, b / 2, p / 2)
  }

  /** The bitwise or of two half bytes. */
  function Or(a: nat, b: nat): (r: nat)
    ensures r < 16
  {
    OrBelow(a, b, 16)
  }

  lemma {:induction false} OrBelowNothing(b: nat, p: nat)
    requires b < p && p in {1, 2, 4, 8, 16}
    ensures OrBelow(0, b, p) == b
    decreases p
  {
    if p > 1 {
      OrBelowNothing(b / 2, p / 2);
    }
  }

  /** Values of 28 bits leave the half byte alone. */
  lemma OrNothing(val: nat, b: nat)
    requires val < 0x1000_0000 && b < 16
    ensures Or(val / 0x1000_0000, b) == b
  {
    hide OrBelow;
    OrBelowNothing(b, 16);
  }

  /** val with the top four bits of the old entry or-ed in; old3 is the top byte of that entry. */
  function KeepTop(old3: Byte, val: nat): nat {
    val % 0x1000_0000 + 0x1000_0000 * Or(val / 0x1000_0000, (old3 as nat) / 16)
  }

  lemma QuotientTwice(x: nat)
    ensures x / 0x1_0000 == x / 0x100 / 0x100 && x / 0x100_0000 == x / 0x100 / 0x100 / 0x100
  {
  }

  lemma FourBytes(x: nat)
    requires x < 0x1_0000_0000
    ensures Dword(x % 0x100, (x / 0x100) % 0x100, (x / 0x1_0000) % 0x100, (x / 0x100_0000) % 0x100) == x
  {
    QuotientTwice(x);
    var y := x / 0x100;
    var z := y / 0x100;
    assert x == x % 0x100 + 0x100 * y && y == y % 0x100 + 0x100 * z && z == z % 0x100 + 0x100 * (z / 0x100);
  }

  lemma TopByte(low: nat, top: nat)
    requires low < 0x1000_0000
    ensures (low + 0x1000_0000 * top) / 0x100_0000 == low / 0x100_0000 + 16 * top
  {
  }

  lemma Join32(old3: Byte, val: nat)
    ensures var all := KeepTop(old3, val);
      && all < 0x1_0000_0000 && all % 0x1000_0000 == val % 0x1000_0000
      && all / 0x100_0000 / 16 == Or(val / 0x1000_0000, (old3 as nat) / 16)
  {
    hide Or;
    var low, top := val % 0x1000_0000, Or(val / 0x1000_0000, (old3 as nat) / 16);
    assert top < 16 by { OrIsSmall(val / 0x1000_0000, (old3 as nat) / 16); }
    Remainder28(low, top);
    TopByte(low, top);
  }

  lemma OrIsSmall(a: nat, b: nat)
    ensures Or(a, b) < 16
  {
  }

  lemma Put32(s: seq<Byte>, s': seq<Byte>, c: nat)
    requires 8 * c + 8 <= 2 * |s| && |s'| == |s|
    requires forall j :: 0 <= j < |s| && !(4 * c <= j < 4 * c + 4) ==> s'[j] == s[j]
    ensures var p := 4 * c;
      Entry(Fat32, s', c) == Dword(s'[p], s'[p + 1], s'[p + 2], s'[p + 3]) % 0x1000_0000
    ensures SameDigits(s', s, 8 * c, 8 * c + 8) && Nibble(s', 8 * c + 7) == s'[4 * c + 3] / 16
  {
    hide Entry, SameDigits, Dword;
    Digits32(s', c);
    DigitsKept(s, s', 8 * c, 8 * c + 8);
  }

  function Word(b0: Byte, b1: Byte): nat {
    b0 + 0x100 * b1
  }

  function Dword(b0: Byte, b1: Byte, b2: Byte, b3: Byte): nat {
    b0 + 0x100 * (b1 + 0x100 * (b2 + 0x100 * b3))
  }

  lemma OneDigit(s: seq<Byte>, i: nat, n: nat)
    requires i + n + 1 <= 2 * |s|
    ensures Number(s, i, n + 1) == Nibble(s, i) + 16 * Number(s, i + 1, n)
  {
  }

  lemma Odd12(s: seq<Byte>, b: nat)
    requires b + 1 < |s|
    ensures Number(s, 2 * b + 1, 3) == Word(s[b], s[b + 1]) / 16
  {
    hide Number, Nibble;
    OneDigit(s, 2 * b + 1, 2);
    TwoDigits(s, b + 1, 0);
    NoDigits(s);
    HighNibble(s, b);
    Upper12(s[b], s[b + 1]);
  }

  lemma Even12(s: seq<Byte>, b: nat)
    requires b + 1 < |s|
    ensures Number(s, 2 * b, 3) == Word(s[b], s[b + 1]) % 0x1000
  {
    hide Number, Nibble;
    TwoDigits(s, b, 1);
    OneDigit(s, 2 * b + 2, 0);
    NoDigits(s);
    LowNibble(s, b + 1);
    Lower12(s[b], s[b + 1]);
  }

  lemma Digits12(s: seq<Byte>, c: nat)
    requires 3 * c + 3 <= 2 * |s|
    ensures c + c / 2 + 1 < |s|
    ensures var b := c + c / 2;
      Entry(Fat12, s, c) == if c % 2 == 1 then Word(s[b], s[b + 1]) / 16 else Word(s[b], s[b + 1]) % 0x1000
  {
    hide Number, Word;
    var b := c + c / 2;
    assert 3 * c == 2 * b + c % 2;
    if c % 2 == 1 {
      Odd12(s, b);
    } else {
      Even12(s, b);
    }
  }

  lemma NoDigits(s: seq<Byte>)
    ensures forall i: nat :: i <= 2 * |s| ==> Number(s, i, 0) == 0
  {
  }

  lemma LowNibble(s: seq<Byte>, b: nat)
    requires b < |s|
    ensures Nibble(s, 2 * b) == s[b] % 16
  {
  }

  lemma HighNibble(s: seq<Byte>, b: nat)
    requires b < |s|
    ensures Nibble(s, 2 * b + 1) == s[b] / 16
  {
  }

  lemma Upper12(b0: Byte, b1: Byte)
    ensures Word(b0, b1) / 16 == b0 / 16 + 16 * b1
  {
  }

  lemma Lower12(b0: Byte, b1: Byte)
    ensures Word(b0, b1) % 0x1000 == b0 + 0x100 * (b1 % 16)
  {
  }

  lemma Remainder28(x: nat, q: nat)
    requires x < 0x1000_0000
    ensures (x + 0x1000_0000 * q) % 0x1000_0000 == x
  {
  }

  lemma Lower28(b0: Byte, b1: Byte, b2: Byte, b3: Byte)
    ensures Dword(b0, b1, b2, b3) % 0x1000_0000 == b0 + 0x100 * (b1 + 0x100 * (b2 + 0x100 * (b3 % 16)))
  {
    var low, top := b3 % 16, b3 / 16;
    assert b3 == low + 16 * top;
    Remainder28(b0 + 0x100 * (b1 + 0x100 * (b2 + 0x100 * low)), top);
  }

  lemma Digits16(s: seq<Byte>, c: nat)
    requires 4 * c + 4 <= 2 * |s|
    ensures Entry(Fat16, s, c) == Word(s[2 * c], s[2 * c + 1])
  {
    hide Number, Nibble;
    assert 4 * c == 2 * (2 * c);
    TwoDigits(s, 2 * c, 2);
    TwoDigits(s, 2 * c + 1, 0);
    NoDigits(s);
  }

  /** A byte contributes two digits. */
  lemma TwoDigits(s: seq<Byte>, b: nat, n: nat)
    requires 2 * b + 2 + n <= 2 * |s|
    ensures Number(s, 2 * b, n + 2) == s[b] + 0x100 * Number(s, 2 * b + 2, n)
  {
    assert Number(s, 2 * b, n + 2) == Nibble(s, 2 * b) + 16 * Number(s, 2 * b + 1, n + 1);
    assert Number(s, 2 * b + 1, n + 1) == Nibble(s, 2 * b + 1) + 16 * Number(s, 2 * b + 2, n);
  }

  lemma Digits32(s: seq<Byte>, c: nat)
    requires 8 * c + 8 <= 2 * |s|
    ensures var p := 4 * c;
      Entry(Fat32, s, c) == Dword(s[p], s[p + 1], s[p + 2], s[p + 3]) % 0x1000_0000
  {
    hide Number, Nibble;
    var p := 4 * c;
    TwoDigits(s, p, 5);
    TwoDigits(s, p + 1, 3);
    TwoDigits(s, p + 2, 1);
    OneDigit(s, 2 * (p + 3), 0);
    LowNibble(s, p + 3);
    NoDigits(s);
    Lower28(s[p], s[p + 1], s[p + 2], s[p + 3]);
  }
}
