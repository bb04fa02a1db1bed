/** The file allocation table at the level of cluster links: what one access, the freeing of
    a chain and the growth of a chain do to it. */
module Fat {

  const DISK_ERROR: nat := 0xFFFF_FFFF
  const INTERNAL_ERROR: nat := 1
  const UNKNOWN: nat := 0xFFFF_FFFF
  const DWORD: nat := 0x1_0000_0000
  const SECTOR_SIZE: nat := 512

  datatype FatType = Fat12 | Fat16 | Fat32

  /** The largest value of an entry; it marks the last link of a chain. */
  function LastLink(t: FatType): nat {
    match t
    case Fat12 => 0xFFF
    case Fat16 => 0xFFFF
    case Fat32 => 0xFFF_FFFF
  }

  /** A value cut to the width of an entry. */
  function Cut(t: FatType, val: nat): nat {
    val % (LastLink(t) + 1)
  }

  /** Entry c with value x after only its first byte has been written: 12-bit entries share bytes. */
  function Torn(c: nat, x: nat, val: nat): nat {
    if c % 2 == 1 then x / 0x10 * 0x10 + val % 0x10 else x / 0x100 * 0x100 + val % 0x100
  }

  lemma CutFits(t: FatType, val: nat)
    ensures Cut(t, val) <= LastLink(t) < DISK_ERROR
    ensures val <= LastLink(t) ==> Cut(t, val) == val
    ensures val == 0x0FFF_FFFF ==> Cut(t, val) == LastLink(t)
  {
  }

  lemma TornDigits(x: nat, val: nat, n: nat)
    requires n == 0x10 || n == 0x100
    ensures x / n * n + val % n == x - x % n + val % n
    ensures 0 < val <= x ==> x - x % n + val % n > 0
  {
  }

  lemma {:induction false} MultiplesApart(p: nat, q: nat, b: nat)
    requires p < q
    ensures p * b + b <= q * b
    decreases q
  {
    assert q * b == (q - 1) * b + b;
    if p < q - 1 {
      MultiplesApart(p, q - 1, b);
    }
  }

  lemma TornFits(t: FatType, c: nat, x: nat, val: nat)
    requires x <= LastLink(t)
    ensures Torn(c, x, val) <= LastLink(t)
    ensures val == 0x0FFF_FFFF || 0 < val <= x ==> Torn(c, x, val) != 0
  {
    var n := if c % 2 == 1 then 0x10 else 0x100;
    TornDigits(x, val, n);
    match t {
      case Fat12 => TornBound(x, val, n, 0x1000 / n);
      case Fat16 => TornBound(x, val, n, 0x1_0000 / n);
      case Fat32 => TornBound(x, val, n, 0x1000_0000 / n);
    }
  }

  lemma TornBound(x: nat, val: nat, n: nat, k: nat)
    requires n > 0 && x < k * n
    ensures x / n * n + val % n < k * n
  {
    QuotientBelow(x / n, n, k, x);
  }

  lemma QuotientBelow(q: nat, n: nat, k: nat, x: nat)
    requires q * n <= x < k * n
    ensures q * n + n <= k * n
  {
    if q < k {
      MultiplesApart(q, k, n);
    } else if k < q {
      MultiplesApart(k, q, n);
    }
  }

  /** FRESULT, as far as the functions modelled here return it. */
  datatype FResult = Ok | DiskErr | IntErr | Denied

  /** The table sector that holds the first byte of an entry, counted from the start of the table. */
  function FirstSector(t: FatType, c: nat): nat {
    match t
    case Fat12 => (c + c / 2) / SECTOR_SIZE
    case Fat16 => 2 * c / SECTOR_SIZE
    case Fat32 => 4 * c / SECTOR_SIZE
  }

  /** The sector of its second byte, or, for wider entries, the same sector. */
  function SecondSector(t: FatType, c: nat): nat {
    if t == Fat12 then (c + c / 2 + 1) / SECTOR_SIZE else FirstSector(t, c)
  }

  /** No sector. Sectors are numbered from the start of the table; others have numbers beyond its end or
      negative ones, which are greater than this. */
  const NONE: int := -0x1_0000_0000

  /** The allocation state of a volume. fat[c] is the entry of cluster c, 0 when it is free, as seen
      through the sector window. Some table sectors cannot be read, some cannot be written. held is
      the sector in the window if it has changes that cannot be written back, so that the window
      cannot be moved; otherwise NONE. */
  datatype Volume = Volume(
    kind: FatType,
    fat: seq<nat>,
    unreadable: set<int>,
    unwritable: set<int>,
    held: int,
    csize: nat,
    database: nat,
    lastClust: nat,
    freeClust: nat)
  {
    /** n_fatent */
    function N(): nat {
      |fat|
    }

    predicate InRange(c: nat) {
      2 <= c < N()
    }

    /** Every entry fits the width of the table. */
    ghost predicate EntriesFit() {
      forall c :: 0 <= c < N() ==> fat[c] <= LastLink(kind)
    }

    ghost predicate Valid() {
      && 2 <= N() <= LastLink(kind) && EntriesFit()
      && 0 < csize <= 128 && database > 0
      && database + N() * csize < DWORD
      && (held != NONE ==> held in unwritable && held !in unreadable)
    }

    function ClusterSize(): nat {
      csize * SECTOR_SIZE
    }

    /** The size of n clusters in bytes. */
    function Extent(n: nat): nat {
      n * ClusterSize()
    }

    function First(c: nat): int {
      FirstSector(kind, c)
    }

    function Second(c: nat): int {
      SecondSector(kind, c)
    }

    /** A window that holds sector h can be moved to sector s. */
    predicate Reaches(h: int, s: int) {
      if h != NONE then s == h else s !in unreadable
    }

    /** With a window that holds sector h, both bytes of entry c can be read. */
    predicate Accessible(h: int, c: nat) {
      Reaches(h, First(c)) && Reaches(h, Second(c))
    }

    /** What the window holds once it has changes in sector s. */
    function Hold(s: int): int {
      if s in unwritable then s else NONE
    }

    /** Writing entry c stops halfway: it lies in two sectors, and the first cannot be written back. */
    predicate Tears(c: nat) {
      Second(c) != First(c) && First(c) in unwritable
    }

    function GetFat(c: nat): nat {
      if !InRange(c) then INTERNAL_ERROR
      else if !Accessible(held, c) then DISK_ERROR
      else fat[c]
    }

    function Store(c: nat, val: nat): Volume
      requires c < N()
    {
      this.(fat := fat[c := Cut(kind, val)])
    }

    /** Only the first byte of a 12-bit entry is stored. */
    function Tear(c: nat, val: nat): Volume
      requires c < N()
    {
      this.(fat := fat[c := Torn(c, fat[c], val)])
    }

    function PutFat(c: nat, val: nat): (Volume, FResult) {
      if !InRange(c) then (this, IntErr)
      else if !Reaches(held, First(c)) then (this, DiskErr)
      else if Second(c) != First(c) && (First(c) in unwritable || Second(c) in unreadable) then
        (Tear(c, val).(held := Hold(First(c))), DiskErr)
      else (Store(c, val).(held := Hold(Second(c))), Ok)
    }

    /** clust2sect: the data area starts with cluster 2; 0 for a number that is not a cluster's. */
    function Clust2Sect(c: nat): (s: nat)
      ensures s == if 2 <= c < |fat| then database + (c - 2) * csize else 0
    {
      if InRange(c) then (c - 2) * csize + database else 0
    }
  }

  /** w is v after changes to entries and allocation hints only. */
  predicate SameShape(v: Volume, w: Volume) {
    w.N() == v.N() && w == v.(fat := w.fat, held := w.held, lastClust := w.lastClust, freeClust := w.freeClust)
  }

  /** The sector lies in this cluster. */
  predicate Covers(v: Volume, c: nat, sector: nat) {
    v.InRange(c) && v.Clust2Sect(c) <= sector < v.Clust2Sect(c) + v.csize
  }

  lemma CoversCase(v: Volume, c: nat, sector: nat)
    requires v.Valid()
    ensures Covers(v, c, sector) <==>
      && v.database <= sector && 2 <= c < v.N()
      && (c - 2) * v.csize <= sector - v.database < (c - 2) * v.csize + v.csize
  {
    assert c >= 2 ==> (c - 2) * v.csize >= 0;
  }

  lemma CoversOnce(v: Volume, c: nat, d: nat, sector: nat)
    requires v.Valid() && c < d
    ensures !(Covers(v, c, sector) && Covers(v, d, sector))
  {
    hide Covers;
    CoversCase(v, c, sector);
    CoversCase(v, d, sector);
    if c >= 2 {
      MultiplesApart(c - 2, d - 2, v.csize);
    }
  }

  /** The clusters tile the data area: each of its sectors lies in exactly one cluster, and no other sector
      lies in any. */
  lemma ClustersTile(v: Volume, sector: nat)
    requires v.Valid()
    ensures v.database <= sector < v.database + (v.N() - 2) * v.csize <==> exists c: nat :: Covers(v, c, sector)
    ensures forall c: nat, d: nat :: Covers(v, c, sector) && Covers(v, d, sector) ==> c == d
  {
    hide Covers;
    forall c: nat | Covers(v, c, sector)
      ensures v.database <= sector < v.database + (v.N() - 2) * v.csize
    {
      CoversCase(v, c, sector);
      MultiplesApart(c - 2, v.N() - 2, v.csize);
    }
    if v.database <= sector < v.database + (v.N() - 2) * v.csize {
      var c := ClusterOf(sector - v.database, v.csize, v.N() - 2);
      CoversCase(v, 2 + c, sector);
    }
    forall c: nat, d: nat | Covers(v, c, sector) && Covers(v, d, sector)
      ensures c == d
    {
      if c < d {
        CoversOnce(v, c, d, sector);
      } else if d < c {
        CoversOnce(v, d, c, sector);
      }
    }
  }

  lemma {:induction false} ClusterOf(s: nat, n: nat, count: nat) returns (q: nat)
    requires n > 0 && s < count * n
    ensures q < count && q * n <= s < q * n + n
  {
    if s < (count - 1) * n {
      q := ClusterOf(s, n, count - 1);
    } else {
      q := count - 1;
      assert count * n == q * n + n;
    }
  }

  /** The first cluster, the step from one to the next and the end of the last. */
  lemma ClustersInOrder(v: Volume, c: nat)
    requires v.Valid() && v.InRange(c)
    ensures v.Clust2Sect(2) == v.database
    ensures v.InRange(c + 1) ==> v.Clust2Sect(c + 1) == v.Clust2Sect(c) + v.csize
    ensures v.Clust2Sect(v.N() - 1) + v.csize == v.database + (v.N() - 2) * v.csize
  {
    assert (c - 1) * v.csize == (c - 2) * v.csize + v.csize;
    assert (v.N() - 2) * v.csize == (v.N() - 3) * v.csize + v.csize;
  }

  function Increment(count: nat): nat {
    if count == UNKNOWN then count else (count + 1) % DWORD
  }

  function Decrement(count: nat): nat {
    if count == UNKNOWN then count else (count + DWORD - 1) % DWORD
  }

  // --- Counting entries -------------------------------------------------------

  /** The number of zero entries. */
  function Zeros(s: seq<nat>): nat {
    if s == [] then 0 else Zeros(s[..|s| - 1]) + if s[|s| - 1] == 0 then 1 else 0
  }

  lemma {:induction false} ZerosUpdate(s: seq<nat>, i: nat, x: nat)
    requires i < |s|
    ensures Zeros(s[i := x]) == Zeros(s) - (if s[i] == 0 then 1 else 0) + (if x == 0 then 1 else 0)
  {
    var m := |s| - 1;
    if i < m {
      ZerosUpdate(s[..m], i, x);
      assert s[i := x][..m] == s[..m][i := x];
    } else {
      assert s[i := x][..m] == s[..m];
    }
  }

  lemma {:induction false} ZerosBound(s: seq<nat>)
    ensures Zeros(s) <= |s|
  {
    if s != [] {
      ZerosBound(s[..|s| - 1]);
    }
  }

  /** The number of entries in use bounds the length of every chain walk that frees as it goes. */
  ghost function Used(s: seq<nat>): nat {
    ZerosBound(s);
    |s| - Zeros(s)
  }

  /** free_clust, when known, is the number of free clusters. */
  ghost predicate CountRight(v: Volume)
    requires v.N() >= 2
  {
    v.freeClust != UNKNOWN ==> v.freeClust == Zeros(v.fat[2..])
  }

  // --- Single accesses --------------------------------------------------------

  /** After an entry has been read, writing it fails only by tearing it. */
  lemma PutAfterGet(v: Volume, c: nat, val: nat)
    requires v.Valid() && v.InRange(c) && v.Accessible(v.held, c)
    ensures var (w, res) := v.PutFat(c, val);
            if v.Tears(c) then w == v.Tear(c, val).(held := v.First(c)) && res == DiskErr
            else w == v.Store(c, val).(held := v.Hold(v.Second(c))) && res == Ok
  {
  }

  /** No access makes the volume invalid, not even one that fails halfway. */
  lemma PutKeepsValid(v: Volume, c: nat, val: nat)
    requires v.Valid()
    ensures v.PutFat(c, val).0.Valid()
  {
    hide Cut, Torn, FirstSector, SecondSector;
    if v.InRange(c) {
      CutFits(v.kind, val);
      TornFits(v.kind, c, v.fat[c], val);
    }
  }

  // --- remove_chain -------------------------------------------------------------

  lemma FreeUsesUp(v: Volume, c: nat)
    requires c < v.N() && v.fat[c] != 0
    ensures Used(v.Store(c, 0).fat) < Used(v.fat)
  {
    ZerosUpdate(v.fat, c, 0);
    ZerosBound(v.fat);
    ZerosBound(v.fat[c := 0]);
    CutFits(v.kind, 0);
  }

  /** The loop of remove_chain from cluster c on. */
  function FreeFrom(v: Volume, c: nat): (r: (Volume, FResult))
    requires 2 <= c
    ensures r.0.N() == v.N() && r.0 == v.(fat := r.0.fat, held := r.0.held, freeClust := r.0.freeClust)
    decreases Used(v.fat)
  {
    if c >= v.N() then (v, Ok) else
    var next := v.GetFat(c);
    if next == 0 then (v, Ok)
    else if next == INTERNAL_ERROR then (v, IntErr)
    else if next == DISK_ERROR then (v, DiskErr)
    else
      var (w, res) := v.PutFat(c, 0);
      if res != Ok then (w, res) else
      FreeUsesUp(v, c);
      FreeFrom(w.(freeClust := Increment(v.freeClust)), next)
  }

  /** v after the entry of cluster c has been freed. */
  function FreeOne(v: Volume, c: nat): Volume
    requires c < v.N()
  {
    v.Store(c, 0).(held := v.Hold(v.Second(c)), freeClust := Increment(v.freeClust))
  }

  /** One pass of the loop. */
  lemma FreeStep(v: Volume, c: nat)
    requires v.Valid() && v.InRange(c)
    ensures var next := v.GetFat(c);
      FreeFrom(v, c)
      == if next == 0 then (v, Ok) else if next == INTERNAL_ERROR then (v, IntErr)
         else if next == DISK_ERROR then (v, DiskErr)
         else if v.Tears(c) then (v.Tear(c, 0).(held := v.First(c)), DiskErr)
         else FreeFrom(FreeOne(v, c), next)
    ensures FreeOne(v, c).fat == v.fat[c := 0]
    ensures v.Accessible(v.held, c) ==> FreeOne(v, c).Valid() && v.Tear(c, 0).(held := v.Hold(v.First(c))).Valid()
    ensures v.GetFat(c) != 0 && v.fat[c] != 0 ==> Used(FreeOne(v, c).fat) < Used(v.fat)
  {
    hide Cut, Torn, FirstSector, SecondSector, Used;
    if v.fat[c] != 0 {
      FreeUsesUp(v, c);
    }
    CutFits(v.kind, 0);
    TornFits(v.kind, c, v.fat[c], 0);
    if v.Accessible(v.held, c) {
      PutAfterGet(v, c, 0);
    }
  }

  function RemoveChain(v: Volume, c: nat): (r: (Volume, FResult))
    ensures r.0.N() == v.N() && r.0 == v.(fat := r.0.fat, held := r.0.held, freeClust := r.0.freeClust)
  {
    if v.InRange(c) then FreeFrom(v, c) else (v, IntErr)
  }

  // --- create_chain -------------------------------------------------------------

  datatype Search = Found(c: nat) | Full | Failed(status: nat)

  /** How many clusters remain to be looked at after ncl, in a search that started at scl. */
  function Remaining(v: Volume, scl: nat, ncl: nat): int {
    if ncl >= scl then v.N() - ncl + scl else scl - ncl
  }

  /** The search loop of create_chain: forward from ncl, around the end, up to scl. */
  function FindFree(v: Volume, scl: nat, ncl: nat): (r: Search)
    requires 1 <= scl < v.N() && ncl < v.N() && (ncl >= scl || ncl >= 2)
    ensures r.Found? ==> v.InRange(r.c) && v.GetFat(r.c) == 0
    ensures r.Failed? ==> r.status == INTERNAL_ERROR || r.status == DISK_ERROR
    decreases Remaining(v, scl, ncl)
  {
    var wrap := ncl + 1 >= v.N();
    var next := if wrap then 2 else ncl + 1;
    if wrap && next > scl then Full else
    var cs := v.GetFat(next);
    if cs == 0 then Found(next)
    else if cs == DISK_ERROR || cs == INTERNAL_ERROR then Failed(cs)
    else if next == scl then Full
    else FindFree(v, scl, next)
  }

  /** The cluster before the first candidate when a new chain is created. */
  function Suggested(v: Volume): nat {
    if v.lastClust == 0 || v.lastClust >= v.N() then 1 else v.lastClust
  }

  function Status(res: FResult): nat {
    if res == DiskErr then DISK_ERROR else INTERNAL_ERROR
  }

  /** Marks the free cluster c as a last link, and links the chain's last cluster to it unless that is 0. */
  function Take(v: Volume, last: nat, c: nat): (r: (Volume, nat))
    ensures SameShape(v, r.0)
  {
    var (v1, res1) := v.PutFat(c, 0x0FFF_FFFF);
    if res1 != Ok then (v1, Status(res1)) else
    var (v2, res2) := if last == 0 then (v1, Ok) else v1.PutFat(last, c);
    if res2 != Ok then (v2, Status(res2)) else
    (v2.(lastClust := c, freeClust := Decrement(v.freeClust)), c)
  }

  function SearchAndTake(v: Volume, last: nat, scl: nat): (r: (Volume, nat))
    requires 1 <= scl < v.N()
    ensures SameShape(v, r.0)
  {
    match FindFree(v, scl, scl)
    case Full => (v, 0)
    case Failed(status) => (v, status)
    case Found(c) => Take(v, last, c)
  }

  /** create_chain: 0 no free cluster, 1 internal error, 0xFFFFFFFF disk error, else the new cluster. */
  function CreateChain(v: Volume, last: nat): (r: (Volume, nat))
    requires v.N() >= 2
    ensures SameShape(v, r.0)
  {
    if last == 0 then SearchAndTake(v, 0, Suggested(v)) else
    var cs := v.GetFat(last);
    if cs < 2 then (v, INTERNAL_ERROR)
    else if cs == DISK_ERROR then (v, DISK_ERROR)
    else if cs < v.N() then (v, cs)
    else SearchAndTake(v, last, last)
  }

  // --- What remove_chain does -----------------------------------------------

  /** cs is the cluster chain of a file: every cluster links to the next, the last one to none. */
  ghost predicate IsChain(v: Volume, cs: seq<nat>) {
    && cs != []
    && (forall i :: 0 <= i < |cs| ==> v.InRange(cs[i]))
    && (forall i :: 0 <= i < |cs| - 1 ==> v.fat[cs[i]] == cs[i + 1])
    && v.N() <= v.fat[cs[|cs| - 1]] < DISK_ERROR
  }

  lemma {:induction false} ChainIsDistinct(v: Volume, cs: seq<nat>, i: nat, j: nat)
    requires IsChain(v, cs) && i < j < |cs|
    ensures cs[i] != cs[j]
    decreases |cs| - j
  {
    assert v.fat[cs[i]] == cs[i + 1] && v.InRange(cs[i + 1]);
    if j + 1 < |cs| {
      assert v.fat[cs[j]] == cs[j + 1];
      ChainIsDistinct(v, cs, i + 1, j + 1);
    }
  }

  /** The entries of cs can be read and written one after the other. */
  ghost predicate Freeable(v: Volume, cs: seq<nat>) {
    && (cs != [] ==> v.Accessible(v.held, cs[0]))
    && (forall i :: 0 <= i < |cs| ==> !v.Tears(cs[i]))
    && (forall i :: 0 < i < |cs| ==> v.Accessible(v.Hold(v.Second(cs[i - 1])), cs[i]))
  }

  lemma FreeableFirst(v: Volume, cs: seq<nat>)
    requires cs != []
    ensures Freeable(v, cs) ==> v.Accessible(v.held, cs[0]) && !v.Tears(cs[0])
    ensures |cs| == 1 ==> (Freeable(v, cs) <==> v.Accessible(v.held, cs[0]) && !v.Tears(cs[0]))
  {
  }

  lemma FreeableStep(v: Volume, cs: seq<nat>, w: Volume)
    requires |cs| > 1 && w == v.(fat := w.fat, held := v.Hold(v.Second(cs[0])), freeClust := w.freeClust)
    ensures Freeable(v, cs) <==> v.Accessible(v.held, cs[0]) && !v.Tears(cs[0]) && Freeable(w, cs[1..])
  {
    var rest := cs[1..];
    assert forall i :: 0 <= i < |rest| ==> rest[i] == cs[i + 1];
    if v.Accessible(v.held, cs[0]) && !v.Tears(cs[0]) && Freeable(w, rest) {
      forall i | 0 <= i < |cs| ensures !v.Tears(cs[i]) {
        assert i > 0 ==> cs[i] == rest[i - 1];
      }
      forall i | 0 < i < |cs| ensures v.Accessible(v.Hold(v.Second(cs[i - 1])), cs[i]) {
        assert cs[i] == rest[i - 1];
        assert i > 1 ==> cs[i - 1] == rest[i - 2];
      }
    }
    if Freeable(v, cs) {
      assert v.Accessible(v.Hold(v.Second(cs[1 - 1])), cs[1]);
      forall i | 0 < i < |rest| ensures w.Accessible(w.Hold(w.Second(rest[i - 1])), rest[i]) {
        assert v.Accessible(v.Hold(v.Second(cs[i + 1 - 1])), cs[i + 1]);
      }
    }
  }

  /** A table in which the entries of cs are free. */
  ghost function Zeroed(s: seq<nat>, cs: seq<nat>): seq<nat> {
    seq(|s|, i requires 0 <= i < |s| => if i in cs then 0 else s[i])
  }

  lemma ZeroedStep(s: seq<nat>, cs: seq<nat>)
    requires cs != [] && cs[0] < |s|
    ensures Zeroed(s[cs[0] := 0], cs[1..]) == Zeroed(s, cs)
    ensures |cs| == 1 ==> Zeroed(s, cs) == s[cs[0] := 0]
  {
    assert cs == [cs[0]] + cs[1..];
  }

  lemma ChainRest(v: Volume, cs: seq<nat>)
    requires v.Valid() && IsChain(v, cs) && |cs| > 1
    ensures v.InRange(cs[0]) && IsChain(FreeOne(v, cs[0]), cs[1..]) && v.fat[cs[0]] == cs[1]
  {
    hide FirstSector, SecondSector;
    var rest := cs[1..];
    forall i | 0 <= i < |rest| ensures rest[i] != cs[0] {
      ChainIsDistinct(v, cs, 0, i + 1);
    }
    CutFits(v.kind, 0);
    assert forall i :: 0 <= i < |rest| ==> rest[i] == cs[i + 1];
  }

  /** Freeing a chain succeeds exactly when its entries can be read and written in this order; then it
      zeroes them and no other. */
  lemma {:induction false} FreeChain(v: Volume, cs: seq<nat>)
    requires v.Valid() && IsChain(v, cs)
    ensures FreeFrom(v, cs[0]).1 == Ok <==> Freeable(v, cs)
    ensures FreeFrom(v, cs[0]).1 == Ok ==> FreeFrom(v, cs[0]).0.fat == Zeroed(v.fat, cs)
    decreases |cs|
  {
    hide FreeFrom, Freeable, Zeroed, IsChain, Volume.Accessible, Volume.Tears;
    ChainFirst(v, cs);
    var c := cs[0];
    FreeStep(v, c);
    FreeableFirst(v, cs);
    if v.Accessible(v.held, c) && !v.Tears(c) {
      ZeroedStep(v.fat, cs);
      if |cs| > 1 {
        ChainRest(v, cs);
        FreeableStep(v, cs, FreeOne(v, c));
        FreeChain(FreeOne(v, c), cs[1..]);
      } else {
        FreeFromEnd(FreeOne(v, c), v.fat[c]);
      }
    }
  }

  lemma ChainFirst(v: Volume, cs: seq<nat>)
    requires v.Valid() && IsChain(v, cs)
    ensures cs != [] && v.InRange(cs[0]) && 2 <= v.fat[cs[0]] < DISK_ERROR
    ensures |cs| == 1 ==> v.N() <= v.fat[cs[0]]
  {
    if |cs| > 1 {
      assert v.fat[cs[0]] == cs[1] && v.InRange(cs[1]);
    }
  }

  lemma FreeFromEnd(v: Volume, c: nat)
    requires 2 <= c && c >= v.N()
    ensures FreeFrom(v, c) == (v, Ok)
  {
  }

  /** cs are different clusters, each linked to the next, and the last one to e. */
  ghost predicate IsPath(v: Volume, cs: seq<nat>, e: nat) {
    && cs != []
    && (forall i :: 0 <= i < |cs| ==> v.InRange(cs[i]))
    && (forall i, j :: 0 <= i < j < |cs| ==> cs[i] != cs[j])
    && (forall i :: 0 <= i < |cs| - 1 ==> v.fat[cs[i]] == cs[i + 1])
    && v.fat[cs[|cs| - 1]] == e
  }

  /** v after the entries of cs have been freed one after the other. */
  ghost function FreedAlong(v: Volume, cs: seq<nat>): Volume
    requires forall c :: c in cs ==> v.InRange(c)
    decreases |cs|
  {
    if cs == [] then v else
    assert v.InRange(cs[0]) && forall d :: d in cs[1..] ==> v.InRange(d);
    FreedAlong(FreeOne(v, cs[0]), cs[1..])
  }

  lemma PathRest(v: Volume, cs: seq<nat>, e: nat)
    requires v.Valid() && IsPath(v, cs, e) && |cs| > 1
    ensures v.InRange(cs[0]) && v.fat[cs[0]] == cs[1] && IsPath(FreeOne(v, cs[0]), cs[1..], e)
  {
    hide FirstSector, SecondSector;
    var rest := cs[1..];
    CutFits(v.kind, 0);
    assert forall i :: 0 <= i < |rest| ==> rest[i] == cs[i + 1];
  }

  /** Freeing along a path either fails on the way, or has freed it and goes on where it leads. */
  lemma {:induction false} FreePath(v: Volume, cs: seq<nat>, e: nat)
    requires v.Valid() && IsPath(v, cs, e) && 2 <= e
    ensures if Freeable(v, cs) then
        var w := FreedAlong(v, cs);
        && w.Valid() && w.fat == Zeroed(v.fat, cs) && w == v.(fat := w.fat, held := w.held, freeClust := w.freeClust)
        && FreeFrom(v, cs[0]) == FreeFrom(w, e)
      else FreeFrom(v, cs[0]).1 == DiskErr
    decreases |cs|
  {
    hide FreeFrom, Freeable, Zeroed, IsPath, Volume.Accessible, Volume.Tears;
    PathFirst(v, cs, e);
    var c := cs[0];
    FreeStep(v, c);
    FreeableFirst(v, cs);
    if v.Accessible(v.held, c) && !v.Tears(c) {
      ZeroedStep(v.fat, cs);
      if |cs| > 1 {
        PathRest(v, cs, e);
        FreeableStep(v, cs, FreeOne(v, c));
        FreePath(FreeOne(v, c), cs[1..], e);
      } else {
        assert FreedAlong(v, cs) == FreedAlong(FreeOne(v, c), cs[1..]) == FreeOne(v, c);
      }
    }
  }

  lemma PathFirst(v: Volume, cs: seq<nat>, e: nat)
    requires v.Valid() && IsPath(v, cs, e) && e >= 2
    ensures cs != [] && forall i :: 0 <= i < |cs| ==> v.InRange(cs[i])
    ensures 2 <= v.fat[cs[0]] < DISK_ERROR
    ensures |cs| == 1 ==> v.fat[cs[0]] == e
  {
    CutFits(v.kind, 0);
    if |cs| > 1 {
      assert v.fat[cs[0]] == cs[1] && v.InRange(cs[1]);
    }
  }

  /** remove_chain on any chain, intact or not, that can be read and written up to cluster e, to which it
      leads behind cs. It succeeds at the end of the table entries, at a free cluster, and where the chain
      has come back to one of its own clusters, which is free by then; it stops before an entry that holds
      1 or cannot be read. In each case exactly the clusters of cs have been freed. */
  lemma RemovePath(v: Volume, cs: seq<nat>, e: nat)
    requires v.Valid() && IsPath(v, cs, e) && 2 <= e && Freeable(v, cs)
    requires v.InRange(e) && e !in cs ==> v.fat[e] <= 1 || !FreedAlong(v, cs).Accessible(FreedAlong(v, cs).held, e)
    ensures var (w, res) := RemoveChain(v, cs[0]);
      && w.fat == Zeroed(v.fat, cs)
      && res == if e >= v.N() then Ok
                else if !w.Accessible(w.held, e) then DiskErr
                else if e in cs || v.fat[e] == 0 then Ok
                else IntErr
  {
    hide Freeable, Volume.Accessible;
    CutFits(v.kind, 0);
    FreePath(v, cs, e);
    var w := FreedAlong(v, cs);
    if e < v.N() {
      FreeStep(w, e);
    } else {
      FreeFromEnd(w, e);
    }
  }

  lemma RemoveNothing(v: Volume, c: nat)
    requires c < 2 || c >= v.N()
    ensures RemoveChain(v, c) == (v, IntErr)
  {
  }

  /** S is closed when no entry outside it links into it. */
  ghost predicate Closed(v: Volume, S: set<nat>) {
    forall c: nat :: v.InRange(c) && c !in S ==> v.fat[c] !in S
  }

  ghost predicate SameOn(v: Volume, w: Volume, S: set<nat>) {
    v.N() == w.N() && forall c :: c in S && c < v.N() ==> w.fat[c] == v.fat[c]
  }

  /** Whatever the table holds and whatever fails, freeing from a cluster outside a closed set leaves
      the set alone, and an entry it changes is 0 or was torn. */
  lemma {:induction false} FreeFromFrame(v: Volume, c: nat, S: set<nat>)
    requires v.Valid() && 2 <= c && c !in S && Closed(v, S) && 0 !in S
    ensures var (w, res) := FreeFrom(v, c);
            && w.Valid() && SameOn(v, w, S)
            && w == v.(fat := w.fat, held := w.held, freeClust := w.freeClust)
            && (forall i :: 0 <= i < v.N() && w.fat[i] != v.fat[i] ==> w.fat[i] == 0 || (res == DiskErr && v.Tears(i)))
    decreases Used(v.fat)
  {
    hide FreeFrom, Used, Cut, Torn, FirstSector, SecondSector;
    if c < v.N() {
      var next := v.GetFat(c);
      FreeStep(v, c);
      if next != 0 && next != INTERNAL_ERROR && next != DISK_ERROR && !v.Tears(c) {
        FreeFromFrame(FreeOne(v, c), next, S);
      }
    } else {
      FreeFromEnd(v, c);
    }
  }

  /** Writing tears no entry. */
  ghost predicate Whole(v: Volume) {
    forall i: nat :: v.InRange(i) ==> !v.Tears(i)
  }

  lemma WholeStays(v: Volume, w: Volume)
    requires SameShape(v, w)
    ensures Whole(v) <==> Whole(w)
  {
    assert forall i: nat :: v.Tears(i) <==> w.Tears(i);
  }

  /** Freeing keeps the volume valid, and the count of free clusters right unless it tears an entry. */
  lemma {:induction false} FreeFromCount(v: Volume, c: nat)
    requires 2 <= c && v.Valid()
    ensures var (w, res) := FreeFrom(v, c);
            && w.Valid()
            && (CountRight(v) && (res == Ok || Whole(v)) ==> CountRight(w))
    decreases Used(v.fat)
  {
    hide FreeFrom, Used, Cut, Torn, FirstSector, SecondSector;
    if c < v.N() {
      var next := v.GetFat(c);
      FreeStep(v, c);
      if next != 0 && next != INTERNAL_ERROR && next != DISK_ERROR && !v.Tears(c) {
        FreeOneCount(v, c);
        WholeStays(v, FreeOne(v, c));
        FreeFromCount(FreeOne(v, c), next);
      }
    } else {
      FreeFromEnd(v, c);
    }
  }

  lemma FreeOneCount(v: Volume, c: nat)
    requires v.Valid() && v.InRange(c) && v.fat[c] != 0
    ensures CountRight(v) ==> CountRight(FreeOne(v, c))
  {
    hide Volume.Hold, Volume.Second, FirstSector, SecondSector, Zeros;
    StoreCount(v, c, 0);
    ZerosBound(v.fat[2..]);
    ZerosBound(v.fat[c := 0][2..]);
  }

  lemma StoreCount(v: Volume, c: nat, x: nat)
    requires v.InRange(c)
    ensures Zeros(v.fat[c := x][2..])
         == Zeros(v.fat[2..]) - (if v.fat[c] == 0 then 1 else 0) + (if x == 0 then 1 else 0)
  {
    assert v.fat[c := x][2..] == v.fat[2..][c - 2 := x];
    ZerosUpdate(v.fat[2..], c - 2, x);
  }

  // --- What create_chain does ---------------------------------------------------

  /** c is still to be looked at by a search that is at ncl. */
  predicate Ahead(v: Volume, scl: nat, ncl: nat, c: nat) {
    if ncl >= scl then ncl < c < v.N() || 2 <= c <= scl else ncl < c <= scl
  }

  /** The order in which the search meets c, as a distance from ncl. */
  function Distance(v: Volume, ncl: nat, c: nat): int {
    if c > ncl then c - ncl else v.N() - ncl + c
  }

  /** The search goes on behind a cluster with this status. */
  predicate PassesOver(status: nat) {
    status !in {0, INTERNAL_ERROR, DISK_ERROR}
  }

  /** A search at ncl has passed over everything that it meets before c. */
  ghost predicate PassedOver(v: Volume, scl: nat, ncl: nat, c: nat) {
    forall d: nat :: Ahead(v, scl, ncl, d) && Distance(v, ncl, d) < Distance(v, ncl, c) ==> PassesOver(v.GetFat(d))
  }

  lemma PassedStep(v: Volume, scl: nat, ncl: nat, c: nat)
    requires 1 <= scl < v.N() && ncl < v.N() && (ncl >= scl || ncl >= 2)
    ensures var wrap := ncl + 1 >= v.N();
      var next := if wrap then 2 else ncl + 1;
      && (!(wrap && next > scl) ==> Ahead(v, scl, ncl, next) && PassedOver(v, scl, ncl, next))
      && ((!(wrap && next > scl) && next != scl && PassesOver(v.GetFat(next))
           && Ahead(v, scl, next, c) && PassedOver(v, scl, next, c)) ==>
            Ahead(v, scl, ncl, c) && PassedOver(v, scl, ncl, c))
  {
    hide Volume.GetFat;
  }

  /** The search meets the clusters in cyclic order, stops at the first that is free, damaged or unreadable,
      and reports a full volume only if every cluster it should look at is in use. */
  lemma {:induction false} FindFreeIsFirst(v: Volume, scl: nat, ncl: nat)
    requires 1 <= scl < v.N() && ncl < v.N() && (ncl >= scl || ncl >= 2)
    ensures var r := FindFree(v, scl, ncl);
            && (r.Found? ==> Ahead(v, scl, ncl, r.c) && PassedOver(v, scl, ncl, r.c))
            && (r == Full ==> forall c :: Ahead(v, scl, ncl, c) ==> PassesOver(v.GetFat(c)))
            && (r.Failed? ==> exists c :: Ahead(v, scl, ncl, c) && v.GetFat(c) == r.status
                                          && PassedOver(v, scl, ncl, c))
    decreases Remaining(v, scl, ncl)
  {
    hide Volume.GetFat, PassedOver;
    var wrap := ncl + 1 >= v.N();
    var next := if wrap then 2 else ncl + 1;
    if !(wrap && next > scl) {
      PassedStep(v, scl, ncl, next);
      var cs := v.GetFat(next);
      if PassesOver(cs) && next != scl {
        FindFreeIsFirst(v, scl, next);
        var r := FindFree(v, scl, next);
        if r.Found? {
          PassedStep(v, scl, ncl, r.c);
        } else if r.Failed? {
          var c :| Ahead(v, scl, next, c) && v.GetFat(c) == r.status && PassedOver(v, scl, next, c);
          PassedStep(v, scl, ncl, c);
        }
      }
    }
  }

  /** A new chain takes the first free cluster behind the last one allocated, or the lowest of all when that
      is not known; then nothing that it passed over was free. */
  lemma NewChainPlace(v: Volume)
    requires v.Valid() && v.InRange(CreateChain(v, 0).1)
    ensures var c, hint := CreateChain(v, 0).1, v.lastClust;
      && v.GetFat(c) == 0
      && (hint == 0 || hint >= v.N() ==> forall d :: 2 <= d < c ==> v.GetFat(d) != 0)
      && (0 < hint < v.N() && c > hint ==> forall d :: hint < d < c ==> v.GetFat(d) != 0)
      && (0 < hint < v.N() && c <= hint ==>
            && (forall d :: hint < d < v.N() ==> v.GetFat(d) != 0)
            && (forall d :: 2 <= d < c ==> v.GetFat(d) != 0))
  {
    hide Take, Volume.Accessible;
    var scl := Suggested(v);
    FindFreeIsFirst(v, scl, scl);
    var r := FindFree(v, scl, scl);
    if r.Found? {
      TakeResult(v, 0, r.c);
      forall d: nat | v.InRange(d) && Ahead(v, scl, scl, d) && Distance(v, scl, d) < Distance(v, scl, r.c)
        ensures v.GetFat(d) != 0
      {
      }
    }
  }

  /** create_chain says that the volume is full only if no cluster is free. */
  lemma FullMeansFull(v: Volume, last: nat)
    requires v.Valid() && CreateChain(v, last).1 == 0
    ensures forall c :: v.InRange(c) ==> v.GetFat(c) != 0
  {
    var scl := if last == 0 then Suggested(v) else last;
    FindFreeIsFirst(v, scl, scl);
    forall c | v.InRange(c) ensures v.GetFat(c) != 0 {
      assert Ahead(v, scl, scl, c);
    }
  }

  /** create_chain loses the free cluster c, which is marked in use but in no chain: it tears the entry,
      or the entry of the chain's last cluster, or it cannot leave the sector of c for that entry. */
  ghost predicate Leaks(v: Volume, last: nat, c: nat) {
    || v.Tears(c)
    || (last != 0 && (v.Tears(last) || (v.Second(c) in v.unwritable && v.First(last) != v.Second(c))))
  }

  /** Taking a free cluster: exactly when it works, and what else happens to that cluster. */
  lemma TakeResult(v: Volume, last: nat, c: nat)
    requires v.Valid() && v.InRange(c) && v.GetFat(c) == 0
    requires last == 0 || (v.InRange(last) && v.N() <= v.GetFat(last) != DISK_ERROR)
    ensures var (w, r) := Take(v, last, c);
      && w.Valid() && w.fat[c] != 0
      && (if Leaks(v, last, c) then r == DISK_ERROR && w.freeClust == v.freeClust
          else r == c && w.freeClust == Decrement(v.freeClust) && w.lastClust == c)
  {
    hide Cut, Torn, FirstSector, SecondSector;
    PutAfterGet(v, c, 0x0FFF_FFFF);
    PutKeepsValid(v, c, 0x0FFF_FFFF);
    CutFits(v.kind, 0x0FFF_FFFF);
    TornFits(v.kind, c, v.fat[c], 0x0FFF_FFFF);
    if last != 0 {
      PutKeepsValid(v.PutFat(c, 0x0FFF_FFFF).0, last, c);
    }
  }

  /** Except for the cluster taken, no entry becomes free or stops being so. */
  lemma TakeZeros(v: Volume, last: nat, c: nat)
    requires v.Valid() && v.InRange(c) && v.GetFat(c) == 0
    requires last == 0 || (v.InRange(last) && v.N() <= v.GetFat(last) != DISK_ERROR)
    ensures Zeros(Take(v, last, c).0.fat[2..]) == Zeros(v.fat[2..]) - 1
  {
    hide Zeros, Take;
    TakeUpdates(v, last, c);
    var w := Take(v, last, c).0;
    StoreCount(v, c, w.fat[c]);
    if last != 0 {
      var s := v.(fat := v.fat[c := w.fat[c]]);
      StoreCount(s, last, w.fat[last]);
    }
  }

  /** Taking a cluster changes its entry and that of the chain's last cluster, neither to 0. */
  lemma TakeUpdates(v: Volume, last: nat, c: nat)
    requires v.Valid() && v.InRange(c) && v.GetFat(c) == 0
    requires last == 0 || (v.InRange(last) && v.N() <= v.GetFat(last) != DISK_ERROR)
    ensures var w := Take(v, last, c).0;
      && |w.fat| == |v.fat| && w.fat[c] != 0
      && (last == 0 ==> w.fat == v.fat[c := w.fat[c]])
      && (last != 0 ==> w.fat[last] != 0 && w.fat == v.fat[c := w.fat[c]][last := w.fat[last]])
  {
    hide Cut, Torn, FirstSector, SecondSector;
    PutAfterGet(v, c, 0x0FFF_FFFF);
    CutFits(v.kind, 0x0FFF_FFFF);
    TornFits(v.kind, c, v.fat[c], 0x0FFF_FFFF);
    if last != 0 {
      CutFits(v.kind, c);
      TornFits(v.kind, last, v.fat[last], c);
    }
  }

  lemma TakeCount(v: Volume, last: nat, c: nat)
    requires v.Valid() && CountRight(v) && v.InRange(c) && v.GetFat(c) == 0
    requires last == 0 || (v.InRange(last) && v.N() <= v.GetFat(last) != DISK_ERROR)
    ensures CountRight(Take(v, last, c).0) <==> v.freeClust == UNKNOWN || !Leaks(v, last, c)
  {
    hide Take, Leaks;
    TakeResult(v, last, c);
    TakeZeros(v, last, c);
    ZerosBound(v.fat[2..]);
  }

  /** The chain ends at last, so create_chain has to find a cluster; scl is where it starts. */
  ghost predicate Searches(v: Volume, last: nat, scl: nat) {
    && 1 <= scl < v.N() && scl == (if last == 0 then Suggested(v) else last)
    && (last == 0 || (v.InRange(last) && v.N() <= v.GetFat(last) != DISK_ERROR))
  }

  /** Growing a chain keeps the volume valid; it keeps the count of free clusters right unless it
      finds a cluster that it cannot link, which is lost. */
  lemma CreateChainCount(v: Volume, last: nat)
    requires v.Valid()
    ensures CreateChain(v, last).0.Valid()
    ensures CountRight(v) ==>
      (CountRight(CreateChain(v, last).0) <==>
            !exists scl :: Searches(v, last, scl) && FindFree(v, scl, scl).Found?
                        && Leaks(v, last, FindFree(v, scl, scl).c) && v.freeClust != UNKNOWN)
  {
    hide Take, Leaks;
    var scl := if last == 0 then Suggested(v) else last;
    if Searches(v, last, scl) {
      var r := FindFree(v, scl, scl);
      if r.Found? {
        TakeResult(v, last, r.c);
        if CountRight(v) {
          TakeCount(v, last, r.c);
        }
      }
    }
  }

  // --- One write fault, in two places ----------------------------------------

  /** A volume on which cluster 300 alone is free, with some unwritable sectors. */
  ghost function NearlyFull(unwritable: set<int>): Volume {
    var fat := seq(400, i => if i == 300 then 0 else 0xFFFF);
    Volume(Fat16, fat, {}, unwritable, NONE, 1, 100, UNKNOWN, Zeros(fat[2..]))
  }

  lemma NearlyFullSearch(unwritable: set<int>)
    ensures var v := NearlyFull(unwritable);
      && v.Valid() && CountRight(v) && v.freeClust != UNKNOWN
      && v.GetFat(100) == 0xFFFF && v.GetFat(300) == 0 && FindFree(v, 100, 100) == Found(300)
  {
    var v := NearlyFull(unwritable);
    ZerosBound(v.fat[2..]);
    FindFreeIsFirst(v, 100, 100);
    assert Ahead(v, 100, 100, 300);
    assert forall c: nat :: v.InRange(c) && c != 300 ==> v.GetFat(c) == 0xFFFF;
  }

  /** If the sector of the new cluster cannot be written, the cluster is lost. */
  lemma LosesCluster()
    ensures var v, (w, r) := NearlyFull({1}), CreateChain(NearlyFull({1}), 100);
      r == DISK_ERROR && w.fat[300] != 0 && w.fat[100] == v.fat[100] && CountRight(v) && !CountRight(w)
  {
    hide Zeros, FindFree;
    var v := NearlyFull({1});
    NearlyFullSearch({1});
    TakeResult(v, 100, 300);
    TakeCount(v, 100, 300);
    PutAfterGet(v, 300, 0x0FFF_FFFF);
  }

  /** If instead the sector of the chain's end cannot be written, the chain grows all the same. */
  lemma KeepsCluster()
    ensures var v, (w, r) := NearlyFull({0}), CreateChain(NearlyFull({0}), 100);
      r == 300 && w.fat[100] == 300 && w.held == 0 && CountRight(v) && CountRight(w)
  {
    hide Zeros, FindFree, Torn;
    var v := NearlyFull({0});
    NearlyFullSearch({0});
    TakeResult(v, 100, 300);
    TakeCount(v, 100, 300);
  }
}
