/** What the disk checker's verdict says about a drive. */
module DiskVerdicts {
  import opened Counting
  import opened Divisors
  import opened LfsrPeriod
  import opened Pattern
  import opened DiskChecker

  // --- Drives that map every LBA to a slot ----------------------------------

  type Store = map<nat, seq<Byte>>

  function Sector(store: Store, slot: nat, ss: nat): (s: seq<Byte>)
    ensures |s| == ss
  {
    Fit(if slot in store then store[slot] else [], ss)
  }

  /** Consecutive sectors are written in order, each to the slot of its LBA. */
  function Put(store: Store, phys: nat -> nat, lba: nat, data: seq<Byte>, ss: nat): Store
    decreases |data|
  {
    if ss == 0 || |data| < ss then store
    else Put(store[phys(lba) := data[..ss]], phys, lba + 1, data[ss..], ss)
  }

  function Get(store: Store, phys: nat -> nat, lba: nat, count: nat, ss: nat): seq<Byte>
    decreases count
  {
    if ss == 0 || count < ss then []
    else Sector(store, phys(lba), ss) + Get(store, phys, lba + 1, count - ss, ss)
  }

  /** A drive without errors that keeps LBA x in slot phys(x); it is faithful when phys is injective. */
  function Mapped(phys: nat -> nat, size: nat, ss: nat): Device<Store> {
    (store: Store, r: Request) =>
      match r
      case SectorCount => (store, Reply(true, size, []))
      case Write(lba, data) => (Put(store, phys, lba, data, ss), Reply(true, 0, []))
      case Read(lba, count) => (store, Reply(true, 0, Get(store, phys, lba, count, ss)))
      case _ => (store, Reply(true, 0, []))
  }

  /** phys keeps the k sectors from lba on apart. */
  ghost predicate Apart(phys: nat -> nat, lba: nat, k: nat) {
    forall x, y :: lba <= x < y < lba + k ==> phys(x) != phys(y)
  }

  /** The last of k sectors from lba on that is kept in this slot; -1 if there is none. */
  ghost function LastWriter(phys: nat -> nat, lba: nat, k: nat, slot: nat): (w: int)
    ensures -1 <= w < k
    ensures w >= 0 ==> phys(lba + w) == slot
    ensures forall x :: lba <= x < lba + k && phys(x) == slot ==> x <= lba + w
  {
    if k == 0 then -1
    else if phys(lba + k - 1) == slot then k - 1
    else LastWriter(phys, lba, k - 1, slot)
  }

  lemma LastWriterFromFront(phys: nat -> nat, lba: nat, k: nat, slot: nat)
    requires k > 0
    ensures LastWriter(phys, lba, k, slot) ==
            var w := LastWriter(phys, lba + 1, k - 1, slot);
            if w >= 0 then w + 1 else if phys(lba) == slot then 0 else -1
  {
  }

  lemma Times(ss: nat, k: nat)
    requires k > 0
    ensures ss * k == ss + ss * (k - 1)
  {
  }

  lemma TimesSucc(ss: nat, i: nat)
    ensures ss + ss * i == ss * (i + 1)
  {
  }

  lemma PutUnfold(store: Store, phys: nat -> nat, lba: nat, p: Position, ss: nat, k: nat)
    requires ss > 0 && k > 0
    ensures Put(store, phys, lba, Bytes(p, ss * k), ss) ==
            Put(store[phys(lba) := Bytes(p, ss)], phys, lba + 1, Bytes(p.Plus(ss), ss * (k - 1)), ss)
  {
    Times(ss, k);
    BytesSplit(p, ss, ss * (k - 1));
    var data := Bytes(p, ss * k);
    assert data[..ss] == Bytes(p, ss) && data[ss..] == Bytes(p.Plus(ss), ss * (k - 1));
  }

  lemma PutNothing(store: Store, phys: nat -> nat, lba: nat, p: Position, ss: nat)
    ensures Put(store, phys, lba, Bytes(p, ss * 0), ss) == store
  {
  }

  lemma PlusSucc(p: Position, ss: nat, i: nat)
    ensures p.Plus(ss).Plus(ss * i) == p.Plus(ss * (i + 1))
  {
    TimesSucc(ss, i);
  }

  lemma PlusNothing(p: Position, ss: nat)
    ensures p.Plus(ss * 0) == p
  {
  }

  lemma SectorOf(store: Store, slot0: nat, p: Position, slot: nat, ss: nat)
    ensures Sector(store[slot0 := Bytes(p, ss)], slot, ss)
         == if slot == slot0 then Bytes(p, ss) else Sector(store, slot, ss)
  {
  }

  /** After k pattern sectors are written, a slot holds what its last writer wrote. */
  lemma {:induction false} PutContent(store: Store, phys: nat -> nat, lba: nat, p: Position, ss: nat, k: nat, slot: nat)
    requires ss > 0
    ensures var w := LastWriter(phys, lba, k, slot);
            Sector(Put(store, phys, lba, Bytes(p, ss * k), ss), slot, ss) ==
            if w < 0 then Sector(store, slot, ss) else Bytes(p.Plus(ss * w), ss)
    decreases k
  {
    hide Put, Bytes, Sector;
    if k == 0 {
      PutNothing(store, phys, lba, p, ss);
    } else {
      PutUnfold(store, phys, lba, p, ss, k);
      PutContent(store[phys(lba) := Bytes(p, ss)], phys, lba + 1, p.Plus(ss), ss, k - 1, slot);
      LastWriterFromFront(phys, lba, k, slot);
      var w := LastWriter(phys, lba + 1, k - 1, slot);
      if w >= 0 {
        PlusSucc(p, ss, w);
      } else {
        PlusNothing(p, ss);
        SectorOf(store, phys(lba), p, slot, ss);
      }
    }
  }

  /** The sector i places after lba holds its own part of the pattern. */
  ghost predicate Holds(store: Store, phys: nat -> nat, lba: nat, p: Position, ss: nat, i: nat) {
    Sector(store, phys(lba + i), ss) == Bytes(p.Plus(ss * i), ss)
  }

  lemma HoldsNext(store: Store, phys: nat -> nat, lba: nat, p: Position, ss: nat, i: nat)
    ensures Holds(store, phys, lba + 1, p.Plus(ss), ss, i) == Holds(store, phys, lba, p, ss, i + 1)
  {
    PlusSucc(p, ss, i);
    assert lba + 1 + i == lba + (i + 1);
  }

  lemma HoldsFirst(store: Store, phys: nat -> nat, lba: nat, p: Position, ss: nat)
    ensures Holds(store, phys, lba, p, ss, 0) <==> Sector(store, phys(lba), ss) == Bytes(p, ss)
  {
    PlusNothing(p, ss);
    assert lba + 0 == lba;
  }

  lemma SameConcat(a: seq<Byte>, b: seq<Byte>, c: seq<Byte>, d: seq<Byte>)
    requires |a| == |c|
    ensures a + b == c + d <==> a == c && b == d
  {
    if a + b == c + d {
      assert a == (a + b)[..|a|] && b == (a + b)[|a|..];
      assert c == (c + d)[..|a|] && d == (c + d)[|a|..];
    }
  }

  lemma {:induction false} GetLength(store: Store, phys: nat -> nat, lba: nat, ss: nat, k: nat)
    requires ss > 0
    ensures |Get(store, phys, lba, ss * k, ss)| == ss * k
    decreases k
  {
    if k > 0 {
      Times(ss, k);
      GetLength(store, phys, lba + 1, ss, k - 1);
    }
  }

  lemma GetUnfold(store: Store, phys: nat -> nat, lba: nat, p: Position, ss: nat, k: nat)
    requires ss > 0 && k > 0
    ensures Get(store, phys, lba, ss * k, ss) == Bytes(p, ss * k) <==>
            && Sector(store, phys(lba), ss) == Bytes(p, ss)
            && Get(store, phys, lba + 1, ss * (k - 1), ss) == Bytes(p.Plus(ss), ss * (k - 1))
  {
    Times(ss, k);
    BytesSplit(p, ss, ss * (k - 1));
    SameConcat(Sector(store, phys(lba), ss), Get(store, phys, lba + 1, ss * (k - 1), ss),
               Bytes(p, ss), Bytes(p.Plus(ss), ss * (k - 1)));
  }

  /** k sectors read back as the pattern exactly when each holds its own part of it. */
  lemma {:induction false} GetIsPattern(store: Store, phys: nat -> nat, lba: nat, p: Position, ss: nat, k: nat)
    requires ss > 0
    ensures Get(store, phys, lba, ss * k, ss) == Bytes(p, ss * k) <==>
            forall i :: 0 <= i < k ==> Holds(store, phys, lba, p, ss, i)
    decreases k
  {
    if k > 0 {
      var next, q := lba + 1, p.Plus(ss);
      GetUnfold(store, phys, lba, p, ss, k);
      HoldsFirst(store, phys, lba, p, ss);
      GetIsPattern(store, phys, next, q, ss, k - 1);
      forall i: nat ensures Holds(store, phys, next, q, ss, i) == Holds(store, phys, lba, p, ss, i + 1) {
        HoldsNext(store, phys, lba, p, ss, i);
      }
      if forall i :: 0 <= i < k - 1 ==> Holds(store, phys, next, q, ss, i) {
        forall i | 1 <= i < k ensures Holds(store, phys, lba, p, ss, i) {
          assert Holds(store, phys, next, q, ss, i - 1);
        }
      }
    }
  }

  lemma PartsDiffer(p: Position, ss: nat, i: nat, j: nat)
    requires p.seed != 0 && ss >= 25 && i < j && ss * j < PERIOD
    ensures Bytes(p.Plus(ss * i), ss) != Bytes(p.Plus(ss * j), ss)
  {
    var d := ss * (j - i);
    assert ss * j == ss * i + d;
    assert 0 < d < PERIOD;
    WindowsDiffer(p.Plus(ss * i), d, ss);
    assert p.Plus(ss * i).Plus(d) == p.Plus(ss * j);
  }

  /** Writing k pattern sectors and reading them back succeeds exactly when the drive keeps them apart. */
  lemma RoundTrip(store: Store, phys: nat -> nat, lba: nat, p: Position, ss: nat, k: nat)
    requires p.seed != 0 && ss >= 25 && ss * k <= PERIOD
    ensures var after := Put(store, phys, lba, Bytes(p, ss * k), ss);
            Get(after, phys, lba, ss * k, ss) == Bytes(p, ss * k) <==> Apart(phys, lba, k)
  {
    var after := Put(store, phys, lba, Bytes(p, ss * k), ss);
    GetIsPattern(after, phys, lba, p, ss, k);
    forall i | 0 <= i < k ensures Holds(after, phys, lba, p, ss, i) <==> OwnLast(phys, lba, k, i) {
      HoldsIfLast(store, phys, lba, p, ss, k, i);
    }
    if Apart(phys, lba, k) {
      assert forall i :: 0 <= i < k ==> OwnLast(phys, lba, k, i);
    } else {
      var x, y :| lba <= x < y < lba + k && phys(x) == phys(y);
      assert !OwnLast(phys, lba, k, x - lba);
    }
  }

  /** No later sector shares the slot of sector i. */
  ghost predicate OwnLast(phys: nat -> nat, lba: nat, k: nat, i: nat) {
    LastWriter(phys, lba, k, phys(lba + i)) == i
  }

  lemma TimesLess(ss: nat, w: nat, k: nat)
    requires w < k && ss > 0
    ensures ss * w < ss * k
  {
    assert ss * k == ss * w + ss * (k - w);
  }

  lemma HoldsIfLast(store: Store, phys: nat -> nat, lba: nat, p: Position, ss: nat, k: nat, i: nat)
    requires p.seed != 0 && ss >= 25 && ss * k <= PERIOD && i < k
    ensures Holds(Put(store, phys, lba, Bytes(p, ss * k), ss), phys, lba, p, ss, i) <==> OwnLast(phys, lba, k, i)
  {
    var w := LastWriter(phys, lba, k, phys(lba + i));
    PutContent(store, phys, lba, p, ss, k, phys(lba + i));
    if w != i {
      TimesLess(ss, w, k);
      PartsDiffer(p, ss, i, w);
    }
  }

  // --- The verdict on a mapped drive -----------------------------------------

  lemma WriteReadBackVerdict(phys: nat -> nat, size: nat, store: Store, at: Position, pns: bv32, lba: nat,
                             ss: nat, k: nat, codes: Codes)
    requires pns != 0 && ss >= 25 && ss * k <= PERIOD && codes.differ != 0
    ensures var v := WriteReadBack(Mapped(phys, size, ss), store, at, pns, lba, ss * k, codes);
            v.code == (if Apart(phys, lba, k) then 0 else codes.differ) && (v.code == 0 ==> v.at.seed == pns)
  {
    hide Put, Get, Apart;
    var p := Seeded(at, pns);
    RoundTrip(store, phys, lba, p, ss, k);
    GetLength(Put(store, phys, lba, Bytes(p, ss * k), ss), phys, lba, ss, k);
  }

  lemma OneSector(store: Store, phys: nat -> nat, lba: nat, data: seq<Byte>, ss: nat)
    requires ss > 0 && |data| == ss
    ensures Put(store, phys, lba, data, ss) == store[phys(lba) := data]
    ensures Get(store, phys, lba, ss, ss) == Sector(store, phys(lba), ss)
  {
    assert data[..ss] == data;
  }

  /** The two halves of the 4GB pattern differ from each other, and from what an unseeded
      generator produces next. */
  lemma FourGbPattern(p: Position, ss: nat)
    requires p.seed != 0 && 25 <= ss < 0x1_0000
    ensures Bytes(p, ss) != Bytes(p.Plus(ss), ss)
    ensures Bytes(p, ss) != Bytes(p.Plus(2 * ss).Plus(1), ss)
    ensures Bytes(p.Plus(ss), ss) != Bytes(p.Plus(2 * ss).Plus(1), ss)
  {
    WindowsDiffer(p, ss, ss);
    WindowsDiffer(p, 2 * ss + 1, ss);
    WindowsDiffer(p.Plus(ss), ss + 1, ss);
    assert p.Plus(2 * ss).Plus(1) == p.Plus(2 * ss + 1) == p.Plus(ss).Plus(ss + 1);
  }

  lemma TwoSectors(store: Store, phys: nat -> nat, lba: nat, lba2: nat, a: seq<Byte>, b: seq<Byte>, ss: nat)
    requires ss > 0 && |a| == |b| == ss
    ensures var after := Put(Put(store, phys, lba, a, ss), phys, lba2, b, ss);
            && Get(after, phys, lba, ss, ss) == (if phys(lba) == phys(lba2) then b else a)
            && Get(after, phys, lba2, ss, ss) == b
  {
    var store1 := store[phys(lba) := a];
    var store2 := store1[phys(lba2) := b];
    OneSector(store, phys, lba, a, ss);
    OneSector(store1, phys, lba2, b, ss);
    OneSector(store2, phys, lba, a, ss);
    OneSector(store2, phys, lba2, b, ss);
  }

  /** What the 4GB test compares. */
  lemma FourGbCompares(phys: nat -> nat, size: nat, store: Store, at: Position, pns: bv32, ss: nat, lba: nat, lba2: nat)
    ensures var p := Seeded(at, pns);
            var q := Seeded(p.Plus(2 * ss), pns);
            var data := Bytes(p, 2 * ss);
            var after := Put(Put(store, phys, lba, data[..ss], ss), phys, lba2, data[ss..], ss);
            FourGb(Mapped(phys, size, ss), store, at, pns, ss, lba, lba2).code ==
            if Fit(Get(after, phys, lba, ss, ss), ss) + Fit(Get(after, phys, lba2, ss, ss), ss) == Bytes(q, 2 * ss)
            then 0 else 24
  {
    hide Put, Get, Fit, Seeded;
  }

  /** What the two reads of the 4GB test deliver. */
  lemma FourGbReads(phys: nat -> nat, size: nat, store: Store, at: Position, pns: bv32, ss: nat, lba: nat, lba2: nat)
    requires ss >= 25
    ensures var p := Seeded(at, pns);
            var q := Seeded(p.Plus(2 * ss), pns);
            var b := Bytes(p.Plus(ss), ss);
            var got := if phys(lba) == phys(lba2) then b else Bytes(p, ss);
            FourGb(Mapped(phys, size, ss), store, at, pns, ss, lba, lba2).code ==
            if got + b == Bytes(q, 2 * ss) then 0 else 24
  {
    hide Put, Get, FourGb, Mapped, Seeded;
    FourGbCompares(phys, size, store, at, pns, ss, lba, lba2);
    var p := Seeded(at, pns);
    BytesSplit(p, ss, ss);
    var a, b := Bytes(p, ss), Bytes(p.Plus(ss), ss);
    var data := Bytes(p, 2 * ss);
    assert data[..ss] == a && data[ss..] == b;
    TwoSectors(store, phys, lba, lba2, a, b, ss);
  }

  /** The 4GB test fails exactly if both sectors share a slot or the seed has wrapped around to 0. */
  lemma FourGbVerdict(phys: nat -> nat, size: nat, store: Store, at: Position, pns: bv32, ss: nat, lba: nat, lba2: nat)
    requires at.seed != 0 && 25 <= ss < 0x1_0000
    ensures FourGb(Mapped(phys, size, ss), store, at, pns, ss, lba, lba2).code ==
            if phys(lba) == phys(lba2) || pns == 0 then 24 else 0
  {
    var p := Seeded(at, pns);
    var q := Seeded(p.Plus(2 * ss), pns);
    var b := Bytes(p.Plus(ss), ss);
    FourGbReads(phys, size, store, at, pns, ss, lba, lba2);
    FourGbPattern(p, ss);
    BytesSplit(q, ss, ss);
    SameConcat(if phys(lba) == phys(lba2) then b else Bytes(p, ss), b, Bytes(q, ss), Bytes(q.Plus(ss), ss));
  }

  /** The verdict of one cycle on a mapped drive, in terms of the LBA map alone. */
  lemma ExerciseVerdict(phys: nat -> nat, size: nat, store: Store, at: Position, pns: bv32, ss: nat, ns: nat,
                        barrier: nat, szDrv: nat)
    requires pns != 0 && Succ(pns) != 0 && Succ(Succ(pns)) != 0
    requires 25 <= ss < 0x1_0000 && ns <= 4
    ensures var v := Exercise(Mapped(phys, size, ss), store, at, pns, ss, ns, barrier, szDrv);
            && v.code == (if !Apart(phys, 1, ns) then 14
                          else if szDrv >= 128 + barrier
                                  && (phys(6) == phys(6 + barrier) || Succ(Succ(Succ(pns))) == 0) then 24
                          else 0)
  {
    var dev := Mapped(phys, size, ss);
    assert ss * 1 == ss && ss * ns <= ss * 4;
    WriteReadBackVerdict(phys, size, store, at, pns, 0, ss, 1, SINGLE1);
    var v1 := WriteReadBack(dev, store, at, pns, 0, ss, SINGLE1);
    WriteReadBackVerdict(phys, size, v1.st, v1.at, Succ(pns), 1, ss, ns, MULTIPLE);
    var v2 := WriteReadBack(dev, v1.st, v1.at, Succ(pns), 1, ss * ns, MULTIPLE);
    if v2.code == 0 {
      WriteReadBackVerdict(phys, size, v2.st, v2.at, Succ(Succ(pns)), 5, ss, 1, SINGLE2);
      var v3 := WriteReadBack(dev, v2.st, v2.at, Succ(Succ(pns)), 5, ss, SINGLE2);
      FourGbVerdict(phys, size, v3.st, v3.at, Succ(Succ(Succ(pns))), ss, 6, 6 + barrier);
    }
  }

  // --- The seed counter --------------------------------------------------------

  /** A 32-bit counter after n increments from 0. */
  function Count(n: nat): bv32 {
    if n == 0 then 0 else Succ(Count(n - 1))
  }

  function Twice(x: bv32): bv32 { x << 1 }

  lemma SuccTwice(x: bv32)
    ensures Succ(Succ(Twice(x))) == Twice(Succ(x))
  {
  }

  lemma {:induction false} CountDouble(m: nat)
    ensures Count(2 * m) == Twice(Count(m))
  {
    if m > 0 {
      CountDouble(m - 1);
      SuccTwice(Count(m - 1));
      assert Count(2 * m) == Succ(Count(2 * m - 1)) == Succ(Succ(Count(2 * (m - 1))));
    }
  }

  /** mask has its low k bits set and no other, where p is 2^k. */
  predicate IsMask(mask: bv32, p: nat)
    decreases p
  {
    if p <= 1 then p == 1 && mask == 0
    else p % 2 == 0 && mask & 1 == 1 && IsMask(mask >> 1, p / 2)
  }

  lemma {:induction false} CountHalf(n: nat)
    ensures Count(n) == if n % 2 == 0 then Twice(Count(n / 2)) else Succ(Twice(Count(n / 2)))
  {
    CountDouble(n / 2);
  }

  ghost predicate Clear(x: bv32, mask: bv32) {
    x & mask == 0
  }

  lemma ClearShifted(y: bv32, mask: bv32)
    requires mask & 1 == 1
    ensures Clear(y << 1, mask) <==> Clear(y, mask >> 1)
    ensures !Clear((y << 1) + 1, mask)
  {
  }

  lemma ClearTwice(y: bv32, mask: bv32)
    requires mask & 1 == 1
    ensures Clear(Twice(y), mask) <==> Clear(y, mask >> 1)
    ensures !Clear(Succ(Twice(y)), mask)
  {
    ClearShifted(y, mask);
    assert Succ(y << 1) == (y << 1) + 1;
  }

  lemma {:induction false} CountMasked(n: nat, mask: bv32, p: nat)
    requires IsMask(mask, p)
    ensures Clear(Count(n), mask) <==> n % p == 0
    decreases p
  {
    if p > 1 {
      var m, half := n / 2, mask >> 1;
      CountHalf(n);
      ClearTwice(Count(m), mask);
      CountMasked(m, half, p / 2);
      HalfRemainder(n, p / 2);
    }
  }

  lemma HalfRemainder(n: nat, q: nat)
    requires q > 0
    ensures n % (2 * q) == 0 <==> n % 2 == 0 && (n / 2) % q == 0
  {
    if n % (2 * q) == 0 {
      var k := n / (2 * q);
      assert n == 2 * (k * q) by { assert n == (2 * q) * k; }
      MultipleMod(k, q);
    }
    if n % 2 == 0 && (n / 2) % q == 0 {
      var k := (n / 2) / q;
      assert n == k * (2 * q) by { assert n == 2 * (q * k); }
      MultipleMod(k, 2 * q);
    }
  }

  lemma HalfMask()
    ensures IsMask(0xFFFF, 0x1_0000)
  {
    assert IsMask(0xFF, 0x100);
  }

  lemma LongMask()
    ensures IsMask(0xFF_FFFF, 0x100_0000)
  {
    HalfMask();
  }

  lemma FullMask()
    ensures IsMask(0xFFFF_FFFF, DWORD)
  {
    LongMask();
  }

  lemma AllBits(x: bv32)
    ensures Clear(x, 0xFFFF_FFFF) <==> x == 0
  {
  }

  /** The counter is 0 exactly after a multiple of 2^32 increments. */
  lemma CountWraps(n: nat)
    ensures Count(n) == 0 <==> n % DWORD == 0
  {
    FullMask();
    CountMasked(n, 0xFFFF_FFFF, DWORD);
    AllBits(Count(n));
  }

  lemma CycleSeeds(c: nat)
    ensures var pns := Count(4 * c + 1);
            && pns != 0 && Succ(pns) != 0 && Succ(Succ(pns)) != 0
            && (Succ(Succ(Succ(pns))) == 0 <==> (4 * c + 4) % DWORD == 0)
            && Succ4(pns) == Count(4 * (c + 1) + 1)
  {
    CountWraps(4 * c + 1);
    CountWraps(4 * c + 2);
    CountWraps(4 * c + 3);
    CountWraps(4 * c + 4);
  }

  /** One of the n cycles from number c on starts its 4GB test with seed 2^32, that is, 0. */
  ghost predicate WrapsWithin(c: nat, n: nat) {
    exists k :: c <= k < c + n && (4 * k + 4) % DWORD == 0
  }

  /** The queries of a cycle change nothing and report this size. */
  ghost predicate Answers(dev: Device<Store>, size: nat) {
    forall st ::
      && dev(st, Initialize) == (st, Reply(true, 0, []))
      && dev(st, SectorCount) == (st, Reply(true, size, []))
      && dev(st, BlockSize) == (st, Reply(true, 0, []))
  }

  lemma CycleIsExercise(dev: Device<Store>, size: nat, st: Store, at: Position, pns: bv32, ss: nat, ns: nat,
                        barrier: nat)
    requires Answers(dev, size) && size < DWORD
    ensures Cycle(dev, st, at, pns, ss, ns, barrier) ==
            if size < 128 then Verdict(4, st, at) else Exercise(dev, st, at, pns, ss, ns, barrier, size)
  {
  }

  /** What a cycle returns on a mapped drive; wrapped says that its last seed is 0. */
  ghost function CycleCode(phys: nat -> nat, size: nat, ns: nat, barrier: nat, wrapped: bool): int {
    if size < 128 then 4
    else if !Apart(phys, 1, ns) then 14
    else if size >= 128 + barrier && (phys(6) == phys(6 + barrier) || wrapped) then 24
    else 0
  }

  ghost predicate UsualSeed(pns: bv32) {
    pns != 0 && Succ(pns) != 0 && Succ(Succ(pns)) != 0
  }

  type CycleFunction = (Store, Position, bv32) -> Verdict<Store>

  /** This cycle returns what CycleCode says. */
  ghost predicate CycleReturns(cycle: CycleFunction, phys: nat -> nat, size: nat, ns: nat, barrier: nat,
                               st: Store, at: Position, pns: bv32)
  {
    UsualSeed(pns) ==>
      cycle(st, at, pns).code == CycleCode(phys, size, ns, barrier, Succ(Succ(Succ(pns))) == 0)
  }

  ghost predicate AllCyclesReturn(cycle: CycleFunction, phys: nat -> nat, size: nat, ns: nat, barrier: nat) {
    forall st, at, pns :: CycleReturns(cycle, phys, size, ns, barrier, st, at, pns)
  }

  lemma CycleVerdict(dev: Device<Store>, phys: nat -> nat, size: nat, st: Store, at: Position, pns: bv32, ss: nat,
                     ns: nat, barrier: nat)
    requires dev == Mapped(phys, size, ss)
    requires 25 <= ss < 0x1_0000 && ns <= 4 && size < DWORD
    ensures CycleReturns(CycleOn(dev, ss, ns, barrier), phys, size, ns, barrier, st, at, pns)
  {
    if UsualSeed(pns) {
      assert Answers(dev, size);
      CycleIsExercise(dev, size, st, at, pns, ss, ns, barrier);
      ExerciseVerdict(phys, size, st, at, pns, ss, ns, barrier, size);
    }
  }

  /** n cycles, the first being number c counted from 0, whose first seed is 4c + 1. */
  lemma {:induction false} RepeatVerdict(cycle: CycleFunction, phys: nat -> nat, size: nat, ns: nat, barrier: nat,
                                         st: Store, at: Position, pns: bv32, c: nat, n: nat)
    requires AllCyclesReturn(cycle, phys, size, ns, barrier) && pns == Count(4 * c + 1)
    ensures Repeat(cycle, st, at, pns, n).code ==
            if n == 0 then 0 else CycleCode(phys, size, ns, barrier, WrapsWithin(c, n))
    decreases n
  {
    if n > 0 {
      CycleSeeds(c);
      assert CycleReturns(cycle, phys, size, ns, barrier, st, at, pns);
      var v := cycle(st, at, pns);
      RepeatVerdict(cycle, phys, size, ns, barrier, v.st, v.at, Succ4(pns), c + 1, n - 1);
      WrapsStep(c, n);
    }
  }

  lemma WrapsStep(c: nat, n: nat)
    requires n > 0
    ensures WrapsWithin(c, n) <==> (4 * c + 4) % DWORD == 0 || WrapsWithin(c + 1, n - 1)
  {
  }

  lemma WrapsFromStart(n: nat)
    ensures WrapsWithin(0, n) <==> n >= 0x4000_0000
  {
    if n >= 0x4000_0000 {
      assert (4 * 0x3FFF_FFFF + 4) % DWORD == 0;
    }
  }

  // --- The distance of the 4GB test ---------------------------------------------

  predicate PowerOfTwo(n: nat) {
    n == 1 || (n > 1 && n % 2 == 0 && PowerOfTwo(n / 2))
  }

  lemma DoubleQuotient(a: nat, b: nat)
    requires b > 0
    ensures (2 * a) / (2 * b) == a / b
  {
    var q, r := a / b, a % b;
    assert 2 * a == q * (2 * b) + 2 * r;
    QuotientOf(2 * a, 2 * b, q, 2 * r);
  }

  lemma QuotientOf(a: nat, b: nat, q: nat, r: nat)
    requires r < b && a == q * b + r
    ensures a / b == q
  {
    var p, s := a / b, a % b;
    assert (q - p) * b == s - r;
    assert (p - q) * b == r - s;
    NonNegativeFactor(q - p, b);
    NonNegativeFactor(p - q, b);
  }

  lemma {:induction false} PowersDivide(p: nat, n: nat)
    requires PowerOfTwo(p) && PowerOfTwo(n) && n <= p
    ensures p / n * n == p
    decreases p
  {
    if n > 1 {
      PowersDivide(p / 2, n / 2);
      DoubleQuotient(p / 2, n / 2);
      assert p / n * n == p / n * (2 * (n / 2));
    }
  }

  /** The two sectors of the 4GB test are 2^32 bytes apart, whatever the sector size. */
  lemma BarrierIsFourGb(ss: nat)
    requires PowerOfTwo(ss) && 2 <= ss <= 0x1_0000_0000
    ensures Barrier(ss) * ss == 0x1_0000_0000 && Barrier(ss) == 0x1_0000_0000 / ss
  {
    hide PowerOfTwo;
    HalfPower(ss);
    DoubleQuotient(0x8000_0000, ss / 2);
    PowersDivide(0x1_0000_0000, ss);
  }

  lemma HalfPower(ss: nat)
    requires PowerOfTwo(ss) && ss >= 2
    ensures ss == 2 * (ss / 2) && PowerOfTwo(0x1_0000_0000)
  {
    Power24();
  }

  lemma Power24()
    ensures PowerOfTwo(0x100_0000)
  {
    Power16();
  }

  lemma Power16()
    ensures PowerOfTwo(0x1_0000)
  {
    assert PowerOfTwo(0x100);
  }

  lemma MappedVerdict(phys: nat -> nat, size: nat, st: Store, at: Position, ss: nat, szBuff: nat, ncyc: nat)
    requires 25 <= ss < 0x1_0000 && size < DWORD
    ensures Test(Mapped(phys, size, ss), st, at, ss, szBuff, ncyc).code ==
            if szBuff < ss + 4 then 1
            else if ncyc == 0 then 0
            else if size < 128 then 4
            else if !Apart(phys, 1, SectorsAtOnce(szBuff, ss)) then 14
            else if size >= 128 + Barrier(ss) && (phys(6) == phys(6 + Barrier(ss)) || ncyc >= 0x4000_0000) then 24
            else 0
  {
    var dev, ns, barrier := Mapped(phys, size, ss), SectorsAtOnce(szBuff, ss), Barrier(ss);
    var cycle := CycleOn(dev, ss, ns, barrier);
    forall st, at, pns ensures CycleReturns(cycle, phys, size, ns, barrier, st, at, pns) {
      CycleVerdict(dev, phys, size, st, at, pns, ss, ns, barrier);
    }
    assert Count(1) == Succ(Count(0)) == 1;
    RepeatVerdict(cycle, phys, size, ns, barrier, st, at, 1, 0, ncyc);
    WrapsFromStart(ncyc);
  }

  /** The exact verdict on every drive that maps LBAs to slots: the checker accepts it if and only if
      it keeps the sectors of the multiple sector test apart, does not wrap around at 4GB,
      and no more than 2^30 - 1 cycles run on a drive large enough for the 4GB test. */
  lemma MappedDriveVerdict(phys: nat -> nat, size: nat, st: Store, at: Position, ss: nat, szBuff: nat, ncyc: nat,
                           far: nat)
    requires 25 <= ss < 0x1_0000 && size < DWORD
    requires if PowerOfTwo(ss) then far * ss == 0x1_0000_0000 else far == Barrier(ss)
    ensures Test(Mapped(phys, size, ss), st, at, ss, szBuff, ncyc).code ==
            if szBuff < ss + 4 then 1
            else if ncyc == 0 then 0
            else if size < 128 then 4
            else if !Apart(phys, 1, SectorsAtOnce(szBuff, ss)) then 14
            else if size >= 128 + far && (phys(6) == phys(6 + far) || ncyc >= 0x4000_0000) then 24
            else 0
  {
    hide Test, Apart, SectorsAtOnce, Barrier, PowerOfTwo;
    if PowerOfTwo(ss) {
      BarrierIsFourGb(ss);
      Cancel(ss, far, Barrier(ss));
    }
    MappedVerdict(phys, size, st, at, ss, szBuff, ncyc);
  }

  /** A drive that ignores the bits of an LBA from `period` on. */
  function Wrapping(period: nat): nat -> nat
    requires period > 0
  {
    (lba: nat) => lba % period
  }

  /** The fault that the 4GB test looks for: a drive on which byte addresses lose their bit 32 is rejected
      by the first cycle. */
  lemma FourGbWrapIsCaught(size: nat, st: Store, at: Position, ss: nat, szBuff: nat, ncyc: nat)
    requires 25 <= ss < 0x1_0000 && PowerOfTwo(ss)
    requires 128 + 0x1_0000_0000 / ss <= size < DWORD && szBuff >= ss + 4 && ncyc > 0
    ensures 0x1_0000_0000 / ss > 0
    ensures Test(Mapped(Wrapping(0x1_0000_0000 / ss), size, ss), st, at, ss, szBuff, ncyc).code == 24
  {
    hide Test, PowerOfTwo, Barrier, Mapped;
    BarrierIsFourGb(ss);
    var far := 0x1_0000_0000 / ss;
    FarIsFar(ss, far);
    SectorsFit(szBuff, ss);
    Remainders(far);
    MappedDriveVerdict(Wrapping(far), size, st, at, ss, szBuff, ncyc, far);
  }

  lemma FarIsFar(ss: nat, far: nat)
    requires ss < 0x1_0000 && far * ss == 0x1_0000_0000
    ensures far > 0x1_0000
  {
    if far <= 0x1_0000 {
      ProductBelow(far, ss);
    }
  }

  lemma ProductBelow(far: nat, ss: nat)
    requires far <= 0x1_0000 && ss < 0x1_0000
    ensures far * ss < 0x1_0000_0000
  {
    ProductMonotone(far, 0x1_0000, ss);
  }

  lemma Remainders(far: nat)
    requires far > 0x1_0000
    ensures Wrapping(far)(6) == Wrapping(far)(6 + far) && Apart(Wrapping(far), 1, 4)
  {
    QuotientOf(6 + far, far, 1, 6);
    assert Wrapping(far)(6 + far) == 6 + far - far * 1;
    forall x: nat | x < 7
      ensures Wrapping(far)(x) == x
    {
      QuotientOf(x, far, 0, x);
    }
  }

  /** A faultless 8 GB drive with sectors of 512 bytes passes 2^30 - 1 cycles and fails the next one. */
  lemma SeedWrapsAround(st: Store, at: Position)
    ensures Test(Mapped((lba: nat) => lba, 0x100_0000, 512), st, at, 512, 2048, 0x3FFF_FFFF).code == 0
    ensures Test(Mapped((lba: nat) => lba, 0x100_0000, 512), st, at, 512, 2048, 0x4000_0000).code == 24
  {
    hide Test;
    assert Barrier(512) == 0x80_0000;
    MappedVerdict((lba: nat) => lba, 0x100_0000, st, at, 512, 2048, 0x3FFF_FFFF);
    MappedVerdict((lba: nat) => lba, 0x100_0000, st, at, 512, 2048, 0x4000_0000);
  }

  // --- Any drive --------------------------------------------------------------

  /** A drive that acknowledges everything but delivers only zeros. */
  ghost predicate DeliversZeros<St(!new)>(dev: Device<St>) {
    forall st, r ::
      && dev(st, r).1.ok
      && (r.SectorCount? ==> dev(st, r).1.value % DWORD >= 128)
      && (r.Read? ==> dev(st, r).1.data == seq(r.count, _ => 0))
  }

  /** Such a drive is rejected by the first comparison of the first cycle. */
  lemma ZeroDriveVerdict<St(!new)>(dev: Device<St>, st: St, at: Position, ss: nat, szBuff: nat, ncyc: nat)
    requires DeliversZeros(dev) && ss >= 25 && szBuff >= ss + 4 && ncyc > 0
    ensures Test(dev, st, at, ss, szBuff, ncyc).code == 10
  {
    BytesNotAllZero(Seeded(at, 1), ss);
  }

  /** The LBAs a request writes to. */
  function Targets(r: Request, ss: nat): set<nat>
    requires ss > 0
  {
    if r.Write? then Range(r.lba, |r.data| / ss) else {}
  }

  /** dev, with a record of every LBA written to. */
  function Recording<St>(dev: Device<St>, ss: nat): Device<(St, set<nat>)>
    requires ss > 0
  {
    (s: (St, set<nat>), r: Request) =>
      var (st, reply) := dev(s.0, r);
      ((st, s.1 + Targets(r, ss)), reply)
  }

  /** The LBAs that the four tests use. */
  ghost function TestedLbas(barrier: nat): set<nat> {
    {0, 1, 2, 3, 4, 5, 6, 6 + barrier}
  }

  /** w is what v would be on a recording drive, and no write went outside the tested LBAs. */
  ghost predicate Recorded<St>(v: Verdict<St>, w: Verdict<(St, set<nat>)>, barrier: nat) {
    w.code == v.code && w.st.0 == v.st && w.at == v.at && w.st.1 <= TestedLbas(barrier)
  }

  lemma MultipleOf(ss: nat, k: nat)
    requires ss > 0
    ensures (ss * k) / ss == k
  {
    var x := ss * k;
    assert x == k * ss;
    MultipleMod(k, ss);
    assert ss * (x / ss) == x;
    Cancel(ss, x / ss, k);
  }

  lemma WriteReadBackRecorded<St>(dev: Device<St>, st: St, log: set<nat>, at: Position, pns: bv32, lba: nat,
                                  ss: nat, k: nat, codes: Codes, barrier: nat)
    requires ss > 0 && log <= TestedLbas(barrier) && lba + k <= 6
    ensures Recorded(WriteReadBack(dev, st, at, pns, lba, ss * k, codes),
                     WriteReadBack(Recording(dev, ss), (st, log), at, pns, lba, ss * k, codes), barrier)
  {
    MultipleOf(ss, k);
  }

  lemma FourGbRecorded<St>(dev: Device<St>, st: St, log: set<nat>, at: Position, pns: bv32, ss: nat, barrier: nat)
    requires ss > 0 && log <= TestedLbas(barrier)
    ensures Recorded(FourGb(dev, st, at, pns, ss, 6, 6 + barrier),
                     FourGb(Recording(dev, ss), (st, log), at, pns, ss, 6, 6 + barrier), barrier)
  {
    assert ss / ss == 1 by { MultipleOf(ss, 1); }
  }

  lemma ExerciseRecorded<St>(dev: Device<St>, st: St, log: set<nat>, at: Position, pns: bv32, ss: nat, ns: nat,
                             barrier: nat, szDrv: nat)
    requires ss > 0 && ns <= 4 && log <= TestedLbas(barrier)
    ensures Recorded(Exercise(dev, st, at, pns, ss, ns, barrier, szDrv),
                     Exercise(Recording(dev, ss), (st, log), at, pns, ss, ns, barrier, szDrv), barrier)
  {
    hide WriteReadBack, FourGb, Recording, TestedLbas, SINGLE1, SINGLE2, MULTIPLE;
    var rec := Recording(dev, ss);
    assert ss * 1 == ss;
    WriteReadBackRecorded(dev, st, log, at, pns, 0, ss, 1, SINGLE1, barrier);
    var w1 := WriteReadBack(rec, (st, log), at, pns, 0, ss, SINGLE1);
    WriteReadBackRecorded(dev, w1.st.0, w1.st.1, w1.at, Succ(pns), 1, ss, ns, MULTIPLE, barrier);
    var w2 := WriteReadBack(rec, w1.st, w1.at, Succ(pns), 1, ss * ns, MULTIPLE);
    WriteReadBackRecorded(dev, w2.st.0, w2.st.1, w2.at, Succ(Succ(pns)), 5, ss, 1, SINGLE2, barrier);
    var w3 := WriteReadBack(rec, w2.st, w2.at, Succ(Succ(pns)), 5, ss, SINGLE2);
    FourGbRecorded(dev, w3.st.0, w3.st.1, w3.at, Succ(Succ(Succ(pns))), ss, barrier);
  }

  lemma CycleRecorded<St>(dev: Device<St>, st: St, log: set<nat>, at: Position, pns: bv32, ss: nat, ns: nat,
                          barrier: nat)
    requires ss > 0 && ns <= 4 && log <= TestedLbas(barrier)
    ensures Recorded(Cycle(dev, st, at, pns, ss, ns, barrier),
                     Cycle(Recording(dev, ss), (st, log), at, pns, ss, ns, barrier), barrier)
  {
    var (st1, _) := dev(st, Initialize);
    var (st2, c) := dev(st1, SectorCount);
    var (st3, _) := dev(st2, BlockSize);
    ExerciseRecorded(dev, st3, log, at, pns, ss, ns, barrier, c.value % DWORD);
  }

  /** The cycle d is c with a record of the LBAs written to. */
  ghost predicate Tracks<St>(c: (St, Position, bv32) -> Verdict<St>,
                             d: ((St, set<nat>), Position, bv32) -> Verdict<(St, set<nat>)>,
                             barrier: nat, st: St, log: set<nat>, at: Position, pns: bv32)
  {
    log <= TestedLbas(barrier) ==> Recorded(c(st, at, pns), d((st, log), at, pns), barrier)
  }

  lemma {:induction false} RepeatRecorded<St(!new)>(c: (St, Position, bv32) -> Verdict<St>,
                                                    d: ((St, set<nat>), Position, bv32) -> Verdict<(St, set<nat>)>,
                                                    barrier: nat, st: St, log: set<nat>, at: Position, pns: bv32,
                                                    n: nat)
    requires forall st, log, at, pns :: Tracks(c, d, barrier, st, log, at, pns)
    requires log <= TestedLbas(barrier)
    ensures Recorded(Repeat(c, st, at, pns, n), Repeat(d, (st, log), at, pns, n), barrier)
    decreases n
  {
    if n > 0 {
      assert Tracks(c, d, barrier, st, log, at, pns);
      var w := d((st, log), at, pns);
      RepeatRecorded(c, d, barrier, w.st.0, w.st.1, w.at, Succ4(pns), n - 1);
    }
  }

  /** Whatever the drive does, the checker writes to LBAs 0 to 6 and the far sector of the 4GB test only. */
  lemma WritesOnlyTestedLbas<St(!new)>(dev: Device<St>, st: St, at: Position, ss: nat, szBuff: nat, ncyc: nat)
    requires ss >= 2
    ensures Recorded(Test(dev, st, at, ss, szBuff, ncyc), Test(Recording(dev, ss), (st, {}), at, ss, szBuff, ncyc),
                     Barrier(ss))
    ensures PowerOfTwo(ss) && ss <= DWORD ==>
      Test(Recording(dev, ss), (st, {}), at, ss, szBuff, ncyc).st.1 <= {0, 1, 2, 3, 4, 5, 6, 6 + 0x1_0000_0000 / ss}
  {
    hide PowerOfTwo;
    if PowerOfTwo(ss) && ss <= DWORD {
      BarrierIsFourGb(ss);
    }
    var ns, barrier := SectorsAtOnce(szBuff, ss), Barrier(ss);
    var c, d := CycleOn(dev, ss, ns, barrier), CycleOn(Recording(dev, ss), ss, ns, barrier);
    forall st, log, at, pns ensures Tracks(c, d, barrier, st, log, at, pns) {
      if log <= TestedLbas(barrier) {
        CycleRecorded(dev, st, log, at, pns, ss, ns, barrier);
      }
    }
    RepeatRecorded(c, d, barrier, st, {}, at, 1, ncyc);
  }
}
