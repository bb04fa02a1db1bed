/** The low level disk checker, against a drive that may behave in any way. */
module DiskChecker {
  import opened Lfsr
  import opened Pattern

  datatype Request =
    | Initialize
    | SectorCount
    | BlockSize
    | Write(lba: nat, data: seq<Byte>)
    | Sync
    | Read(lba: nat, count: nat)

  /** ok says that the call reported no error; value answers the ioctl queries, data a read. */
  datatype Reply = Reply(ok: bool, value: nat, data: seq<Byte>)

  /** A drive is any function from its state and a request to a new state and a reply. */
  type Device<!St> = (St, Request) -> (St, Reply)

  /** What a read of n bytes leaves in the buffer. */
  function Fit(data: seq<Byte>, n: nat): (r: seq<Byte>)
    ensures |r| == n
    ensures |data| == n ==> r == data
  {
    if |data| >= n then data[..n] else data + seq(n - |data|, _ => 0)
  }

  const DWORD: nat := 0x1_0000_0000

  // --- What the checker computes ---------------------------------------------

  /** code 0 is success; at is the generator's position, meaningful after success only. */
  datatype Verdict<St> = Verdict(code: int, st: St, at: Position)

  /** The return codes of one write/read-back test. */
  datatype Codes = Codes(write: int, sync: int, read: int, differ: int)

  function WriteReadBack<St>(dev: Device<St>, st: St, at: Position, pns: bv32, lba: nat, count: nat,
                             codes: Codes): Verdict<St>
  {
    var s0 := Seeded(at, pns);
    var drawn := s0.Plus(count);
    var (st1, w) := dev(st, Write(lba, Bytes(s0, count)));
    if !w.ok then Verdict(codes.write, st1, drawn) else
    var (st2, y) := dev(st1, Sync);
    if !y.ok then Verdict(codes.sync, st2, drawn) else
    var (st3, r) := dev(st2, Read(lba, count));
    if !r.ok then Verdict(codes.read, st3, drawn) else
    var s1 := Seeded(drawn, pns);
    if Fit(r.data, count) != Bytes(s1, count) then Verdict(codes.differ, st3, s1) else
    Verdict(0, st3, s1.Plus(count))
  }

  /** The next seed, a 32-bit word. */
  function Succ(pns: bv32): bv32 { pns + 1 }

  function Succ4(pns: bv32): bv32 { Succ(Succ(Succ(Succ(pns)))) }

  /** The distance between the two sectors of the 4GB test. */
  function Barrier(ss: nat): (d: nat)
    requires ss >= 2
  {
    0x8000_0000 / (ss / 2)
  }

  function FourGb<St>(dev: Device<St>, st: St, at: Position, pns: bv32, ss: nat, lba: nat, lba2: nat): Verdict<St> {
    var s0 := Seeded(at, pns);
    var drawn := s0.Plus(2 * ss);
    var data := Bytes(s0, 2 * ss);
    var (st1, w1) := dev(st, Write(lba, data[..ss]));
    if !w1.ok then Verdict(19, st1, drawn) else
    var (st2, w2) := dev(st1, Write(lba2, data[ss..]));
    if !w2.ok then Verdict(20, st2, drawn) else
    var (st3, y) := dev(st2, Sync);
    if !y.ok then Verdict(21, st3, drawn) else
    var (st4, r1) := dev(st3, Read(lba, ss));
    if !r1.ok then Verdict(22, st4, drawn) else
    var (st5, r2) := dev(st4, Read(lba2, ss));
    if !r2.ok then Verdict(23, st5, drawn) else
    var s1 := Seeded(drawn, pns);
    if Fit(r1.data, ss) + Fit(r2.data, ss) != Bytes(s1, 2 * ss) then Verdict(24, st5, s1) else
    Verdict(0, st5, s1.Plus(2 * ss + 1))
  }

  /** The number of sectors of the multiple sector test. */
  function SectorsAtOnce(szBuff: nat, ss: nat): nat
    requires ss > 0
  {
    if szBuff / ss > 4 then 4 else szBuff / ss
  }

  const SINGLE1 := Codes(6, 7, 8, 10)
  const MULTIPLE := Codes(11, 12, 13, 14)
  const SINGLE2 := Codes(15, 16, 17, 18)

  /** The four tests of one cycle; ns is the sector count of the second, barrier the distance
      of the fourth, which is skipped on a small drive. */
  function Exercise<St>(dev: Device<St>, st: St, at: Position, pns: bv32, ss: nat, ns: nat, barrier: nat,
                        szDrv: nat): Verdict<St>
  {
    var v1 := WriteReadBack(dev, st, at, pns, 0, ss, SINGLE1);
    if v1.code != 0 then v1 else
    var v2 := WriteReadBack(dev, v1.st, v1.at, Succ(pns), 1, ss * ns, MULTIPLE);
    if v2.code != 0 then v2 else
    var v3 := WriteReadBack(dev, v2.st, v2.at, Succ(Succ(pns)), 5, ss, SINGLE2);
    if v3.code != 0 || szDrv < 128 + barrier then v3 else
    FourGb(dev, v3.st, v3.at, Succ(Succ(Succ(pns))), ss, 6, 6 + barrier)
  }

  function Cycle<St>(dev: Device<St>, st: St, at: Position, pns: bv32, ss: nat, ns: nat, barrier: nat): Verdict<St> {
    var (st1, i) := dev(st, Initialize);
    if !i.ok then Verdict(2, st1, at) else
    var (st2, c) := dev(st1, SectorCount);
    if !c.ok then Verdict(3, st2, at) else
    var szDrv := c.value % DWORD;
    if szDrv < 128 then Verdict(4, st2, at) else
    var (st3, _) := dev(st2, BlockSize);
    Exercise(dev, st3, at, pns, ss, ns, barrier, szDrv)
  }

  /** n cycles in a row, up to the first that fails; every cycle uses four seeds. */
  function Repeat<St>(cycle: (St, Position, bv32) -> Verdict<St>, st: St, at: Position, pns: bv32, n: nat): Verdict<St>
    decreases n
  {
    if n == 0 then Verdict(0, st, at) else
    var v := cycle(st, at, pns);
    if v.code != 0 then v else Repeat(cycle, v.st, v.at, Succ4(pns), n - 1)
  }

  function CycleOn<St>(dev: Device<St>, ss: nat, ns: nat, barrier: nat): (St, Position, bv32) -> Verdict<St> {
    (st: St, at: Position, pns: bv32) => Cycle(dev, st, at, pns, ss, ns, barrier)
  }

  function Test<St>(dev: Device<St>, st: St, at: Position, ss: nat, szBuff: nat, ncyc: nat): Verdict<St>
    requires ss >= 2
  {
    if szBuff < ss + 4 then Verdict(1, st, at) else
    Repeat(CycleOn(dev, ss, SectorsAtOnce(szBuff, ss), Barrier(ss)), st, at, 1, ncyc)
  }

  /** The multiple sector test takes as many sectors as fit the buffer, but no more than four. */
  lemma SectorsFit(szBuff: nat, ss: nat)
    requires ss > 0
    ensures var ns := SectorsAtOnce(szBuff, ss);
      && ss * ns <= szBuff && ns <= 4
      && (ns == 4 || szBuff < ss * (ns + 1))
  {
    var q, r := szBuff / ss, szBuff % ss;
    assert szBuff == ss * q + r;
    assert ss * (q + 1) == ss * q + ss;
    if q > 4 {
      assert ss * q >= ss * 4;
    }
  }

  // --- How much of the buffer a run touches --------------------------------------

  function Max(a: nat, b: nat): nat {
    if a >= b then a else b
  }

  /** One more than the highest index of count bytes from offset on, 0 for none. */
  function End(offset: nat, count: nat): nat {
    if count == 0 then 0 else offset + count
  }

  /** One write/read-back test fills count bytes from `from` on, and clears as many from `to` on if the
      drive has accepted them. */
  function WriteReadBackEnd<St>(dev: Device<St>, st: St, at: Position, pns: bv32, lba: nat, count: nat, from: nat,
                                to: nat): nat
  {
    var (st1, w) := dev(st, Write(lba, Bytes(Seeded(at, pns), count)));
    if !w.ok then End(from, count) else
    var (_, y) := dev(st1, Sync);
    if !y.ok then End(from, count) else Max(End(from, count), End(to, count))
  }

  /** The 4GB test fills two sectors, and looks one byte further if they compare equal. */
  function FourGbEnd<St>(dev: Device<St>, st: St, at: Position, pns: bv32, ss: nat, lba: nat, lba2: nat): nat {
    if FourGb(dev, st, at, pns, ss, lba, lba2).code == 0 then 2 * ss + 1 else 2 * ss
  }

  function ExerciseEnd<St>(dev: Device<St>, st: St, at: Position, pns: bv32, ss: nat, ns: nat, barrier: nat,
                           szDrv: nat): nat
  {
    var v1 := WriteReadBack(dev, st, at, pns, 0, ss, SINGLE1);
    var e1 := WriteReadBackEnd(dev, st, at, pns, 0, ss, 0, 0);
    if v1.code != 0 then e1 else
    var v2 := WriteReadBack(dev, v1.st, v1.at, Succ(pns), 1, ss * ns, MULTIPLE);
    var e2 := Max(e1, WriteReadBackEnd(dev, v1.st, v1.at, Succ(pns), 1, ss * ns, 0, 0));
    if v2.code != 0 then e2 else
    var v3 := WriteReadBack(dev, v2.st, v2.at, Succ(Succ(pns)), 5, ss, SINGLE2);
    var e3 := Max(e2, WriteReadBackEnd(dev, v2.st, v2.at, Succ(Succ(pns)), 5, ss, 3, 5));
    if v3.code != 0 || szDrv < 128 + barrier then e3 else
    Max(e3, FourGbEnd(dev, v3.st, v3.at, Succ(Succ(Succ(pns))), ss, 6, 6 + barrier))
  }

  function CycleEnd<St>(dev: Device<St>, st: St, at: Position, pns: bv32, ss: nat, ns: nat, barrier: nat): nat {
    var (st1, i) := dev(st, Initialize);
    if !i.ok then 0 else
    var (st2, c) := dev(st1, SectorCount);
    if !c.ok || c.value % DWORD < 128 then 0 else
    var (st3, _) := dev(st2, BlockSize);
    ExerciseEnd(dev, st3, at, pns, ss, ns, barrier, c.value % DWORD)
  }

  function CycleEndOn<St>(dev: Device<St>, ss: nat, ns: nat, barrier: nat): (St, Position, bv32) -> nat {
    (st: St, at: Position, pns: bv32) => CycleEnd(dev, st, at, pns, ss, ns, barrier)
  }

  function RepeatEnd<St>(cycle: (St, Position, bv32) -> Verdict<St>, end: (St, Position, bv32) -> nat, st: St,
                         at: Position, pns: bv32, n: nat): nat
    decreases n
  {
    if n == 0 then 0 else
    var v := cycle(st, at, pns);
    if v.code != 0 then end(st, at, pns)
    else Max(end(st, at, pns), RepeatEnd(cycle, end, v.st, v.at, Succ4(pns), n - 1))
  }

  /** One more than the highest buffer index that n cycles touch. */
  function TestEnd<St>(dev: Device<St>, st: St, at: Position, ss: nat, szBuff: nat, n: nat): nat
    requires ss >= 2
  {
    if szBuff < ss + 4 then 0 else
    var ns, barrier := SectorsAtOnce(szBuff, ss), Barrier(ss);
    RepeatEnd(CycleOn(dev, ss, ns, barrier), CycleEndOn(dev, ss, ns, barrier), st, at, 1, n)
  }

  /** The 32-bit counter of the loop reaches n cycles and stops: n is the number asked for, but for the
      largest number, which the counter never exceeds, the loop only ends when a cycle fails. */
  ghost predicate Stops<St>(dev: Device<St>, st: St, at: Position, ss: nat, szBuff: nat, ncyc: nat, n: nat)
    requires ss >= 2
  {
    if ncyc < DWORD - 1 then n == ncyc else ncyc == DWORD - 1 && Test(dev, st, at, ss, szBuff, n).code != 0
  }

  // --- The code ------------------------------------------------------------

  /** The working buffer, with a record of how much of it has been touched. */
  class Buffer {
    const bytes: array<Byte>
    ghost var end: nat

    constructor (bytes: array<Byte>)
      ensures this.bytes == bytes && end == 0
    {
      this.bytes, end := bytes, 0;
    }

    method Get(i: nat) returns (b: Byte)
      requires i < bytes.Length
      modifies `end
      ensures b == bytes[i] && end == Max(old(end), i + 1)
    {
      end := Max(end, i + 1);
      b := bytes[i];
    }

    method Set(i: nat, b: Byte)
      requires i < bytes.Length
      modifies `end, bytes
      ensures bytes[..] == old(bytes[..])[i := b] && end == Max(old(end), i + 1)
    {
      end := Max(end, i + 1);
      bytes[i] := b;
    }

    /** The bytes that disk_write sends. */
    method Slice(offset: nat, count: nat) returns (data: seq<Byte>)
      requires offset + count <= bytes.Length
      modifies `end
      ensures data == bytes[offset..offset + count] && end == Max(old(end), End(offset, count))
    {
      end := Max(end, End(offset, count));
      data := bytes[offset..offset + count];
    }
  }

  /** The low byte of the next word that the generator draws. */
  method Draw(g: Generator, ghost s: Position, ghost n: nat) returns (b: Byte)
    requires g.Valid() && g.at == s.Plus(n)
    modifies g
    ensures g.Valid() && g.at == s.Plus(n + 1)
    ensures Bytes(s, n + 1) == Bytes(s, n) + [b]
  {
    hide Bytes, Iterate;
    var r := g.Pn(0);
    b := (r & 0xFF) as bv8;
    BytesNext(s, n);
  }

  lemma BytesNext(s: Position, n: nat)
    ensures Bytes(s, n + 1) == Bytes(s, n) + [LowByte(s.Plus(n + 1).Word())]
  {
  }

  /** Stores the next count bytes of the generator from offset on. */
  method Fill(g: Generator, buff: Buffer, offset: nat, count: nat)
    requires g.Valid() && End(offset, count) <= buff.bytes.Length
    modifies g, buff, buff.bytes
    ensures g.Valid() && g.at == old(g.at).Plus(count)
    ensures offset + count <= buff.bytes.Length || count == 0
    ensures count > 0 ==> buff.bytes[offset..offset + count] == Bytes(old(g.at), count)
    ensures buff.end == Max(old(buff.end), End(offset, count))
  {
    ghost var s := g.at;
    for n := 0 to count
      invariant g.Valid() && g.at == s.Plus(n)
      invariant n > 0 ==> buff.bytes[offset..offset + n] == Bytes(s, n)
      invariant buff.end == Max(old(buff.end), End(offset, n))
    {
      var b := Draw(g, s, n);
      ghost var a := buff.bytes[..];
      buff.Set(offset + n, b);
      assert buff.bytes[offset..offset + n + 1] == a[offset..offset + n] + [b];
      assert n == 0 ==> a[offset..offset + n] == Bytes(s, 0);
    }
  }

  lemma PrefixDiffers(a: seq<Byte>, s: Position, n: nat, b: Byte)
    requires n < |a| && Bytes(s, n + 1) == Bytes(s, n) + [b] && a[n] != b
    ensures a != Bytes(s, |a|)
  {
    assert Bytes(s, |a|)[n] == Bytes(s, n + 1)[n];
  }

  /** Compares count bytes with those that the generator draws, up to the first difference. */
  method Matches(g: Generator, buff: Buffer, offset: nat, count: nat) returns (matched: bool)
    requires g.Valid() && offset + count <= buff.bytes.Length && End(offset, count) <= buff.end
    modifies g, buff
    ensures g.Valid()
    ensures matched <==> buff.bytes[offset..offset + count] == Bytes(old(g.at), count)
    ensures matched ==> g.at == old(g.at).Plus(count)
    ensures buff.end == old(buff.end)
  {
    ghost var s := g.at;
    var n := 0;
    while n < count
      invariant n <= count && g.Valid() && g.at == s.Plus(n)
      invariant buff.bytes[offset..offset + n] == Bytes(s, n) && buff.end == old(buff.end)
    {
      var b := Draw(g, s, n);
      var x := buff.Get(offset + n);
      if x != b {
        PrefixDiffers(buff.bytes[offset..offset + count], s, n, b);
        return false;
      }
      assert buff.bytes[offset..offset + n + 1] == buff.bytes[offset..offset + n] + [x];
      n := n + 1;
    }
    return true;
  }

  /** The 4GB test's loop tests the byte before the bound: it reads one byte past the data
      and draws one more value. */
  method MatchesThenBound(g: Generator, buff: Buffer, count: nat) returns (matched: bool)
    requires g.Valid() && count <= buff.bytes.Length && count <= buff.end
    requires buff.bytes[..count] == Bytes(g.at, count) ==> count < buff.bytes.Length
    modifies g, buff
    ensures g.Valid()
    ensures matched <==> buff.bytes[..count] == Bytes(old(g.at), count)
    ensures matched ==> g.at == old(g.at).Plus(count + 1)
    ensures buff.end == if matched then Max(old(buff.end), count + 1) else old(buff.end)
  {
    ghost var s := g.at;
    var n := 0;
    while true
      invariant n <= count && g.Valid() && g.at == s.Plus(n)
      invariant buff.bytes[..n] == Bytes(s, n) && buff.end == old(buff.end)
      decreases count - n
    {
      var b := Draw(g, s, n);
      var x := buff.Get(n);
      if x != b {
        if n < count {
          PrefixDiffers(buff.bytes[..count], s, n, b);
        }
        break;
      }
      if n >= count {
        break;
      }
      assert buff.bytes[..n + 1] == buff.bytes[..n] + [x];
      n := n + 1;
    }
    matched := n == count;
  }

  /** Sets count bytes to zero. */
  method Clear(buff: Buffer, offset: nat, count: nat)
    requires End(offset, count) <= buff.bytes.Length
    modifies buff, buff.bytes
    ensures forall i :: 0 <= i < buff.bytes.Length ==>
      buff.bytes[i] == if offset <= i < offset + count then 0 else old(buff.bytes[i])
    ensures buff.end == Max(old(buff.end), End(offset, count))
  {
    for n := 0 to count
      invariant forall i :: 0 <= i < buff.bytes.Length ==>
        buff.bytes[i] == if offset <= i < offset + n then 0 else old(buff.bytes[i])
      invariant buff.end == Max(old(buff.end), End(offset, n))
    {
      ghost var a := buff.bytes[..];
      buff.Set(offset + n, 0);
      assert forall i :: 0 <= i < buff.bytes.Length ==> buff.bytes[i] == buff.bytes[..][i] == a[offset + n := 0][i];
    }
  }

  /** What `disk_read` delivers into a cleared area. */
  method Deliver(buff: Buffer, offset: nat, count: nat, data: seq<Byte>)
    requires offset + count <= buff.bytes.Length && End(offset, count) <= buff.end
    requires forall i :: offset <= i < offset + count ==> buff.bytes[i] == 0
    modifies buff, buff.bytes
    ensures buff.bytes[offset..offset + count] == Fit(data, count)
    ensures buff.bytes[..offset] == old(buff.bytes[..offset])
    ensures buff.bytes[offset + count..] == old(buff.bytes[offset + count..])
    ensures buff.end == old(buff.end)
  {
    var fit := Fit(data, count);
    for n := 0 to count
      invariant buff.bytes[offset..offset + n] == fit[..n]
      invariant forall i :: offset + n <= i < offset + count ==> buff.bytes[i] == 0
      invariant buff.bytes[..offset] == old(buff.bytes[..offset])
      invariant buff.bytes[offset + count..] == old(buff.bytes[offset + count..])
      invariant buff.end == old(buff.end)
    {
      if n < |data| {
        ghost var a := buff.bytes[..];
        buff.Set(offset + n, data[n]);
        assert forall i :: 0 <= i < buff.bytes.Length ==>
          buff.bytes[i] == buff.bytes[..][i] == a[offset + n := data[n]][i];
      }
      assert buff.bytes[offset..offset + n + 1] == buff.bytes[offset..offset + n] + [buff.bytes[offset + n]];
      assert buff.bytes[offset + n] == fit[n];
      assert fit[..n + 1] == fit[..n] + [fit[n]];
    }
  }

  /** One write/read-back test; the data is written from pbuff+from and read back to pbuff+to. */
  method RunWriteReadBack<St>(dev: Device<St>, st: St, g: Generator, buff: Buffer, pns: bv32, lba: nat,
                              count: nat, from: nat, to: nat, codes: Codes)
    returns (code: int, st': St)
    requires g.Valid() && count > 0
    requires WriteReadBackEnd(dev, st, g.at, pns, lba, count, from, to) <= buff.bytes.Length
    requires 0 !in {codes.write, codes.sync, codes.read, codes.differ}
    modifies g, buff, buff.bytes
    ensures g.Valid()
    ensures var v := WriteReadBack(dev, st, old(g.at), pns, lba, count, codes);
            code == v.code && st' == v.st && (code == 0 ==> g.at == v.at)
    ensures buff.end == Max(old(buff.end), WriteReadBackEnd(dev, st, old(g.at), pns, lba, count, from, to))
  {
    var _ := g.Pn(pns);
    Fill(g, buff, from, count);
    var data := buff.Slice(from, count);
    var (st1, w) := dev(st, Write(lba, data));
    if !w.ok { return codes.write, st1; }
    var (st2, y) := dev(st1, Sync);
    if !y.ok { return codes.sync, st2; }
    Clear(buff, to, count);
    var (st3, r) := dev(st2, Read(lba, count));
    if !r.ok { return codes.read, st3; }
    Deliver(buff, to, count, r.data);
    var _ := g.Pn(pns);
    var matched := Matches(g, buff, to, count);
    if !matched { return codes.differ, st3; }
    return 0, st3;
  }

  /** The second half of the 4GB test reads both sectors back. */
  method ReadTwo<St>(dev: Device<St>, st: St, buff: Buffer, ss: nat, lba: nat, lba2: nat)
    returns (code: int, st': St)
    requires ss > 0 && 2 * ss <= buff.bytes.Length && 2 * ss <= buff.end
    modifies buff, buff.bytes
    ensures buff.end == old(buff.end)
    ensures var (st1, r1) := dev(st, Read(lba, ss));
      if !r1.ok then code == 22 && st' == st1 else
      var (st2, r2) := dev(st1, Read(lba2, ss));
      st' == st2 &&
      if !r2.ok then code == 23 else code == 0 && buff.bytes[..2 * ss] == Fit(r1.data, ss) + Fit(r2.data, ss)
  {
    hide Fit;
    Clear(buff, 0, 2 * ss);
    var (st1, r1) := dev(st, Read(lba, ss));
    if !r1.ok { return 22, st1; }
    Deliver(buff, 0, ss, r1.data);
    assert forall i :: ss <= i < 2 * ss ==> buff.bytes[i] == buff.bytes[0 + ss..][i - ss];
    var (st2, r2) := dev(st1, Read(lba2, ss));
    if !r2.ok { return 23, st2; }
    Deliver(buff, ss, ss, r2.data);
    assert buff.bytes[..2 * ss] == buff.bytes[..ss] + buff.bytes[ss..2 * ss];
    return 0, st2;
  }

  method RunFourGb<St>(dev: Device<St>, st: St, g: Generator, buff: Buffer, pns: bv32, ss: nat,
                       lba: nat, lba2: nat)
    returns (code: int, st': St)
    requires g.Valid() && ss > 0 && FourGbEnd(dev, st, g.at, pns, ss, lba, lba2) <= buff.bytes.Length
    modifies g, buff, buff.bytes
    ensures g.Valid()
    ensures var v := FourGb(dev, st, old(g.at), pns, ss, lba, lba2);
            code == v.code && st' == v.st && (code == 0 ==> g.at == v.at)
    ensures buff.end == Max(old(buff.end), FourGbEnd(dev, st, old(g.at), pns, ss, lba, lba2))
  {
    hide Fit, Seeded;
    ghost var data := Bytes(Seeded(g.at, pns), 2 * ss);
    var _ := g.Pn(pns);
    Fill(g, buff, 0, 2 * ss);
    assert buff.bytes[..ss] == data[..ss] && buff.bytes[ss..2 * ss] == data[ss..] by {
      assert buff.bytes[0..2 * ss] == data;
    }
    var data1 := buff.Slice(0, ss);
    var (st1, w1) := dev(st, Write(lba, data1));
    if !w1.ok { return 19, st1; }
    var data2 := buff.Slice(ss, ss);
    var (st2, w2) := dev(st1, Write(lba2, data2));
    if !w2.ok { return 20, st2; }
    var (st3, y) := dev(st2, Sync);
    if !y.ok { return 21, st3; }
    var st5;
    code, st5 := ReadTwo(dev, st3, buff, ss, lba, lba2);
    if code != 0 { return code, st5; }
    var _ := g.Pn(pns);
    var matched := MatchesThenBound(g, buff, 2 * ss);
    if !matched { return 24, st5; }
    return 0, st5;
  }

  method RunExercise<St>(dev: Device<St>, st: St, g: Generator, buff: Buffer, pns: bv32, ss: nat, ns: nat,
                         barrier: nat, szDrv: nat)
    returns (code: int, st': St, pns': bv32)
    requires g.Valid() && ss > 0 && ns > 0
    requires ExerciseEnd(dev, st, g.at, pns, ss, ns, barrier, szDrv) <= buff.bytes.Length
    modifies g, buff, buff.bytes
    ensures g.Valid()
    ensures var v := Exercise(dev, st, old(g.at), pns, ss, ns, barrier, szDrv);
            code == v.code && st' == v.st && (code == 0 ==> g.at == v.at && pns' == Succ4(pns))
    ensures buff.end == Max(old(buff.end), ExerciseEnd(dev, st, old(g.at), pns, ss, ns, barrier, szDrv))
  {
    hide WriteReadBack, WriteReadBackEnd, FourGb, FourGbEnd;
    pns' := pns;
    code, st' := RunWriteReadBack(dev, st, g, buff, pns', 0, ss, 0, 0, SINGLE1);
    if code != 0 { return; }
    pns' := Succ(pns');
    assert ss * ns > 0;
    code, st' := RunWriteReadBack(dev, st', g, buff, pns', 1, ss * ns, 0, 0, MULTIPLE);
    if code != 0 { return; }
    pns' := Succ(pns');
    code, st' := RunWriteReadBack(dev, st', g, buff, pns', 5, ss, 3, 5, SINGLE2);
    if code != 0 { return; }
    pns' := Succ(pns');
    if szDrv >= 128 + barrier {
      code, st' := RunFourGb(dev, st', g, buff, pns', ss, 6, 6 + barrier);
      if code != 0 { return; }
    }
    pns' := Succ(pns');
  }

  /** The body of the loop of `test_diskio`. */
  method RunCycle<St(!new)>(dev: Device<St>, st: St, g: Generator, buff: Buffer, pns: bv32, ss: nat, szBuff: nat,
                            ghost cycle: (St, Position, bv32) -> Verdict<St>, ghost end: (St, Position, bv32) -> nat)
    returns (code: int, st': St, pns': bv32)
    requires g.Valid() && ss >= 2 && ss + 4 <= szBuff
    requires cycle == CycleOn(dev, ss, SectorsAtOnce(szBuff, ss), Barrier(ss))
    requires end == CycleEndOn(dev, ss, SectorsAtOnce(szBuff, ss), Barrier(ss))
    requires end(st, g.at, pns) <= buff.bytes.Length
    modifies g, buff, buff.bytes
    ensures g.Valid()
    ensures var v := cycle(st, old(g.at), pns);
            code == v.code && st' == v.st && (code == 0 ==> g.at == v.at && pns' == Succ4(pns))
    ensures buff.end == Max(old(buff.end), end(st, old(g.at), pns))
  {
    hide Exercise, ExerciseEnd, Barrier;
    var (st1, i) := dev(st, Initialize);
    if !i.ok { return 2, st1, pns; }
    var (st2, c) := dev(st1, SectorCount);
    if !c.ok { return 3, st2, pns; }
    var szDrv := c.value % DWORD;
    if szDrv < 128 { return 4, st2, pns; }
    var (st3, _) := dev(st2, BlockSize);
    var ns := szBuff / ss;
    if ns > 4 { ns := 4; }
    SectorsFit(szBuff, ss);
    code, st', pns' := RunExercise(dev, st3, g, buff, pns, ss, ns, Barrier(ss), szDrv);
  }

  /** The loop of `test_diskio`, which does n cycles. */
  method RunCycles<St(!new)>(dev: Device<St>, st: St, g: Generator, buff: Buffer, ss: nat, szBuff: nat, ncyc: nat,
                             ghost n: nat)
    returns (code: int, st': St)
    requires g.Valid() && ss >= 2 && ss + 4 <= szBuff && Stops(dev, st, g.at, ss, szBuff, ncyc, n)
    requires TestEnd(dev, st, g.at, ss, szBuff, n) <= buff.bytes.Length
    modifies g, buff, buff.bytes
    ensures g.Valid()
    ensures var v := Test(dev, st, old(g.at), ss, szBuff, n); code == v.code && st' == v.st
    ensures buff.end == Max(old(buff.end), TestEnd(dev, st, old(g.at), ss, szBuff, n))
  {
    hide Cycle, CycleOn, CycleEnd, CycleEndOn, SectorsAtOnce, Barrier;
    ghost var cycle := CycleOn(dev, ss, SectorsAtOnce(szBuff, ss), Barrier(ss));
    ghost var end := CycleEndOn(dev, ss, SectorsAtOnce(szBuff, ss), Barrier(ss));
    ghost var goal := Repeat(cycle, st, g.at, 1, n);
    ghost var most := RepeatEnd(cycle, end, st, g.at, 1, n);
    ghost var left: nat := n;
    var pns: bv32 := 1;
    var cc := 1;
    st' := st;
    while cc <= ncyc
      invariant g.Valid()
      invariant if ncyc < DWORD - 1 then left <= n && cc == n - left + 1 else 0 <= cc < DWORD && goal.code != 0
      invariant Repeat(cycle, st', g.at, pns, left) == goal
      invariant Max(buff.end, RepeatEnd(cycle, end, st', g.at, pns, left)) == Max(old(buff.end), most)
      invariant RepeatEnd(cycle, end, st', g.at, pns, left) <= buff.bytes.Length
      decreases left
    {
      assert left > 0;
      code, st', pns := RunCycle(dev, st', g, buff, pns, ss, szBuff, cycle, end);
      if code != 0 { return; }
      cc := (cc + 1) % DWORD;
      left := left - 1;
    }
    code := 0;
  }

  /** `test_diskio` for sectors of ss = _MAX_SS = _MIN_SS bytes, if it ends, after n cycles. The memory has to
      hold what the run touches, whatever szBuff says. */
  method TestDiskIo<St(!new)>(dev: Device<St>, st: St, g: Generator, buff: Buffer, ss: nat, szBuff: nat, ncyc: nat,
                              ghost n: nat)
    returns (code: int, st': St)
    requires g.Valid() && ss >= 2 && Stops(dev, st, g.at, ss, szBuff, ncyc, n)
    requires TestEnd(dev, st, g.at, ss, szBuff, n) <= buff.bytes.Length
    modifies g, buff, buff.bytes
    ensures g.Valid()
    ensures var v := Test(dev, st, old(g.at), ss, szBuff, n); code == v.code && st' == v.st
    ensures buff.end == Max(old(buff.end), TestEnd(dev, st, old(g.at), ss, szBuff, n))
  {
    if szBuff < ss + 4 { return 1, st; }
    code, st' := RunCycles(dev, st, g, buff, ss, szBuff, ncyc, n);
  }
}
