/** The requests that one cycle of the disk checker makes, and what its return code says about them. */
module DiskProtocol {
  import opened Pattern
  import opened DiskChecker
  import opened DiskVerdicts

  datatype Call = Call(request: Request, reply: Reply)

  /** dev, with a log of its calls. */
  function Logging<St>(dev: Device<St>): Device<(St, seq<Call>)> {
    (s: (St, seq<Call>), r: Request) =>
      var (st, reply) := dev(s.0, r);
      ((st, s.1 + [Call(r, reply)]), reply)
  }

  /** w is what v would be on a logging drive. */
  ghost predicate Logged<St>(v: Verdict<St>, w: Verdict<(St, seq<Call>)>) {
    w.code == v.code && w.st.0 == v.st && w.at == v.at
  }

  /** The requests of a write/read-back test. */
  function TestPlan(lba: nat, data: seq<Byte>): seq<Request> {
    [Write(lba, data), Sync, Read(lba, |data|)]
  }

  /** The calls in the log are the first n of the plan. All but the last have succeeded, and the last has if
      ok says so; the answer to the question for the block size, call 2, does not matter. */
  ghost predicate Along(log: seq<Call>, plan: seq<Request>, n: nat, ok: bool) {
    && n <= |plan| && |log| == n
    && (forall k :: 0 <= k < n ==> log[k].request == plan[k])
    && (forall k :: 0 <= k < n && k != 2 ==> log[k].reply.ok == (k < n - 1 || ok))
  }

  lemma AlongNext(log: seq<Call>, plan: seq<Request>, n: nat, r: Request, reply: Reply)
    requires Along(log, plan, n, true) && 3 <= n < |plan| && r == plan[n]
    ensures |log| == n && Along(log + [Call(r, reply)], plan, n + 1, reply.ok)
  {
  }

  /** Read number i of the log has delivered these data. */
  ghost predicate Delivered(log: seq<Call>, i: nat, data: seq<Byte>) {
    i < |log| && Fit(log[i].reply.data, |data|) == data
  }

  lemma DataLength(p: Position, n: nat)
    ensures |Bytes(p, n)| == n
  {
  }

  /** One test: the code tells how many of its three requests were made, and what is read back is compared
      with what was written. */
  lemma WriteReadBackLogged<St>(dev: Device<St>, st: St, log: seq<Call>, at: Position, pns: bv32, lba: nat,
                                count: nat, codes: Codes, plan: seq<Request>, i: nat)
    requires pns != 0 && 0 !in {codes.write, codes.sync, codes.read, codes.differ}
    requires codes.write !in {codes.sync, codes.read, codes.differ} && codes.sync !in {codes.read, codes.differ}
    requires codes.read != codes.differ
    requires 3 <= i && i + 3 <= |plan| && plan[i..i + 3] == TestPlan(lba, Bytes(Position(pns, 33), count))
    requires Along(log, plan, i, true)
    ensures var v := WriteReadBack(dev, st, at, pns, lba, count, codes);
      var w := WriteReadBack(Logging(dev), (st, log), at, pns, lba, count, codes);
      && Logged(v, w) && |w.st.1| >= i && w.st.1[..i] == log
      && v.code in {0, codes.write, codes.sync, codes.read, codes.differ}
      && (if v.code == codes.write then Along(w.st.1, plan, i + 1, false)
          else if v.code == codes.sync then Along(w.st.1, plan, i + 2, false)
          else if v.code == codes.read then Along(w.st.1, plan, i + 3, false)
          else && Along(w.st.1, plan, i + 3, true)
               && (v.code == 0 <==> Delivered(w.st.1, i + 2, Bytes(Position(pns, 33), count))))
      && (v.code == 0 ==> v.at == Position(pns, 33 + count))
  {
    hide Fit, Bytes, Along;
    var data := Bytes(Position(pns, 33), count);
    DataLength(Position(pns, 33), count);
    PlanOfTest(plan, i, lba, data);
    var (st1, w) := dev(st, Write(lba, data));
    var log1 := log + [Call(Write(lba, data), w)];
    AlongNext(log, plan, i, Write(lba, data), w);
    if w.ok {
      var (st2, y) := dev(st1, Sync);
      var log2 := log1 + [Call(Sync, y)];
      AlongNext(log1, plan, i + 1, Sync, y);
      if y.ok {
        var (st3, r) := dev(st2, Read(lba, count));
        AlongNext(log2, plan, i + 2, Read(lba, count), r);
      }
    }
  }

  lemma PlanOfTest(plan: seq<Request>, i: nat, lba: nat, data: seq<Byte>)
    requires i + 3 <= |plan| && plan[i..i + 3] == TestPlan(lba, data)
    ensures plan[i] == Write(lba, data) && plan[i + 1] == Sync && plan[i + 2] == Read(lba, |data|)
  {
    var part := plan[i..i + 3];
    assert plan[i] == part[0] && plan[i + 1] == part[1] && plan[i + 2] == part[2];
  }

  /** The requests of the 4GB test. */
  function FourGbPlan(lba: nat, lba2: nat, data: seq<Byte>, ss: nat): seq<Request>
    requires |data| == 2 * ss
  {
    [Write(lba, data[..ss]), Write(lba2, data[ss..]), Sync, Read(lba, ss), Read(lba2, ss)]
  }

  lemma FourGbLogged<St>(dev: Device<St>, st: St, log: seq<Call>, at: Position, pns: bv32, ss: nat, lba: nat,
                         lba2: nat, plan: seq<Request>, i: nat)
    requires 3 <= i && i + 5 <= |plan|
    requires plan[i..i + 5] == FourGbPlan(lba, lba2, Bytes(Seeded(at, pns), 2 * ss), ss)
    requires Along(log, plan, i, true)
    ensures var v := FourGb(dev, st, at, pns, ss, lba, lba2);
      var w := FourGb(Logging(dev), (st, log), at, pns, ss, lba, lba2);
      var data := Bytes(Seeded(at, pns), 2 * ss);
      && Logged(v, w) && |w.st.1| >= i && w.st.1[..i] == log
      && (v.code == 0 || 19 <= v.code <= 24)
      && (if 19 <= v.code <= 23 then Along(w.st.1, plan, i + v.code - 18, false)
          else && Along(w.st.1, plan, i + 5, true)
               && (pns != 0 ==> (v.code == 0 <==>
                     Delivered(w.st.1, i + 3, data[..ss]) && Delivered(w.st.1, i + 4, data[ss..]))))
  {
    hide Fit, Bytes, Along, Seeded, Delivered, FourGbPlan;
    var data := Bytes(Seeded(at, pns), 2 * ss);
    DataLength(Seeded(at, pns), 2 * ss);
    PlanOfFourGb(plan, i, lba, lba2, data, ss);
    var (st1, w1) := dev(st, Write(lba, data[..ss]));
    var log1 := log + [Call(Write(lba, data[..ss]), w1)];
    AlongNext(log, plan, i, Write(lba, data[..ss]), w1);
    if w1.ok {
      var (st2, w2) := dev(st1, Write(lba2, data[ss..]));
      var log2 := log1 + [Call(Write(lba2, data[ss..]), w2)];
      AlongNext(log1, plan, i + 1, Write(lba2, data[ss..]), w2);
      if w2.ok {
        var (st3, y) := dev(st2, Sync);
        var log3 := log2 + [Call(Sync, y)];
        AlongNext(log2, plan, i + 2, Sync, y);
        if y.ok {
          var (st4, r1) := dev(st3, Read(lba, ss));
          var log4 := log3 + [Call(Read(lba, ss), r1)];
          AlongNext(log3, plan, i + 3, Read(lba, ss), r1);
          if r1.ok {
            var (st5, r2) := dev(st4, Read(lba2, ss));
            var log5 := log4 + [Call(Read(lba2, ss), r2)];
            AlongNext(log4, plan, i + 4, Read(lba2, ss), r2);
            SeededTwice(at, Seeded(at, pns).Plus(2 * ss), pns);
            BothDelivered(log5, i, r1, r2, data, ss);
          }
        }
      }
    }
  }

  lemma BothDelivered(log: seq<Call>, i: nat, r1: Reply, r2: Reply, data: seq<Byte>, ss: nat)
    requires |log| == i + 5 && log[i + 3].reply == r1 && log[i + 4].reply == r2 && |data| == 2 * ss
    ensures Fit(r1.data, ss) + Fit(r2.data, ss) == data <==>
            Delivered(log, i + 3, data[..ss]) && Delivered(log, i + 4, data[ss..])
  {
    hide Fit;
    BothParts(r1.data, r2.data, data, ss);
  }

  lemma SeededTwice(at: Position, drawn: Position, pns: bv32)
    ensures pns != 0 ==> Seeded(at, pns) == Seeded(drawn, pns)
  {
  }

  lemma BothParts(a: seq<Byte>, b: seq<Byte>, data: seq<Byte>, ss: nat)
    requires |data| == 2 * ss
    ensures Fit(a, ss) + Fit(b, ss) == data <==> Fit(a, ss) == data[..ss] && Fit(b, ss) == data[ss..]
  {
    hide Fit;
    FitLength(a, ss);
    FitLength(b, ss);
    assert data == data[..ss] + data[ss..];
    SameConcat(Fit(a, ss), Fit(b, ss), data[..ss], data[ss..]);
  }

  lemma FitLength(data: seq<Byte>, n: nat)
    ensures |Fit(data, n)| == n
  {
  }

  lemma PlanOfFourGb(plan: seq<Request>, i: nat, lba: nat, lba2: nat, data: seq<Byte>, ss: nat)
    requires i + 5 <= |plan| && |data| == 2 * ss && plan[i..i + 5] == FourGbPlan(lba, lba2, data, ss)
    ensures plan[i] == Write(lba, data[..ss]) && plan[i + 1] == Write(lba2, data[ss..]) && plan[i + 2] == Sync
    ensures plan[i + 3] == Read(lba, ss) && plan[i + 4] == Read(lba2, ss)
  {
    var part := plan[i..i + 5];
    assert plan[i] == part[0] && plan[i + 1] == part[1] && plan[i + 2] == part[2] && plan[i + 3] == part[3]
        && plan[i + 4] == part[4];
  }

  // --- One cycle --------------------------------------------------------------------

  /** The data of the 4GB test: like those of the other tests, unless the seed has wrapped around to 0. */
  function FourGbData(pns: bv32, ss: nat): (r: seq<Byte>)
    ensures |r| == 2 * ss
    ensures Succ(Succ(Succ(pns))) != 0 ==> r == Bytes(Position(Succ(Succ(Succ(pns))), 33), 2 * ss)
  {
    Bytes(Seeded(Position(Succ(Succ(pns)), 33 + ss), Succ(Succ(Succ(pns)))), 2 * ss)
  }

  /** All requests of a cycle: ss is the sector size, ns the number of sectors of the second test, far the
      distance of the 4GB test. */
  function Plan(pns: bv32, ss: nat, ns: nat, far: nat): (r: seq<Request>)
    ensures |r| == 17
  {
    [Initialize, SectorCount, BlockSize]
    + TestPlan(0, Bytes(Position(pns, 33), ss))
    + TestPlan(1, Bytes(Position(Succ(pns), 33), ss * ns))
    + TestPlan(5, Bytes(Position(Succ(Succ(pns)), 33), ss))
    + FourGbPlan(6, 6 + far, FourGbData(pns, ss), ss)
  }

  lemma PlanParts(pns: bv32, ss: nat, ns: nat, far: nat)
    ensures var plan := Plan(pns, ss, ns, far);
      && plan[0] == Initialize && plan[1] == SectorCount && plan[2] == BlockSize
      && plan[3..6] == TestPlan(0, Bytes(Position(pns, 33), ss))
      && plan[6..9] == TestPlan(1, Bytes(Position(Succ(pns), 33), ss * ns))
      && plan[9..12] == TestPlan(5, Bytes(Position(Succ(Succ(pns)), 33), ss))
      && plan[12..17] == FourGbPlan(6, 6 + far, FourGbData(pns, ss), ss)
  {
    hide Bytes, Seeded, FourGbData;
  }

  /** How many requests a cycle makes before it returns this code. */
  function Steps(code: int, large: bool): nat {
    if code == 2 then 1
    else if code == 3 || code == 4 then 2
    else if code == 6 then 4
    else if code == 7 then 5
    else if code == 8 || code == 10 then 6
    else if code == 11 then 7
    else if code == 12 then 8
    else if code == 13 || code == 14 then 9
    else if code == 15 then 10
    else if code == 16 then 11
    else if code == 17 || code == 18 then 12
    else if code == 19 then 13
    else if code == 20 then 14
    else if code == 21 then 15
    else if code == 22 then 16
    else if code == 23 || code == 24 || large then 17
    else 12
  }

  /** The codes that report what the checker itself has found, not that a call has failed. */
  predicate Verdicts(code: int) {
    code in {0, 4, 10, 14, 18, 24}
  }

  const CODES: set<int> := {0, 2, 3, 4, 6, 7, 8, 10, 11, 12, 13, 14, 15, 16, 17, 18, 19, 20, 21, 22, 23, 24}

  /** What a cycle compares: code 10, 14, 18 or 24 says that a test has read back something else than it had
      written; otherwise every test that was finished has read back its data. */
  ghost predicate Compared(log: seq<Call>, code: int, pns: bv32, ss: nat, ns: nat) {
    var n := |log|;
    var data := FourGbData(pns, ss);
    && (code == 10 || n > 6 ==> (code != 10 <==> Delivered(log, 5, Bytes(Position(pns, 33), ss))))
    && (code == 14 || n > 9 ==> (code != 14 <==> Delivered(log, 8, Bytes(Position(Succ(pns), 33), ss * ns))))
    && (code == 18 || code == 0 || n > 12 ==>
          (code != 18 <==> Delivered(log, 11, Bytes(Position(Succ(Succ(pns)), 33), ss))))
    && (n == 17 && code in {0, 24} && Succ(Succ(Succ(pns))) != 0 ==>
          (code == 0 <==> Delivered(log, 15, data[..ss]) && Delivered(log, 16, data[ss..])))
  }

  lemma DeliveredStays(log: seq<Call>, log': seq<Call>, i: nat, data: seq<Byte>)
    requires i < |log| <= |log'| && log'[..|log|] == log
    ensures Delivered(log', i, data) <==> Delivered(log, i, data)
  {
    assert log'[..|log|][i] == log'[i];
  }

  lemma AlongLength(log: seq<Call>, plan: seq<Request>, n: nat, ok: bool)
    requires Along(log, plan, n, ok)
    ensures |log| == n
  {
  }

  lemma PrefixOfPrefix(a: seq<Call>, b: seq<Call>, c: seq<Call>)
    requires |a| <= |b| <= |c| && b[..|a|] == a && c[..|b|] == b
    ensures c[..|a|] == a
  {
    assert c[..|a|] == c[..|b|][..|a|];
  }

  lemma ExerciseLogged<St>(dev: Device<St>, st: St, log: seq<Call>, at: Position, pns: bv32, ss: nat, ns: nat,
                           far: nat, szDrv: nat)
    requires UsualSeed(pns) && Along(log, Plan(pns, ss, ns, far), 3, true)
    ensures var v := Exercise(dev, st, at, pns, ss, ns, far, szDrv);
      var w := Exercise(Logging(dev), (st, log), at, pns, ss, ns, far, szDrv);
      && Logged(v, w) && |w.st.1| >= 3 && w.st.1[..3] == log && v.code in CODES && v.code !in {2, 3, 4}
      && Along(w.st.1, Plan(pns, ss, ns, far), Steps(v.code, szDrv >= 128 + far), Verdicts(v.code))
      && Compared(w.st.1, v.code, pns, ss, ns)
  {
    hide WriteReadBack, FourGb, Along, Plan, Bytes, Delivered, FourGbData, Logging, TestPlan, FourGbPlan;
    var plan, dev' := Plan(pns, ss, ns, far), Logging(dev);
    var d1, d2 := Bytes(Position(pns, 33), ss), Bytes(Position(Succ(pns), 33), ss * ns);
    var d3 := Bytes(Position(Succ(Succ(pns)), 33), ss);
    PlanParts(pns, ss, ns, far);
    AlongLength(log, plan, 3, true);
    WriteReadBackLogged(dev, st, log, at, pns, 0, ss, SINGLE1, plan, 3);
    var v1 := WriteReadBack(dev, st, at, pns, 0, ss, SINGLE1);
    var w1 := WriteReadBack(dev', (st, log), at, pns, 0, ss, SINGLE1);
    var log1 := w1.st.1;
    LengthAfter(log1, plan, 3, v1.code, SINGLE1);
    if v1.code == 0 {
      WriteReadBackLogged(dev, v1.st, log1, v1.at, Succ(pns), 1, ss * ns, MULTIPLE, plan, 6);
      var v2 := WriteReadBack(dev, v1.st, v1.at, Succ(pns), 1, ss * ns, MULTIPLE);
      var w2 := WriteReadBack(dev', w1.st, w1.at, Succ(pns), 1, ss * ns, MULTIPLE);
      var log2 := w2.st.1;
      LengthAfter(log2, plan, 6, v2.code, MULTIPLE);
      PrefixOfPrefix(log, log1, log2);
      DeliveredStays(log1, log2, 5, d1);
      if v2.code == 0 {
        WriteReadBackLogged(dev, v2.st, log2, v2.at, Succ(Succ(pns)), 5, ss, SINGLE2, plan, 9);
        var v3 := WriteReadBack(dev, v2.st, v2.at, Succ(Succ(pns)), 5, ss, SINGLE2);
        var w3 := WriteReadBack(dev', w2.st, w2.at, Succ(Succ(pns)), 5, ss, SINGLE2);
        var log3 := w3.st.1;
        LengthAfter(log3, plan, 9, v3.code, SINGLE2);
        PrefixOfPrefix(log, log2, log3);
        DeliveredStays(log2, log3, 5, d1);
        DeliveredStays(log2, log3, 8, d2);
        if v3.code == 0 && szDrv >= 128 + far {
          LastLogged(dev, v3.st, log, log3, v3.at, pns, ss, ns, far);
        }
      }
    }
  }

  lemma LengthAfter(log: seq<Call>, plan: seq<Request>, i: nat, code: int, codes: Codes)
    ensures code == codes.write && Along(log, plan, i + 1, false) ==> |log| == i + 1
    ensures code == codes.sync && Along(log, plan, i + 2, false) ==> |log| == i + 2
    ensures Along(log, plan, i + 3, false) || Along(log, plan, i + 3, true) ==> |log| == i + 3
  {
  }

  /** The 4GB test at the end of a cycle. */
  lemma LastLogged<St>(dev: Device<St>, st: St, log0: seq<Call>, log: seq<Call>, at: Position, pns: bv32, ss: nat,
                       ns: nat, far: nat)
    requires at == Position(Succ(Succ(pns)), 33 + ss) && Along(log, Plan(pns, ss, ns, far), 12, true)
    requires |log0| == 3 && log[..3] == log0
    requires Delivered(log, 5, Bytes(Position(pns, 33), ss))
    requires Delivered(log, 8, Bytes(Position(Succ(pns), 33), ss * ns))
    requires Delivered(log, 11, Bytes(Position(Succ(Succ(pns)), 33), ss))
    ensures var last := Succ(Succ(Succ(pns)));
      var v := FourGb(dev, st, at, last, ss, 6, 6 + far);
      var w := FourGb(Logging(dev), (st, log), at, last, ss, 6, 6 + far);
      && Logged(v, w) && |w.st.1| >= 3 && w.st.1[..3] == log0 && (v.code == 0 || 19 <= v.code <= 24)
      && Along(w.st.1, Plan(pns, ss, ns, far), Steps(v.code, true), Verdicts(v.code))
      && Compared(w.st.1, v.code, pns, ss, ns)
  {
    hide FourGb, Along, Plan, Bytes, Delivered, Logging, TestPlan, FourGbPlan, Seeded;
    var plan, last := Plan(pns, ss, ns, far), Succ(Succ(Succ(pns)));
    PlanParts(pns, ss, ns, far);
    AlongLength(log, plan, 12, true);
    assert FourGbData(pns, ss) == Bytes(Seeded(at, last), 2 * ss);
    FourGbLogged(dev, st, log, at, last, ss, 6, 6 + far, plan, 12);
    var v := FourGb(dev, st, at, last, ss, 6, 6 + far);
    var w := FourGb(Logging(dev), (st, log), at, last, ss, 6, 6 + far);
    AlongLength(w.st.1, plan, Steps(v.code, true), Verdicts(v.code));
    PrefixOfPrefix(log0, log, w.st.1);
    DeliveredStays(log, w.st.1, 5, Bytes(Position(pns, 33), ss));
    DeliveredStays(log, w.st.1, 8, Bytes(Position(Succ(pns), 33), ss * ns));
    DeliveredStays(log, w.st.1, 11, Bytes(Position(Succ(Succ(pns)), 33), ss));
  }

  /** The log of one cycle, on any drive: the calls are a first part of the plan, the return code tells which
      one was the last and whether it has failed, and the tests compare what was read with what was written. */
  lemma CycleLogged<St>(dev: Device<St>, st: St, at: Position, pns: bv32, ss: nat, ns: nat, far: nat)
    requires UsualSeed(pns)
    ensures var v := Cycle(dev, st, at, pns, ss, ns, far);
      var w := Cycle(Logging(dev), (st, []), at, pns, ss, ns, far);
      var log := w.st.1;
      var large := |log| > 1 && log[1].reply.value % 0x1_0000_0000 >= 128 + far;
      && Logged(v, w) && v.code in CODES
      && Along(log, Plan(pns, ss, ns, far), Steps(v.code, large), Verdicts(v.code))
      && (|log| > 1 && log[1].reply.ok ==> (v.code == 4 <==> log[1].reply.value % 0x1_0000_0000 < 128))
      && Compared(log, v.code, pns, ss, ns)
  {
    hide Exercise, Plan, Bytes, Delivered, FourGbData;
    var plan := Plan(pns, ss, ns, far);
    PlanParts(pns, ss, ns, far);
    var (st1, i) := dev(st, Initialize);
    if i.ok {
      var (st2, c) := dev(st1, SectorCount);
      if c.ok && c.value % DWORD >= 128 {
        var (st3, b) := dev(st2, BlockSize);
        var log := [Call(Initialize, i), Call(SectorCount, c), Call(BlockSize, b)];
        assert [] + [Call(Initialize, i)] + [Call(SectorCount, c)] + [Call(BlockSize, b)] == log;
        hide Along, Compared;
        FirstThree(plan, i, c, b);
        ExerciseLogged(dev, st3, log, at, pns, ss, ns, far, c.value % DWORD);
        var w := Exercise(Logging(dev), (st3, log), at, pns, ss, ns, far, c.value % DWORD);
        assert w.st.1[..3][1] == w.st.1[1];
        AlongLength(w.st.1, plan, Steps(w.code, c.value % DWORD >= 128 + far), Verdicts(w.code));
      }
    }
  }

  lemma FirstThree(plan: seq<Request>, i: Reply, c: Reply, b: Reply)
    requires |plan| == 17 && plan[0] == Initialize && plan[1] == SectorCount && plan[2] == BlockSize
    requires i.ok && c.ok
    ensures Along([Call(Initialize, i), Call(SectorCount, c), Call(BlockSize, b)], plan, 3, true)
  {
  }
}
