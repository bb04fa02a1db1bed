/** How much buffer the disk checker needs, and when it ends. */
module BufferUse {
  import opened Pattern
  import opened DiskChecker
  import opened DiskVerdicts

  // --- Which buffer is large enough -----------------------------------------------

  /** How far a cycle with this return code got: 1 it cleared the buffer for the third test, 2 it filled it
      for the 4GB test, 3 it compared all of that. */
  function StageOf(code: int, large: bool): nat {
    if code == 17 || code == 18 then 1
    else if 19 <= code <= 24 then 2
    else if code == 0 then if large then 3 else 1
    else 0
  }

  /** The buffer that this takes, beyond what the guard of `test_diskio` makes sure of. */
  function Need(stage: nat, ss: nat): nat {
    if stage == 0 then 0
    else if stage == 1 then ss + 5
    else Max(ss + 5, if stage == 2 then 2 * ss else 2 * ss + 1)
  }

  lemma WriteReadBackCodes<St>(dev: Device<St>, st: St, at: Position, pns: bv32, lba: nat, count: nat, from: nat,
                               to: nat, codes: Codes)
    requires 0 !in {codes.write, codes.sync, codes.read, codes.differ} && count > 0
    requires codes.write !in {codes.read, codes.differ} && codes.sync !in {codes.read, codes.differ}
    ensures var code := WriteReadBack(dev, st, at, pns, lba, count, codes).code;
      && code in {0, codes.write, codes.sync, codes.read, codes.differ}
      && WriteReadBackEnd(dev, st, at, pns, lba, count, from, to)
         == if code in {codes.write, codes.sync} then from + count else Max(from + count, to + count)
  {
  }

  lemma FourGbCodes<St>(dev: Device<St>, st: St, at: Position, pns: bv32, ss: nat, lba: nat, lba2: nat)
    ensures var code := FourGb(dev, st, at, pns, ss, lba, lba2).code; code == 0 || 19 <= code <= 24
  {
  }

  lemma ExerciseFits<St>(dev: Device<St>, st: St, at: Position, pns: bv32, ss: nat, ns: nat, barrier: nat, szDrv: nat,
                         szBuff: nat)
    requires ss > 0 && ns > 0 && ss + 4 <= szBuff && ss * ns <= szBuff
    ensures var code := Exercise(dev, st, at, pns, ss, ns, barrier, szDrv).code;
      ExerciseEnd(dev, st, at, pns, ss, ns, barrier, szDrv) <= szBuff
      <==> Need(StageOf(code, szDrv >= 128 + barrier), ss) <= szBuff
  {
    hide WriteReadBack, WriteReadBackEnd, FourGb;
    assert ss * ns > 0;
    var v1 := WriteReadBack(dev, st, at, pns, 0, ss, SINGLE1);
    WriteReadBackCodes(dev, st, at, pns, 0, ss, 0, 0, SINGLE1);
    var v2 := WriteReadBack(dev, v1.st, v1.at, Succ(pns), 1, ss * ns, MULTIPLE);
    WriteReadBackCodes(dev, v1.st, v1.at, Succ(pns), 1, ss * ns, 0, 0, MULTIPLE);
    var v3 := WriteReadBack(dev, v2.st, v2.at, Succ(Succ(pns)), 5, ss, SINGLE2);
    WriteReadBackCodes(dev, v2.st, v2.at, Succ(Succ(pns)), 5, ss, 3, 5, SINGLE2);
    FourGbCodes(dev, v3.st, v3.at, Succ(Succ(Succ(pns))), ss, 6, 6 + barrier);
  }

  /** The drive reports enough sectors for the 4GB test. */
  predicate SeesLarge<St>(dev: Device<St>, st: St, barrier: nat) {
    dev(dev(st, Initialize).0, SectorCount).1.value % DWORD >= 128 + barrier
  }

  function CycleStage<St>(dev: Device<St>, st: St, at: Position, pns: bv32, ss: nat, ns: nat, barrier: nat): nat {
    StageOf(Cycle(dev, st, at, pns, ss, ns, barrier).code, SeesLarge(dev, st, barrier))
  }

  lemma CycleFits<St>(dev: Device<St>, st: St, at: Position, pns: bv32, ss: nat, ns: nat, barrier: nat, szBuff: nat)
    requires ss > 0 && ns > 0 && ss + 4 <= szBuff && ss * ns <= szBuff
    ensures CycleEnd(dev, st, at, pns, ss, ns, barrier) <= szBuff
       <==> Need(CycleStage(dev, st, at, pns, ss, ns, barrier), ss) <= szBuff
  {
    hide Exercise, ExerciseEnd;
    var (st1, _) := dev(st, Initialize);
    var (st2, c) := dev(st1, SectorCount);
    var (st3, _) := dev(st2, BlockSize);
    ExerciseFits(dev, st3, at, pns, ss, ns, barrier, c.value % DWORD, szBuff);
  }

  function CycleStageOn<St>(dev: Device<St>, ss: nat, ns: nat, barrier: nat): (St, Position, bv32) -> nat {
    (st: St, at: Position, pns: bv32) => CycleStage(dev, st, at, pns, ss, ns, barrier)
  }

  /** The furthest that any of the cycles gets. */
  function RepeatStage<St>(cycle: (St, Position, bv32) -> Verdict<St>, stage: (St, Position, bv32) -> nat, st: St,
                           at: Position, pns: bv32, n: nat): nat
    decreases n
  {
    if n == 0 then 0 else
    var v := cycle(st, at, pns);
    if v.code != 0 then stage(st, at, pns)
    else Max(stage(st, at, pns), RepeatStage(cycle, stage, v.st, v.at, Succ4(pns), n - 1))
  }

  ghost predicate Fits<St>(end: (St, Position, bv32) -> nat, stage: (St, Position, bv32) -> nat, ss: nat, szBuff: nat,
                           st: St, at: Position, pns: bv32)
  {
    end(st, at, pns) <= szBuff <==> Need(stage(st, at, pns), ss) <= szBuff
  }

  lemma {:induction false} RepeatFits<St(!new)>(cycle: (St, Position, bv32) -> Verdict<St>,
                                                end: (St, Position, bv32) -> nat, stage: (St, Position, bv32) -> nat,
                                                st: St, at: Position, pns: bv32, n: nat, ss: nat, szBuff: nat)
    requires forall st, at, pns :: Fits(end, stage, ss, szBuff, st, at, pns)
    ensures RepeatEnd(cycle, end, st, at, pns, n) <= szBuff
       <==> Need(RepeatStage(cycle, stage, st, at, pns, n), ss) <= szBuff
    decreases n
  {
    if n > 0 {
      assert Fits(end, stage, ss, szBuff, st, at, pns);
      var v := cycle(st, at, pns);
      RepeatFits(cycle, end, stage, v.st, v.at, Succ4(pns), n - 1, ss, szBuff);
    }
  }

  function TestStage<St>(dev: Device<St>, st: St, at: Position, ss: nat, szBuff: nat, n: nat): nat
    requires ss >= 2
  {
    var ns, barrier := SectorsAtOnce(szBuff, ss), Barrier(ss);
    RepeatStage(CycleOn(dev, ss, ns, barrier), CycleStageOn(dev, ss, ns, barrier), st, at, 1, n)
  }

  lemma SectorsOnce(szBuff: nat, ss: nat)
    requires ss > 0 && szBuff >= ss
    ensures 0 < SectorsAtOnce(szBuff, ss) <= 4 && ss * SectorsAtOnce(szBuff, ss) <= szBuff
  {
    SectorsFit(szBuff, ss);
  }

  /** On any drive, a run stays within the buffer that it was given exactly when the guard turns that buffer
      down or it has the bytes that the furthest cycle needs. */
  lemma StaysInBuffer<St(!new)>(dev: Device<St>, st: St, at: Position, ss: nat, szBuff: nat, n: nat)
    requires ss >= 2
    ensures TestEnd(dev, st, at, ss, szBuff, n) <= szBuff
       <==> szBuff < ss + 4 || Need(TestStage(dev, st, at, ss, szBuff, n), ss) <= szBuff
  {
    if szBuff >= ss + 4 {
      hide CycleEnd, CycleStage, Cycle, Barrier, SectorsAtOnce, Need;
      SectorsOnce(szBuff, ss);
      var ns, barrier := SectorsAtOnce(szBuff, ss), Barrier(ss);
      var end, stage := CycleEndOn(dev, ss, ns, barrier), CycleStageOn(dev, ss, ns, barrier);
      forall st, at, pns
        ensures Fits(end, stage, ss, szBuff, st, at, pns)
      {
        CycleFits(dev, st, at, pns, ss, ns, barrier, szBuff);
      }
      RepeatFits(CycleOn(dev, ss, ns, barrier), end, stage, st, at, 1, n, ss, szBuff);
    }
  }

  // --- On a mapped drive -----------------------------------------------------------

  lemma ExerciseStage<St>(dev: Device<St>, st: St, at: Position, pns: bv32, ss: nat, ns: nat, barrier: nat, szDrv: nat)
    requires ss > 0 && ns > 0
    ensures StageOf(Exercise(dev, st, at, pns, ss, ns, barrier, szDrv).code, szDrv >= 128 + barrier)
         <= if szDrv >= 128 + barrier then 3 else 1
  {
    hide WriteReadBack, FourGb;
    assert ss * ns > 0;
    var v1 := WriteReadBack(dev, st, at, pns, 0, ss, SINGLE1);
    WriteReadBackCodes(dev, st, at, pns, 0, ss, 0, 0, SINGLE1);
    var v2 := WriteReadBack(dev, v1.st, v1.at, Succ(pns), 1, ss * ns, MULTIPLE);
    WriteReadBackCodes(dev, v1.st, v1.at, Succ(pns), 1, ss * ns, 0, 0, MULTIPLE);
    WriteReadBackCodes(dev, v2.st, v2.at, Succ(Succ(pns)), 5, ss, 3, 5, SINGLE2);
  }

  lemma MappedStages(phys: nat -> nat, size: nat, st: Store, at: Position, pns: bv32, ss: nat, ns: nat, barrier: nat)
    requires ss > 0 && ns > 0 && size < DWORD
    ensures CycleStage(Mapped(phys, size, ss), st, at, pns, ss, ns, barrier) <= if size >= 128 + barrier then 3 else 1
  {
    hide Exercise;
    var dev := Mapped(phys, size, ss);
    assert Answers(dev, size);
    CycleIsExercise(dev, size, st, at, pns, ss, ns, barrier);
    ExerciseStage(dev, st, at, pns, ss, ns, barrier, size);
  }

  lemma {:induction false} RepeatAtMost<St(!new)>(cycle: (St, Position, bv32) -> Verdict<St>,
                                                  stage: (St, Position, bv32) -> nat, st: St, at: Position,
                                                  pns: bv32, n: nat, most: nat)
    requires forall st, at, pns :: stage(st, at, pns) <= most
    ensures RepeatStage(cycle, stage, st, at, pns, n) <= most
    decreases n
  {
    if n > 0 {
      var v := cycle(st, at, pns);
      RepeatAtMost(cycle, stage, v.st, v.at, Succ4(pns), n - 1, most);
    }
  }

  /** How far the cycles get on a drive that maps LBAs to slots. */
  ghost function MappedStage(phys: nat -> nat, size: nat, ns: nat, barrier: nat): nat {
    if size < 128 || !Apart(phys, 1, ns) then 0
    else if size < 128 + barrier then 1
    else if phys(6) == phys(6 + barrier) then 2
    else 3
  }

  lemma MappedRunStage(phys: nat -> nat, size: nat, st: Store, at: Position, ss: nat, szBuff: nat, n: nat)
    requires 25 <= ss < 0x1_0000 && size < DWORD && szBuff >= ss && n > 0
    ensures TestStage(Mapped(phys, size, ss), st, at, ss, szBuff, n)
         == MappedStage(phys, size, SectorsAtOnce(szBuff, ss), Barrier(ss))
  {
    hide Cycle, Barrier, SectorsAtOnce, CycleStage;
    SectorsOnce(szBuff, ss);
    var dev, ns, barrier := Mapped(phys, size, ss), SectorsAtOnce(szBuff, ss), Barrier(ss);
    var cycle, stage := CycleOn(dev, ss, ns, barrier), CycleStageOn(dev, ss, ns, barrier);
    FirstStage(phys, size, st, at, ss, ns, barrier);
    var most := if size >= 128 + barrier then 3 else 1;
    forall st, at, pns
      ensures stage(st, at, pns) <= most
    {
      MappedStages(phys, size, st, at, pns, ss, ns, barrier);
    }
    var v := cycle(st, at, 1);
    RepeatAtMost(cycle, stage, v.st, v.at, Succ4(1), n - 1, most);
  }

  lemma FirstStage(phys: nat -> nat, size: nat, st: Store, at: Position, ss: nat, ns: nat, barrier: nat)
    requires 25 <= ss < 0x1_0000 && size < DWORD && 0 < ns <= 4
    ensures var dev := Mapped(phys, size, ss);
      && CycleStage(dev, st, at, 1, ss, ns, barrier) == MappedStage(phys, size, ns, barrier)
      && (MappedStage(phys, size, ns, barrier) in {1, 3} <==> Cycle(dev, st, at, 1, ss, ns, barrier).code == 0)
  {
    hide Cycle, Apart;
    var dev := Mapped(phys, size, ss);
    assert UsualSeed(1) && Succ(Succ(Succ(1))) != 0;
    CycleVerdict(dev, phys, size, st, at, 1, ss, ns, barrier);
    assert CycleReturns(CycleOn(dev, ss, ns, barrier), phys, size, ns, barrier, st, at, 1);
  }

  /** The exact need on every drive that maps LBAs to slots. The guard lets in ss + 4 bytes; the third test
      takes one byte more, and the 4GB test two sectors, and the byte behind them unless it fails. */
  lemma MappedDriveBuffer(phys: nat -> nat, size: nat, st: Store, at: Position, ss: nat, szBuff: nat, n: nat)
    requires 25 <= ss < 0x1_0000 && size < DWORD && n > 0
    ensures TestEnd(Mapped(phys, size, ss), st, at, ss, szBuff, n) <= szBuff
       <==> || szBuff < ss + 4
            || size < 128
            || !Apart(phys, 1, SectorsAtOnce(szBuff, ss))
            || (&& szBuff >= ss + 5
                && (size >= 128 + Barrier(ss) ==>
                      szBuff >= if phys(6) == phys(6 + Barrier(ss)) then 2 * ss else 2 * ss + 1))
  {
    hide TestEnd, TestStage, Apart, Barrier, SectorsAtOnce;
    StaysInBuffer(Mapped(phys, size, ss), st, at, ss, szBuff, n);
    if szBuff >= ss + 4 {
      MappedRunStage(phys, size, st, at, ss, szBuff, n);
    }
  }

  /** The smallest buffer that the guard admits, and a faultless drive of 128 sectors of 512 bytes. */
  lemma SmallestBufferIsLeft(st: Store, at: Position)
    ensures TestEnd(Mapped((lba: nat) => lba, 128, 512), st, at, 512, 516, 1) > 516
  {
    hide TestEnd;
    MappedDriveBuffer((lba: nat) => lba, 128, st, at, 512, 516, 1);
  }

  /** On an 8 GB drive a buffer of two sectors is left, one of four is not. */
  lemma TwoSectorsAreTooFew(st: Store, at: Position)
    ensures TestEnd(Mapped((lba: nat) => lba, 0x100_0000, 512), st, at, 512, 1024, 1) > 1024
    ensures TestEnd(Mapped((lba: nat) => lba, 0x100_0000, 512), st, at, 512, 2048, 1) <= 2048
  {
    hide TestEnd;
    assert Barrier(512) == 0x80_0000;
    MappedDriveBuffer((lba: nat) => lba, 0x100_0000, st, at, 512, 1024, 1);
    MappedDriveBuffer((lba: nat) => lba, 0x100_0000, st, at, 512, 2048, 1);
  }

  // --- When the loop ends ------------------------------------------------------------

  lemma {:induction false} RepeatStops<St>(cycle: (St, Position, bv32) -> Verdict<St>,
                                           end: (St, Position, bv32) -> nat, st: St, at: Position, pns: bv32,
                                           n: nat, m: nat)
    requires n <= m && Repeat(cycle, st, at, pns, n).code != 0
    ensures Repeat(cycle, st, at, pns, m) == Repeat(cycle, st, at, pns, n)
    ensures RepeatEnd(cycle, end, st, at, pns, m) == RepeatEnd(cycle, end, st, at, pns, n)
    decreases n
  {
    if n > 0 {
      var v := cycle(st, at, pns);
      if v.code == 0 {
        RepeatStops(cycle, end, v.st, v.at, Succ4(pns), n - 1, m - 1);
      }
    }
  }

  /** Whatever number of cycles a run is said to stop after, it does the same. */
  lemma StopsOnce<St>(dev: Device<St>, st: St, at: Position, ss: nat, szBuff: nat, ncyc: nat, n: nat, m: nat)
    requires ss >= 2 && Stops(dev, st, at, ss, szBuff, ncyc, n) && Stops(dev, st, at, ss, szBuff, ncyc, m)
    ensures Test(dev, st, at, ss, szBuff, n) == Test(dev, st, at, ss, szBuff, m)
    ensures TestEnd(dev, st, at, ss, szBuff, n) == TestEnd(dev, st, at, ss, szBuff, m)
  {
    if szBuff >= ss + 4 && n != m {
      hide CycleOn, CycleEndOn, Barrier, SectorsAtOnce;
      var ns, barrier := SectorsAtOnce(szBuff, ss), Barrier(ss);
      var cycle, end := CycleOn(dev, ss, ns, barrier), CycleEndOn(dev, ss, ns, barrier);
      RepeatStops(cycle, end, st, at, 1, if n < m then n else m, if n < m then m else n);
    }
  }

  ghost predicate Ends<St>(dev: Device<St>, st: St, at: Position, ss: nat, szBuff: nat, ncyc: nat)
    requires ss >= 2
  {
    exists n :: Stops(dev, st, at, ss, szBuff, ncyc, n)
  }

  /** Asked for 2^32 - 1 cycles, the checker never ends on a faultless drive that is too small for the 4GB
      test, and rejects every larger one, if only when its seed has wrapped around to 0. */
  lemma LargestCount(phys: nat -> nat, size: nat, st: Store, at: Position, ss: nat, szBuff: nat)
    requires 25 <= ss < 0x1_0000 && size < DWORD
    ensures Ends(Mapped(phys, size, ss), st, at, ss, szBuff, DWORD - 1)
       <==> || szBuff < ss + 4
            || size < 128
            || !Apart(phys, 1, SectorsAtOnce(szBuff, ss))
            || size >= 128 + Barrier(ss)
  {
    hide Apart, Barrier, SectorsAtOnce, Test;
    var dev := Mapped(phys, size, ss);
    MappedVerdict(phys, size, st, at, ss, szBuff, 0x4000_0000);
    assert Stops(dev, st, at, ss, szBuff, DWORD - 1, 0x4000_0000)
      <==> Test(dev, st, at, ss, szBuff, 0x4000_0000).code != 0;
    if Ends(dev, st, at, ss, szBuff, DWORD - 1) {
      var n :| Stops(dev, st, at, ss, szBuff, DWORD - 1, n);
      MappedVerdict(phys, size, st, at, ss, szBuff, n);
    }
  }

  /** A faultless drive of 128 sectors is checked for ever. */
  lemma NeverEnds(st: Store, at: Position)
    ensures !Ends(Mapped((lba: nat) => lba, 128, 512), st, at, 512, 2048, DWORD - 1)
  {
    hide Ends;
    LargestCount((lba: nat) => lba, 128, st, at, 512, 2048);
  }
}
