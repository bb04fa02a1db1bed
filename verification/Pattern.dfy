/** The byte pattern that `pn` produces, and how much of it identifies the generator's state. */
module Pattern {
  import opened LinearMaps
  import opened Lfsr
  import opened LfsrPeriod

  type Byte = bv8

  /** The low eight bits of a word. */
  function LowByte(s: bv32): Byte {
    (s & 0xFF) as bv8
  }

  /** A place in the sequence: count shifts after the register held seed. */
  datatype Position = Position(seed: bv32, count: nat) {
    function Word(): bv32 {
      Iterate(seed, count)
    }

    function Plus(n: nat): Position {
      Position(seed, count + n)
    }
  }

  /** The n bytes drawn from position p on. */
  function Bytes(p: Position, n: nat): seq<Byte> {
    seq(n, i requires 0 <= i < n => LowByte(p.Plus(i + 1).Word()))
  }

  /** The position after `pn(pns)`: a nonzero argument reseeds and discards 32 values. */
  function Seeded(p: Position, pns: bv32): Position {
    if pns == 0 then p.Plus(1) else Position(pns, 33)
  }

  /** The generator: `lfsr` is the static variable of `pn`, zero when the program starts. */
  class Generator {
    var lfsr: bv32
    ghost var at: Position

    ghost predicate Valid()
      reads this
    {
      lfsr == at.Word()
    }

    constructor ()
      ensures Valid() && at == Position(0, 0)
    {
      lfsr := 0;
      at := Position(0, 0);
    }

    /** pn: a nonzero argument seeds the register and discards 32 values first. */
    method Pn(pns: bv32) returns (r: bv32)
      requires pns != 0 || Valid()
      modifies this
      ensures Valid() && at == Seeded(old(at), pns)
      ensures r == lfsr
      ensures pns != 0 ==> r == Iterate(pns, 33)
      ensures pns == 0 ==> r == Step(old(lfsr))
      decreases if pns == 0 then 0 else 1
    {
      hide Iterate, Step;
      if pns != 0 {
        lfsr := pns;
        at := Position(pns, 0);
        NoneYet(pns);
        for n := 0 to 32
          invariant Valid() && at == Position(pns, n)
        {
          var _ := Pn(0);
        }
      }
      lfsr := Shifted(lfsr);
      OneMore(at.seed, at.count);
      at := at.Plus(1);
      return lfsr;
    }

    /** The last part of pn, on the value of the register. */
    static method Shifted(s: bv32) returns (t: bv32)
      ensures t == Step(s)
    {
      if s & 1 == 1 {
        t := s >> 1;
        t := t ^ 0x8020_0003;
      } else {
        t := s >> 1;
      }
    }
  }

  lemma AfterEight(s: bv32)
    ensures Iterate(s, 8) == Step(Step(Step(Step(Step(Step(Step(Step(s))))))))
  {
    hide Step, Iterate;
    NoneYet(s);
    OneMore(s, 0);
    OneMore(s, 1);
    OneMore(s, 2);
    OneMore(s, 3);
    OneMore(s, 4);
    OneMore(s, 5);
    OneMore(s, 6);
    OneMore(s, 7);
  }

  lemma NoneYet(s: bv32)
    ensures Iterate(s, 0) == s
  {
  }

  /** The value of pn(1), the first that the disk checker asks for. */
  lemma FirstValue()
    ensures Iterate(1, 33) == 0xC527_9ED9
  {
    hide Iterate;
    AfterEight(1);
    AfterEight(0xDB36_C002);
    AfterEight(0xB6F6_B6C3);
    AfterEight(0x2DBD_B6B6);
    IterateAdd(1, 8, 8);
    IterateAdd(1, 16, 8);
    IterateAdd(1, 24, 8);
    OneMore(1, 32);
  }

  lemma OneMore(s: bv32, n: nat)
    ensures Iterate(s, n + 1) == Step(Iterate(s, n))
  {
  }

  // --- 25 bytes determine the state ----------------------------------------

  function Up(v: bv32, n: nat): bv32
    decreases n
  {
    if n == 0 then v else Up(v << 1, n - 1)
  }

  lemma {:induction false} UpAdd(v: bv32, m: nat, n: nat)
    ensures Up(Up(v, m), n) == Up(v, m + n)
    decreases m
  {
    if m > 0 {
      UpAdd(v << 1, m - 1, n);
    }
  }

  lemma UpEight(v: bv32)
    ensures Up(v, 8) == v << 8
  {
  }

  lemma UpClears(v: bv32)
    requires v & 0xFF == 0
    ensures Up(v, 24) == 0
  {
    UpEight(v);
    UpEight(v << 8);
    UpEight((v << 8) << 8);
    UpAdd(v, 8, 8);
    UpAdd(v, 16, 8);
    assert v & 0xFF == 0 ==> ((v << 8) << 8) << 8 == 0;
  }

  lemma UpOnce(w: bv32, v: bv32, n: nat)
    requires n > 0 && w << 1 == v
    ensures Up(w, n) == Up(v, n - 1)
  {
  }

  lemma EvenStep(v: bv32)
    requires v & 0xFF == 0
    ensures Step(v) << 1 == v
  {
    assert v & 0xFF == 0 ==> v & 1 == 0;
    EvenBack(v);
  }

  lemma {:induction false} Rewind(u: bv32, n: nat)
    requires forall i :: 0 <= i < n ==> Iterate(u, i) & 0xFF == 0
    ensures u == Up(Iterate(u, n), n)
  {
    if n > 0 {
      Rewind(u, n - 1);
      var v := Iterate(u, n - 1);
      assert v & 0xFF == 0;
      EvenStep(v);
      UpOnce(Step(v), v, n);
    }
  }

  /** A state whose next 24 successors, and itself, have a zero low byte is zero. */
  lemma ZeroBytesZeroState(u: bv32)
    requires forall i :: 0 <= i < 25 ==> Iterate(u, i) & 0xFF == 0
    ensures u == 0
  {
    Rewind(u, 24);
    assert Iterate(u, 24) & 0xFF == 0;
    UpClears(Iterate(u, 24));
  }

  lemma LowByteXor(a: bv32, b: bv32)
    requires LowByte(a) == LowByte(b)
    ensures Xor(a, b) & 0xFF == 0
  {
  }

  lemma XorZero(a: bv32, b: bv32)
    requires Xor(a, b) == 0
    ensures a == b
  {
  }

  lemma {:induction false} FirstStep(s: bv32, i: nat)
    ensures Iterate(s, i + 1) == Iterate(Step(s), i)
  {
    if i > 0 {
      FirstStep(s, i - 1);
    }
  }

  lemma IterateXor(u: bv32, v: bv32, i: nat)
    ensures Iterate(Xor(u, v), i) == Xor(Iterate(u, i), Iterate(v, i))
  {
    IterateIsLinear(i);
    assert LinearAt(Xor, x => Iterate(x, i), u, v);
  }

  /** 25 consecutive bytes determine the state they were drawn from. */
  lemma BytesDetermineState(p: Position, q: Position, n: nat)
    requires n >= 25 && Bytes(p, n) == Bytes(q, n)
    ensures p.Word() == q.Word()
  {
    hide Iterate, Step, Xor, LowByte;
    var s, t := p.Word(), q.Word();
    var u, v := Step(s), Step(t);
    forall i | 0 <= i < 25 ensures Iterate(Xor(u, v), i) & 0xFF == 0 {
      assert Bytes(p, n)[i] == Bytes(q, n)[i];
      IterateAdd(p.seed, p.count, i + 1);
      IterateAdd(q.seed, q.count, i + 1);
      FirstStep(s, i);
      FirstStep(t, i);
      IterateXor(u, v, i);
      LowByteXor(Iterate(u, i), Iterate(v, i));
    }
    ZeroBytesZeroState(Xor(u, v));
    XorZero(u, v);
    StepIsBijective(s);
    StepIsBijective(t);
  }

  /** Windows of 25 or more bytes taken from different places of the cycle differ. */
  lemma WindowsDiffer(p: Position, d: nat, n: nat)
    requires p.seed != 0 && d % PERIOD != 0 && n >= 25
    ensures Bytes(p, n) != Bytes(p.Plus(d), n)
  {
    DistinctStates(p.seed, p.count, d);
    if Bytes(p, n) == Bytes(p.Plus(d), n) {
      BytesDetermineState(p, p.Plus(d), n);
    }
  }

  lemma BytesSplit(p: Position, m: nat, n: nat)
    ensures Bytes(p, m + n) == Bytes(p, m) + Bytes(p.Plus(m), n)
  {
    var a, b := Bytes(p, m), Bytes(p.Plus(m), n);
    forall i | 0 <= i < m + n ensures Bytes(p, m + n)[i] == (a + b)[i] {
      if i >= m {
        assert p.Plus(m).Plus(i - m + 1) == p.Plus(i + 1);
      }
    }
  }

  lemma {:induction false} ZeroStays(n: nat)
    ensures Iterate(0, n) == 0
  {
    if n > 0 {
      ZeroStays(n - 1);
      StepKeepsNonzero(0);
    }
  }

  /** 25 or more bytes drawn after a nonzero seed are never all zero. */
  lemma BytesNotAllZero(p: Position, n: nat)
    requires p.seed != 0 && n >= 25
    ensures Bytes(p, n) != seq(n, _ => 0)
  {
    var zero := Position(0, 0);
    forall i | 0 <= i < n ensures Bytes(zero, n)[i] == 0 {
      ZeroStays(i + 1);
    }
    assert Bytes(zero, n) == seq(n, _ => 0);
    if Bytes(p, n) == seq(n, _ => 0) {
      BytesDetermineState(p, zero, n);
      IterateKeepsNonzero(p.seed, p.count);
    }
  }
}
