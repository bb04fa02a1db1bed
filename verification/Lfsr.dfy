/** The 32-bit Galois LFSR behind `pn`, and the proof that its feedback word
    0x80200003 gives the maximal period 2^32 - 1. */
module Lfsr {
  import opened LinearMaps

  const FEEDBACK: bv32 := 0x8020_0003
  const TOP: bv32 := 0x8000_0000

  function Xor(a: bv32, b: bv32): bv32 { a ^ b }

  /** One shift of the register. */
  function Step(s: bv32): bv32 {
    if s & 1 == 1 then (s >> 1) ^ FEEDBACK else s >> 1
  }

  /** The register after n shifts. */
  function Iterate(s: bv32, n: nat): bv32
    decreases n, s
  {
    if n == 0 then s else Step(Iterate(s, n - 1))
  }

  lemma {:induction false} IterateAdd(s: bv32, m: nat, n: nat)
    ensures Iterate(Iterate(s, m), n) == Iterate(s, m + n)
  {
    if n > 0 {
      IterateAdd(s, m, n - 1);
    }
  }

  // --- A single step: linear and invertible -------------------------------

  /** The register before the last shift: FEEDBACK's top bit tells whether it was applied. */
  function StepBack(t: bv32): bv32 {
    if t & TOP == TOP then ((t ^ FEEDBACK) << 1) | 1 else t << 1
  }

  lemma LowBit(s: bv32)
    ensures s & 1 == 0 || s & 1 == 1
  {
  }

  lemma TopBit(t: bv32)
    ensures t & TOP == 0 || t & TOP == TOP
  {
  }

  lemma FeedbackSetsTop(s: bv32)
    ensures ((s >> 1) ^ FEEDBACK) & TOP == TOP
    ensures (s >> 1) & TOP == 0
  {
  }

  lemma EvenBack(s: bv32)
    requires s & 1 == 0
    ensures (s >> 1) << 1 == s
  {
  }

  lemma OddBack(s: bv32)
    requires s & 1 == 1
    ensures ((((s >> 1) ^ FEEDBACK) ^ FEEDBACK) << 1) | 1 == s
  {
  }

  lemma PlainForth(t: bv32)
    requires t & TOP == 0
    ensures (t << 1) & 1 == 0 && (t << 1) >> 1 == t
  {
  }

  lemma FeedbackForth(t: bv32)
    requires t & TOP == TOP
    ensures (((t ^ FEEDBACK) << 1) | 1) & 1 == 1
    ensures ((((t ^ FEEDBACK) << 1) | 1) >> 1) ^ FEEDBACK == t
  {
  }

  lemma BackOfStep(s: bv32)
    ensures StepBack(Step(s)) == s
  {
    LowBit(s);
    FeedbackSetsTop(s);
    if s & 1 == 1 {
      OddBack(s);
    } else {
      EvenBack(s);
    }
  }

  lemma StepOfBack(t: bv32)
    ensures Step(StepBack(t)) == t
  {
    TopBit(t);
    if t & TOP == TOP {
      FeedbackForth(t);
    } else {
      PlainForth(t);
    }
  }

  lemma StepIsBijective(s: bv32)
    ensures StepBack(Step(s)) == s
    ensures Step(StepBack(s)) == s
  {
    hide Step, StepBack;
    BackOfStep(s);
    StepOfBack(s);
  }

  lemma StepKeepsNonzero(s: bv32)
    ensures Step(s) == 0 <==> s == 0
  {
    StepIsBijective(s);
  }

  // --- The algebra generated by Step --------------------------------------

  /** Step without a branch: the low bit, spread over the word, masks the feedback. */
  function Shift(s: bv32): bv32 { (s >> 1) ^ (FEEDBACK & (0 - (s & 1))) }

  function Shift2(b: bv32): bv32 { Shift(Shift(b)) }
  function Shift4(b: bv32): bv32 { Shift2(Shift2(b)) }
  function Shift8(b: bv32): bv32 { Shift4(Shift4(b)) }
  function Shift16(b: bv32): bv32 { Shift8(Shift8(b)) }

  /** b if the top bit of a is set, 0 otherwise. */
  function Pick(a: bv32, b: bv32): bv32 { b & (0 - (a >> 31)) }

  function Mul2(a: bv32, b: bv32): bv32 { Xor(Pick(a, b), Pick(a << 1, Shift(b))) }
  function Mul4(a: bv32, b: bv32): bv32 { Xor(Mul2(a, b), Mul2(a << 2, Shift2(b))) }
  function Mul8(a: bv32, b: bv32): bv32 { Xor(Mul4(a, b), Mul4(a << 4, Shift4(b))) }
  function Mul16(a: bv32, b: bv32): bv32 { Xor(Mul8(a, b), Mul8(a << 8, Shift8(b))) }

  /** The bits of a, most significant first, say which of b, Shift(b), Shift(Shift(b)), ...
      are added up: the product of a and b modulo the feedback polynomial. */
  function Mul(a: bv32, b: bv32): bv32 { Xor(Mul16(a, b), Mul16(a << 16, Shift16(b))) }

  lemma StepIsShift(s: bv32)
    ensures Step(s) == Shift(s)
  {
    assert s & 1 == 0 || s & 1 == 1;
  }

  lemma XorRegroups(p: bv32, q: bv32, r: bv32)
    ensures Xor(p ^ q, r) == Xor(p, q ^ r)
  {
  }

  lemma XorIsMedial()
    ensures Medial(Xor)
  {
    assert forall p, q :: CommutativeAt(Xor, p, q);
    forall p, q, r ensures AssociativeAt(Xor, p, q, r) {
      XorRegroups(p, q, r);
    }
    MedialFromLaws(Xor);
  }

  lemma ShiftOfXor(a: bv32, b: bv32)
    ensures Shift(a ^ b) == Shift(a) ^ Shift(b)
  {
  }

  lemma ShiftIsLinear()
    ensures LinearPair(Xor, Shift, Shift)
  {
    forall s, t ensures LinearAt(Xor, Shift, s, t) {
      ShiftOfXor(s, t);
    }
    assert forall s :: CommuteAt(Shift, Shift, s);
  }

  lemma ZeroFixed(k: bv32 -> bv32)
    requires Linear(Xor, k)
    ensures k(0) == 0
  {
    assert LinearAt(Xor, k, 0, 0);
    var z := k(0);
    assert z ^ z == 0;
  }

  lemma PickCases(a: bv32, b: bv32)
    ensures Pick(a, b) == if a >> 31 == 0 then 0 else b
  {
    assert a >> 31 == 0 || a >> 31 == 1;
  }

  lemma PickIsLinear(a: bv32, k: bv32 -> bv32)
    requires Linear(Xor, k)
    ensures LinearPair(Xor, b => Pick(a, b), k)
  {
    var f := b => Pick(a, b);
    ZeroFixed(k);
    forall s, t ensures LinearAt(Xor, f, s, t) {
      PickCases(a, s);
      PickCases(a, t);
      PickCases(a, Xor(s, t));
      assert Xor(0, 0) == 0;
    }
    forall s ensures CommuteAt(f, k, s) {
      PickCases(a, s);
      PickCases(a, k(s));
    }
  }

  lemma ShiftsAreLinear(k: bv32 -> bv32)
    requires LinearPair(Xor, Shift, k)
    ensures LinearPair(Xor, Shift2, k) && LinearPair(Xor, Shift4, k)
    ensures LinearPair(Xor, Shift8, k) && LinearPair(Xor, Shift16, k)
  {
    Composition(Xor, Shift, Shift, Shift2, k);
    Composition(Xor, Shift2, Shift2, Shift4, k);
    Composition(Xor, Shift4, Shift4, Shift8, k);
    Composition(Xor, Shift8, Shift8, Shift16, k);
  }

  lemma Mul2IsLinear(a: bv32, k: bv32 -> bv32)
    requires LinearPair(Xor, Shift, k)
    ensures LinearPair(Xor, b => Mul2(a, b), k)
  {
    hide Pick, Shift, Shift2, Shift4, Shift8, Shift16, Xor;
    var low := a << 1;
    XorIsMedial();
    ShiftsAreLinear(k);
    PickIsLinear(a, k);
    PickIsLinear(low, k);
    Doubling(Xor, b => Pick(a, b), b => Pick(low, b), Shift, b => Mul2(a, b), k);
  }

  lemma Mul4IsLinear(a: bv32, k: bv32 -> bv32)
    requires LinearPair(Xor, Shift, k)
    ensures LinearPair(Xor, b => Mul4(a, b), k)
  {
    hide Mul2, Shift, Shift2, Shift4, Shift8, Shift16, Xor;
    var low := a << 2;
    XorIsMedial();
    ShiftsAreLinear(k);
    Mul2IsLinear(a, k);
    Mul2IsLinear(low, k);
    Doubling(Xor, b => Mul2(a, b), b => Mul2(low, b), Shift2, b => Mul4(a, b), k);
  }

  lemma Mul8IsLinear(a: bv32, k: bv32 -> bv32)
    requires LinearPair(Xor, Shift, k)
    ensures LinearPair(Xor, b => Mul8(a, b), k)
  {
    hide Mul4, Shift, Shift2, Shift4, Shift8, Shift16, Xor;
    var low := a << 4;
    XorIsMedial();
    ShiftsAreLinear(k);
    Mul4IsLinear(a, k);
    Mul4IsLinear(low, k);
    Doubling(Xor, b => Mul4(a, b), b => Mul4(low, b), Shift4, b => Mul8(a, b), k);
  }

  lemma Mul16IsLinear(a: bv32, k: bv32 -> bv32)
    requires LinearPair(Xor, Shift, k)
    ensures LinearPair(Xor, b => Mul16(a, b), k)
  {
    hide Mul8, Shift, Shift2, Shift4, Shift8, Shift16, Xor;
    var low := a << 8;
    XorIsMedial();
    ShiftsAreLinear(k);
    Mul8IsLinear(a, k);
    Mul8IsLinear(low, k);
    Doubling(Xor, b => Mul8(a, b), b => Mul8(low, b), Shift8, b => Mul16(a, b), k);
  }

  /** Multiplying by a fixed word commutes with every map that Shift commutes with. */
  lemma MulIsLinear(a: bv32, k: bv32 -> bv32)
    requires LinearPair(Xor, Shift, k)
    ensures LinearPair(Xor, b => Mul(a, b), k)
  {
    hide Mul16, Shift, Shift2, Shift4, Shift8, Shift16, Xor;
    var low := a << 16;
    XorIsMedial();
    ShiftsAreLinear(k);
    Mul16IsLinear(a, k);
    Mul16IsLinear(low, k);
    Doubling(Xor, b => Mul16(a, b), b => Mul16(low, b), Shift16, b => Mul(a, b), k);
  }

  lemma Mul8OfBit(a: bv32)
    ensures Mul8(a, TOP) == a & 0xFF00_0000
    ensures Mul8(a, 0x80_0000) == (a & 0xFF00_0000) >> 8
  {
  }

  lemma Mul8OfLowBit(a: bv32)
    ensures Mul8(a, 0x8000) == (a & 0xFF00_0000) >> 16
    ensures Mul8(a, 0x80) == (a & 0xFF00_0000) >> 24
  {
  }

  /** TOP is the unit of the product. */
  lemma MulTop(a: bv32)
    ensures Mul(a, TOP) == a
  {
    Mul8OfBit(a);
    Mul8OfBit(a << 8);
    Mul8OfLowBit(a << 16);
    Mul8OfLowBit((a << 16) << 8);
    assert Shift8(TOP) == 0x80_0000 && Shift16(TOP) == 0x8000 && Shift8(0x8000) == 0x80;
    assert (a & 0xFF00_0000) ^ (((a << 8) & 0xFF00_0000) >> 8) == a & 0xFFFF_0000;
    assert (((a << 16) & 0xFF00_0000) >> 16) ^ ((((a << 16) << 8) & 0xFF00_0000) >> 24) == a & 0xFFFF;
    assert (a & 0xFFFF_0000) ^ (a & 0xFFFF) == a;
  }
}
