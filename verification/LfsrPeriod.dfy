/** The register's period: every nonzero word comes back after exactly 2^32 - 1 shifts. */
module LfsrPeriod {
  import opened LinearMaps
  import opened Lfsr
  import opened Divisors
  import opened Counting

  const PERIOD: nat := 0xFFFF_FFFF

  /** The word that stands for n shifts. */
  function Power(n: nat): bv32 {
    Iterate(TOP, n)
  }

  lemma IterateByShift(s: bv32, n: nat)
    requires n > 0
    ensures Iterate(s, n) == Shift(Iterate(s, n - 1))
  {
    StepIsShift(Iterate(s, n - 1));
  }

  lemma {:induction false} IterateIsLinear(n: nat)
    ensures LinearPair(Xor, s => Iterate(s, n), Shift)
  {
    ShiftIsLinear();
    var f := s => Iterate(s, n);
    if n == 0 {
      Identity(Xor, f, Shift);
    } else {
      var g := s => Iterate(s, n - 1);
      IterateIsLinear(n - 1);
      forall s ensures f(s) == Shift(g(s)) {
        IterateByShift(s, n);
      }
      Composition(Xor, Shift, g, f, Shift);
    }
  }

  /** A map that commutes with Shift is multiplication by its value at TOP. */
  lemma MapIsProduct(k: bv32 -> bv32, s: bv32)
    requires LinearPair(Xor, k, Shift)
    ensures k(s) == Mul(s, k(TOP))
  {
    forall t ensures CommuteAt(Shift, k, t) {
      assert CommuteAt(k, Shift, t);
    }
    MulIsLinear(s, k);
    assert CommuteAt(b => Mul(s, b), k, TOP);
    MulTop(s);
  }

  lemma IterateIsProduct(s: bv32, n: nat)
    ensures Iterate(s, n) == Mul(s, Power(n))
  {
    IterateIsLinear(n);
    MapIsProduct(t => Iterate(t, n), s);
  }

  lemma PowerAdd(m: nat, n: nat)
    ensures Power(m + n) == Mul(Power(m), Power(n))
  {
    IterateAdd(TOP, m, n);
    IterateIsProduct(Power(m), n);
  }

  lemma Squared(n: nat, u: bv32, v: bv32)
    requires Power(n) == u && Mul(u, u) == v
    ensures Power(2 * n) == v
  {
    PowerAdd(n, n);
  }

  /** A map that commutes with Shift and takes TOP to an invertible word takes only 0 to 0. */
  lemma InvertibleMap(d: bv32 -> bv32, s: bv32, w: bv32, inverse: bv32)
    requires LinearPair(Xor, d, Shift) && d(s) == 0
    requires d(TOP) == w && Mul(inverse, w) == TOP
    ensures s == 0
  {
    var p := t => Mul(inverse, t);
    var k := t => Mul(inverse, d(t));
    MulIsLinear(inverse, Shift);
    Composition(Xor, p, d, k, Shift);
    MapIsProduct(k, s);
    MulTop(s);
    ZeroFixed(p);
  }

  lemma DifferenceIsLinear(m: nat, n: nat)
    ensures LinearPair(Xor, t => Xor(Iterate(t, m), Iterate(t, n)), Shift)
  {
    IterateIsLinear(m);
    IterateIsLinear(n);
    XorIsMedial();
    Sum(Xor, t => Iterate(t, m), t => Iterate(t, n), t => Xor(Iterate(t, m), Iterate(t, n)), Shift);
  }

  lemma XorSelf(w: bv32)
    ensures Xor(w, w) == 0
  {
  }

  /** If P^m and P^n differ by an invertible word, m and n shifts never agree on a nonzero word. */
  lemma NoCollision(s: bv32, m: nat, n: nat, w: bv32, inverse: bv32)
    requires Iterate(s, m) == Iterate(s, n)
    requires Xor(Power(m), Power(n)) == w && Mul(inverse, w) == TOP
    ensures s == 0
  {
    DifferenceIsLinear(m, n);
    XorSelf(Iterate(s, m));
    InvertibleMap(t => Xor(Iterate(t, m), Iterate(t, n)), s, w, inverse);
  }

  // --- The powers the period argument needs -------------------------------

  lemma FirstPowers()
    ensures Power(1) == 0x4000_0000 && Power(8) == 0x0080_0000
  {
    assert Power(1) == Step(Power(0));
    assert Power(2) == Step(Power(1));
    assert Power(3) == Step(Power(2));
    assert Power(4) == Step(Power(3));
    assert Power(5) == Step(Power(4));
    assert Power(6) == Step(Power(5));
    assert Power(7) == Step(Power(6));
    assert Power(8) == Step(Power(7));
  }

  lemma Squarings1(n: nat)
    requires Power(n) == 0x0080_0000
    ensures Power(16 * n) == 0xA241_C6C9
  {
    Squared(n, 0x0080_0000, 0x0000_8000);
    Squared(2 * n, 0x0000_8000, 0x8020_0003);
    Squared(4 * n, 0x8020_0003, 0xC527_9ED9);
    Squared(8 * n, 0xC527_9ED9, 0xA241_C6C9);
  }

  lemma Squarings2(n: nat)
    requires Power(n) == 0xA241_C6C9
    ensures Power(8 * n) == 0x1C41_C6FA
  {
    Squared(n, 0xA241_C6C9, 0x6ABE_638E);
    Squared(2 * n, 0x6ABE_638E, 0x92A5_8A73);
    Squared(4 * n, 0x92A5_8A73, 0x1C41_C6FA);
  }

  lemma Squarings3(n: nat)
    requires Power(n) == 0x1C41_C6FA
    ensures Power(8 * n) == 0x2508_F126
  {
    Squared(n, 0x1C41_C6FA, 0x93E7_2D8C);
    Squared(2 * n, 0x93E7_2D8C, 0x097E_4B44);
    Squared(4 * n, 0x097E_4B44, 0x2508_F126);
  }

  lemma Squarings4(n: nat)
    requires Power(n) == 0x2508_F126
    ensures Power(8 * n) == 0xFE67_22B7
  {
    Squared(n, 0x2508_F126, 0x92DF_03D6);
    Squared(2 * n, 0x92DF_03D6, 0x7B58_C29E);
    Squared(4 * n, 0x7B58_C29E, 0xFE67_22B7);
  }

  lemma HighSquarings1(n: nat)
    requires Power(n) == 0xFE67_22B7
    ensures Power(16 * n) == 0x7551_EF57
  {
    Squared(n, 0xFE67_22B7, 0x2966_3D9C);
    Squared(2 * n, 0x2966_3D9C, 0x6EA0_2629);
    Squared(4 * n, 0x6EA0_2629, 0xF210_F382);
    Squared(8 * n, 0xF210_F382, 0x7551_EF57);
  }

  lemma HighSquarings2(n: nat)
    requires Power(n) == 0x7551_EF57
    ensures Power(16 * n) == 0xFDC7_0916
  {
    Squared(n, 0x7551_EF57, 0x92B4_DA3A);
    Squared(2 * n, 0x92B4_DA3A, 0x7E02_3217);
    Squared(4 * n, 0x7E02_3217, 0xA9BD_7B68);
    Squared(8 * n, 0xA9BD_7B68, 0xFDC7_0916);
  }

  lemma HighSquarings3(n: nat)
    requires Power(n) == 0xFDC7_0916
    ensures Power(16 * n) == 0x5832_F15C
  {
    Squared(n, 0xFDC7_0916, 0xE531_9BA5);
    Squared(2 * n, 0xE531_9BA5, 0xCFE3_12EE);
    Squared(4 * n, 0xCFE3_12EE, 0xA272_263C);
    Squared(8 * n, 0xA272_263C, 0x5832_F15C);
  }

  lemma HighSquarings4(n: nat)
    requires Power(n) == 0x5832_F15C
    ensures Power(16 * n) == 0x4000_0000
  {
    Squared(n, 0x5832_F15C, 0x7FFA_31B1);
    Squared(2 * n, 0x7FFA_31B1, 0xD0CF_BFDC);
    Squared(4 * n, 0xD0CF_BFDC, 0x4401_CE70);
    Squared(8 * n, 0x4401_CE70, 0x4000_0000);
  }

  lemma Tower257_1(n: nat)
    requires Power(n) == 0xFF13_9158
    ensures Power(16 * n) == 0x2279_E911
  {
    Squared(n, 0xFF13_9158, 0x0A59_8F67);
    Squared(2 * n, 0x0A59_8F67, 0x36E6_0262);
    Squared(4 * n, 0x36E6_0262, 0x36FF_90F3);
    Squared(8 * n, 0x36FF_90F3, 0x2279_E911);
  }

  lemma Tower257_2(n: nat)
    requires Power(n) == 0x2279_E911
    ensures Power(16 * n) == 0x5CC9_7899
  {
    Squared(n, 0x2279_E911, 0x7F15_3103);
    Squared(2 * n, 0x7F15_3103, 0x6C3B_797B);
    Squared(4 * n, 0x6C3B_797B, 0xF54C_C488);
    Squared(8 * n, 0xF54C_C488, 0x5CC9_7899);
  }

  lemma Tower17(n: nat)
    requires Power(n) == 0x518C_1B99
    ensures Power(16 * n) == 0xAB2F_CF84
  {
    Squared(n, 0x518C_1B99, 0xA04C_2D18);
    Squared(2 * n, 0xA04C_2D18, 0xC6F3_4317);
    Squared(4 * n, 0xC6F3_4317, 0x4093_3CEB);
    Squared(8 * n, 0x4093_3CEB, 0xAB2F_CF84);
  }

  lemma Tower5(n: nat)
    requires Power(n) == 0xBB97_AB84
    ensures Power(4 * n) == 0x3B97_AB84
  {
    Squared(n, 0xBB97_AB84, 0xFAA3_D41D);
    Squared(2 * n, 0xFAA3_D41D, 0x3B97_AB84);
  }

  /** P^65536 and P^(2^32); the latter is P again. */
  lemma DoublyPowers(n: nat)
    requires n == 0x1_0000
    ensures Power(n) == 0xFE67_22B7 && Power(0x1_0000 * n) == 0x4000_0000
  {
    FirstPowers();
    Squarings1(8);
    Squarings2(128);
    Squarings3(1024);
    Squarings4(8192);
    HighSquarings1(n);
    HighSquarings2(16 * n);
    HighSquarings3(256 * n);
    HighSquarings4(4096 * n);
  }

  // --- Periods -------------------------------------------------------------

  lemma Extend(s: bv32, m: nat, n: nat)
    requires Iterate(s, m) == s
    ensures Iterate(s, m + n) == Iterate(s, n)
  {
    IterateAdd(s, m, n);
  }

  lemma {:induction false} Multiples(s: bv32, m: nat, k: nat)
    requires Iterate(s, m) == s
    ensures Iterate(s, k * m) == s
  {
    if k > 0 {
      Multiples(s, m, k - 1);
      Extend(s, m, (k - 1) * m);
      assert k * m == m + (k - 1) * m;
    }
  }

  lemma Returns(s: bv32, n: nat)
    requires n == PERIOD
    ensures Iterate(s, n) == s
  {
    DoublyPowers(0x1_0000);
    FirstPowers();
    IterateIsProduct(s, n + 1);
    IterateIsProduct(s, 1);
    assert Iterate(s, n + 1) == Step(Iterate(s, n));
    assert Iterate(s, 1) == Step(Iterate(s, 0));
    StepIsBijective(s);
    StepIsBijective(Iterate(s, n));
  }

  lemma NotDividing65537(s: bv32, m: nat)
    requires m == 0xFFFF && Iterate(s, m) == s
    ensures s == 0
  {
    DoublyPowers(m + 1);
    FirstPowers();
    Extend(s, m, 1);
    NoCollision(s, m + 1, 1, 0xBE67_22B7, 0xE9FB_790C);
  }

  lemma Tower65537(n: nat)
    requires n == 0x1_0001
    ensures Power(n) == 0xFF13_9158
  {
    DoublyPowers(n - 1);
    FirstPowers();
    PowerAdd(n - 1, 1);
  }

  lemma NotDividing257(s: bv32, n: nat)
    requires n == 0x1_0001 && Iterate(s, 255 * n) == s
    ensures s == 0
  {
    Tower65537(n);
    Tower257_1(n);
    Tower257_2(16 * n);
    Extend(s, 255 * n, n);
    NoCollision(s, 256 * n, n, 0xA3DA_E9C1, 0x1BDB_869C);
  }

  lemma Tower257(n: nat)
    requires n == 0x0101_0101
    ensures Power(n) == 0x518C_1B99
  {
    var m := 0x1_0001;
    Tower65537(m);
    Tower257_1(m);
    Tower257_2(16 * m);
    PowerAdd(256 * m, m);
  }

  lemma NotDividing17(s: bv32, n: nat)
    requires n == 0x0101_0101 && Iterate(s, 15 * n) == s
    ensures s == 0
  {
    Tower257(n);
    Tower17(n);
    Extend(s, 15 * n, n);
    NoCollision(s, 16 * n, n, 0xFAA3_D41D, 0x8D03_9D60);
  }

  lemma Tower17Times(n: nat)
    requires n == 0x1111_1111
    ensures Power(n) == 0xBB97_AB84
  {
    var m := 0x0101_0101;
    Tower257(m);
    Tower17(m);
    PowerAdd(16 * m, m);
  }

  lemma NotDividing5(s: bv32, n: nat)
    requires n == 0x1111_1111 && Iterate(s, 3 * n) == s
    ensures s == 0
  {
    Tower17Times(n);
    Tower5(n);
    Extend(s, 3 * n, n);
    NoCollision(s, 4 * n, n, 0x8000_0000, 0x8000_0000);
  }

  lemma Tower5Times(n: nat)
    requires n == 0x1111_1111
    ensures Power(5 * n) == 0x4134_7F99
  {
    Tower17Times(n);
    Tower5(n);
    PowerAdd(4 * n, n);
  }

  lemma NotDividing3(s: bv32, n: nat)
    requires n == 0x1111_1111 && Iterate(s, 5 * n) == s
    ensures s == 0
  {
    Tower5Times(n);
    assert Power(0) == TOP && Iterate(s, 0) == s;
    NoCollision(s, 5 * n, 0, 0xC134_7F99, 0x4134_7F99);
  }

  lemma DividedPeriod(s: bv32, g: nat, a: nat, q: nat, n: nat)
    requires Iterate(s, g) == s && q > 0
    requires a * g == q * n && a % q == 0
    ensures Iterate(s, n) == s
  {
    var k := a / q;
    assert q * (k * g) == (q * k) * g;
    Cancel(q, k * g, n);
    Multiples(s, g, k);
  }

  /** None of the maximal proper divisors of 2^32 - 1 is a period of a nonzero word. */
  lemma NoShortPeriod(s: bv32, g: nat, a: nat)
    requires a * g == PERIOD && a > 1 && Iterate(s, g) == s
    ensures s == 0
  {
    CofactorHasFermatPrime(g, a);
    if a % 3 == 0 {
      DividedPeriod(s, g, a, 3, 5 * 0x1111_1111);
      NotDividing3(s, 0x1111_1111);
    } else if a % 5 == 0 {
      DividedPeriod(s, g, a, 5, 3 * 0x1111_1111);
      NotDividing5(s, 0x1111_1111);
    } else if a % 17 == 0 {
      DividedPeriod(s, g, a, 17, 15 * 0x0101_0101);
      NotDividing17(s, 0x0101_0101);
    } else if a % 257 == 0 {
      DividedPeriod(s, g, a, 257, 255 * 0x1_0001);
      NotDividing257(s, 0x1_0001);
    } else {
      DividedPeriod(s, g, a, 65537, 0xFFFF);
      NotDividing65537(s, 0xFFFF);
    }
  }

  /** Two periods have a common divisor that is a period too. */
  lemma {:induction false} CommonPeriod(s: bv32, p: nat, q: nat) returns (g: nat, a: nat, b: nat)
    requires p > 0 && Iterate(s, p) == s && Iterate(s, q) == s
    ensures g > 0 && Iterate(s, g) == s && p == a * g && q == b * g
    decreases q
  {
    if q == 0 {
      g, a, b := p, 1, 0;
    } else {
      hide Iterate;
      var k, r := Division(p, q);
      Multiples(s, q, k);
      Extend(s, k * q, r);
      var c;
      g, b, c := CommonPeriod(s, q, r);
      a := k * b + c;
      Factored(k, b, c, g, q, r);
    }
  }

  lemma Division(p: nat, q: nat) returns (k: nat, r: nat)
    requires q > 0
    ensures p == k * q + r && r < q
  {
    k, r := p / q, p % q;
  }

  lemma Factored(k: int, b: int, c: int, g: int, q: int, r: int)
    requires q == b * g && r == c * g
    ensures k * q + r == (k * b + c) * g
  {
    assert k * (b * g) == (k * b) * g;
  }

  /** The generator's period is maximal: n shifts return a nonzero word exactly when
      n is a multiple of 2^32 - 1. */
  lemma FullPeriod(s: bv32, n: nat)
    requires s != 0
    ensures Iterate(s, n) == s <==> n % PERIOD == 0
  {
    Returns(s, PERIOD);
    if n % PERIOD == 0 {
      Multiples(s, PERIOD, n / PERIOD);
    }
    if Iterate(s, n) == s {
      var g, a, b := CommonPeriod(s, PERIOD, n);
      if a > 1 {
        NoShortPeriod(s, g, a);
      } else {
        assert a == 1;
        MultipleMod(b, PERIOD);
      }
    }
  }

  lemma {:induction false} IterateKeepsNonzero(s: bv32, n: nat)
    requires s != 0
    ensures Iterate(s, n) != 0
  {
    if n > 0 {
      IterateKeepsNonzero(s, n - 1);
      StepKeepsNonzero(Iterate(s, n - 1));
    }
  }

  // --- The cycle visits every nonzero word ----------------------------------

  function AsInt(w: bv32): int {
    w as int
  }

  /** The values of the first n states after s. */
  ghost function Visited(s: bv32, n: nat): set<int> {
    set i | 0 <= i < n :: AsInt(Iterate(s, i))
  }

  lemma WordBack(a: bv32)
    ensures 0 <= a as int < 0x1_0000_0000 && (a as int) as bv32 == a
    ensures a != 0 ==> a as int > 0
  {
    assert (0 as bv32) as int == 0;
  }

  lemma WordAsInt(a: bv32, b: bv32)
    ensures 0 <= AsInt(a) < 0x1_0000_0000
    ensures AsInt(a) == AsInt(b) ==> a == b
    ensures a != 0 ==> AsInt(a) > 0
  {
    WordBack(a);
    WordBack(b);
  }

  lemma MovesOn(t: bv32, n: nat)
    requires t != 0 && n % PERIOD != 0
    ensures Iterate(t, n) != t
  {
    FullPeriod(t, n);
  }

  lemma DistinctStates(s: bv32, i: nat, d: nat)
    requires s != 0 && d % PERIOD != 0
    ensures Iterate(s, i) != Iterate(s, i + d)
  {
    IterateKeepsNonzero(s, i);
    var t := Iterate(s, i);
    MovesOn(t, d);
    assert Iterate(t, d) == Iterate(s, i + d) by { IterateAdd(s, i, d); }
  }

  lemma NotVisitedBefore(s: bv32, n: nat)
    requires s != 0 && n < PERIOD
    ensures AsInt(Iterate(s, n)) !in Visited(s, n)
  {
    hide Iterate, AsInt;
    forall i | 0 <= i < n ensures AsInt(Iterate(s, i)) != AsInt(Iterate(s, n)) {
      DistinctStates(s, i, n - i);
      WordAsInt(Iterate(s, i), Iterate(s, n));
    }
  }

  lemma {:induction false} VisitedSize(s: bv32, n: nat)
    requires s != 0 && n <= PERIOD
    ensures |Visited(s, n)| == n
  {
    hide Iterate, AsInt;
    if n > 0 {
      VisitedSize(s, n - 1);
      NotVisitedBefore(s, n - 1);
      assert Visited(s, n) == Visited(s, n - 1) + {AsInt(Iterate(s, n - 1))};
    }
  }

  lemma VisitedRange(s: bv32, t: bv32, n: nat)
    requires s != 0 && t != 0 && forall i :: 0 <= i < n ==> Iterate(s, i) != t
    ensures Visited(s, n) + {AsInt(t)} <= UpTo(PERIOD) && AsInt(t) !in Visited(s, n)
  {
    hide Iterate, AsInt;
    forall i | 0 <= i < n ensures 0 < AsInt(Iterate(s, i)) <= PERIOD && AsInt(Iterate(s, i)) != AsInt(t) {
      IterateKeepsNonzero(s, i);
      WordAsInt(Iterate(s, i), t);
    }
    WordAsInt(t, t);
  }

  /** From any nonzero seed the generator reaches every nonzero word within one period. */
  lemma VisitsEveryWord(s: bv32, t: bv32)
    requires s != 0 && t != 0
    ensures exists i :: 0 <= i < PERIOD && Iterate(s, i) == t
  {
    hide Iterate, Visited, AsInt;
    if forall i :: 0 <= i < PERIOD ==> Iterate(s, i) != t {
      VisitedRange(s, t, PERIOD);
      VisitedSize(s, PERIOD);
      SubsetSize(Visited(s, PERIOD) + {AsInt(t)}, UpTo(PERIOD));
    }
  }
}
