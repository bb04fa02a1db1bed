/** Interrupt priorities of the Cortex-M4 (CORE/core_cm4.h): packing a preemption priority and a
    subpriority, storing them, and what the processor makes of the stored byte (ARMv7-M
    Architecture Reference Manual, section B1.5.4). */
module Nvic {

  type Word = bv32

  // --- Bit fields -------------------------------------------------------------

  predicate Narrow(n: Word) {
    n <= 8
  }

  /** x is below 2^n. */
  predicate Fits(x: Word, n: Word)
    requires Narrow(n)
  {
    x < 1 << n
  }

  /** The n low bits of x. */
  function Low(x: Word, n: Word): Word
    requires Narrow(n)
  {
    x & ((1 << n) - 1)
  }

  function High(x: Word, n: Word): Word
    requires Narrow(n)
  {
    x >> n
  }

  function Up(x: Word, n: Word): Word
    requires Narrow(n)
  {
    x << n
  }

  function Pack(hi: Word, lo: Word, n: Word): Word
    requires Narrow(n)
  {
    (hi << n) | lo
  }

  predicate Below(x: Word, y: Word) {
    x < y
  }

  /** Lexicographic order of pairs. */
  predicate Before(hi: Word, lo: Word, hi': Word, lo': Word) {
    Below(hi, hi') || (hi == hi' && Below(lo, lo'))
  }

  lemma HighOfPack(hi: Word, lo: Word, n: Word)
    requires Narrow(n) && Fits(hi, 8) && Fits(lo, n)
    ensures High(Pack(hi, lo, n), n) == hi
  {
  }

  lemma LowOfPack(hi: Word, lo: Word, n: Word)
    requires Narrow(n) && Fits(hi, 8) && Fits(lo, n)
    ensures Low(Pack(hi, lo, n), n) == lo
  {
  }

  lemma PackOfParts(x: Word, n: Word)
    requires Narrow(n) && Fits(x, 8)
    ensures Pack(High(x, n), Low(x, n), n) == x
  {
  }

  lemma LowFits(x: Word, n: Word)
    requires Narrow(n)
    ensures Fits(Low(x, n), n) && Fits(Low(x, n), 8)
    ensures Fits(x, n) ==> Low(x, n) == x
  {
  }

  lemma PackFits(hi: Word, lo: Word, m: Word, n: Word)
    requires Narrow(m) && Narrow(n) && Narrow(m + n) && Fits(hi, m) && Fits(lo, n)
    ensures Fits(Pack(hi, lo, n), m + n)
  {
  }

  lemma HighFits(x: Word, m: Word, n: Word)
    requires Narrow(m) && Narrow(n) && Narrow(m + n) && Fits(x, m + n)
    ensures Fits(High(x, n), m)
  {
  }

  lemma PackAbove(hi: Word, lo: Word, hi': Word, lo': Word, n: Word)
    requires Narrow(n) && Below(hi, hi') && Fits(hi', 8) && Fits(lo, n) && Fits(lo', n)
    ensures Below(Pack(hi, lo, n), Pack(hi', lo', n))
  {
    if n == 0 {
    } else if n == 1 {
    } else if n == 2 {
    } else if n == 3 {
    } else if n == 4 {
    } else if n == 5 {
    } else if n == 6 {
    } else if n == 7 {
    }
  }

  lemma PackBeside(hi: Word, lo: Word, lo': Word, n: Word)
    requires Narrow(n) && Fits(hi, 8) && Below(lo, lo') && Fits(lo', n)
    ensures Below(Pack(hi, lo, n), Pack(hi, lo', n))
  {
  }

  lemma Trichotomy(x: Word, y: Word)
    requires Fits(x, 8) && Fits(y, 8)
    ensures Below(x, y) || Below(y, x) || x == y
  {
  }

  lemma Asymmetry(x: Word, y: Word)
    ensures !(Below(x, y) && Below(y, x)) && !Below(x, x)
  {
  }

  lemma FitsByte(x: Word, n: Word)
    requires Narrow(n) && Fits(x, n)
    ensures Fits(x, 8)
  {
  }

  /** Packed values are ordered first by their high and then by their low parts. */
  lemma PackOrder(hi: Word, lo: Word, hi': Word, lo': Word, n: Word)
    requires Narrow(n) && Fits(hi, 8) && Fits(hi', 8) && Fits(lo, n) && Fits(lo', n)
    ensures Below(Pack(hi, lo, n), Pack(hi', lo', n)) <==> Before(hi, lo, hi', lo')
  {
    hide Narrow, Fits, Below, Pack;
    FitsByte(lo, n);
    FitsByte(lo', n);
    Trichotomy(hi, hi');
    Trichotomy(lo, lo');
    Asymmetry(hi, hi');
    Asymmetry(lo, lo');
    Asymmetry(Pack(hi, lo, n), Pack(hi', lo', n));
    if Below(hi, hi') {
      PackAbove(hi, lo, hi', lo', n);
    } else if Below(hi', hi) {
      PackAbove(hi', lo', hi, lo, n);
    } else if Below(lo, lo') {
      PackBeside(hi, lo, lo', n);
    } else if Below(lo', lo) {
      PackBeside(hi, lo', lo, n);
    }
  }

  // --- Packing a preemption priority and a subpriority ------------------------

  /** __NVIC_PRIO_BITS, the number of priority bits that a device implements. */
  predicate Width(b: Word) {
    1 <= b <= 8
  }

  function PreemptBits(b: Word, group: Word): Word {
    var g := group & 7;
    if 7 - g > b then b else 7 - g
  }

  function SubBits(b: Word, group: Word): Word {
    var g := group & 7;
    if g + b < 7 then 0 else g - 7 + b
  }

  /** The two fields share the implemented bits. */
  lemma FieldsShare(b: Word, group: Word)
    requires Width(b)
    ensures Narrow(b) && Narrow(PreemptBits(b, group)) && Narrow(SubBits(b, group))
    ensures PreemptBits(b, group) + SubBits(b, group) == b
  {
  }

  /** NVIC_EncodePriority */
  function Encode(b: Word, group: Word, preempt: Word, sub: Word): Word
    requires Width(b)
  {
    FieldsShare(b, group);
    Pack(Low(preempt, PreemptBits(b, group)), Low(sub, SubBits(b, group)), SubBits(b, group))
  }

  function Decode(b: Word, priority: Word, group: Word): (Word, Word)
    requires Width(b)
  {
    FieldsShare(b, group);
    (Low(High(priority, SubBits(b, group)), PreemptBits(b, group)), Low(priority, SubBits(b, group)))
  }

  /** The values that a priority group leaves room for. */
  predicate InRange(b: Word, group: Word, preempt: Word, sub: Word)
    requires Width(b)
  {
    FieldsShare(b, group);
    Fits(preempt, PreemptBits(b, group)) && Fits(sub, SubBits(b, group))
  }

  /** Decoding gives back what was encoded, cut to the bits of its field. */
  lemma DecodeEncoded(b: Word, group: Word, preempt: Word, sub: Word)
    requires Width(b)
    ensures Narrow(PreemptBits(b, group)) && Narrow(SubBits(b, group))
    ensures Decode(b, Encode(b, group, preempt, sub), group)
         == (Low(preempt, PreemptBits(b, group)), Low(sub, SubBits(b, group)))
    ensures InRange(b, group, preempt, sub) ==>
      Decode(b, Encode(b, group, preempt, sub), group) == (preempt, sub)
  {
    hide Width, Narrow, Fits, Pack, High, Low, PreemptBits, SubBits;
    FieldsShare(b, group);
    var m, n := PreemptBits(b, group), SubBits(b, group);
    LowFits(preempt, m);
    LowFits(sub, n);
    HighOfPack(Low(preempt, m), Low(sub, n), n);
    LowOfPack(Low(preempt, m), Low(sub, n), n);
    LowFits(Low(preempt, m), m);
  }

  lemma DecodeInRange(b: Word, group: Word, priority: Word)
    requires Width(b)
    ensures var (preempt, sub) := Decode(b, priority, group); InRange(b, group, preempt, sub)
  {
    hide Width, Narrow, Fits, High, Low, PreemptBits, SubBits;
    FieldsShare(b, group);
    var m, n := PreemptBits(b, group), SubBits(b, group);
    LowFits(High(priority, n), m);
    LowFits(priority, n);
  }

  /** Encoding what was decoded gives back a priority of b bits. */
  lemma EncodeDecoded(b: Word, group: Word, priority: Word)
    requires Width(b) && Narrow(b) && Fits(priority, b)
    ensures var (preempt, sub) := Decode(b, priority, group);
            InRange(b, group, preempt, sub) && Encode(b, group, preempt, sub) == priority
  {
    hide Width, Narrow, Fits, Pack, High, Low, PreemptBits, SubBits;
    FieldsShare(b, group);
    var m, n := PreemptBits(b, group), SubBits(b, group);
    FitsByte(priority, b);
    PackOfParts(priority, n);
    HighFits(priority, m, n);
    LowFits(High(priority, n), m);
    LowFits(priority, n);
    LowFits(Low(priority, n), n);
  }

  lemma LowOfHigh(x: Word, m: Word, n: Word)
    requires Narrow(m) && Narrow(n) && Narrow(m + n)
    ensures Low(High(x, n), m) == High(Low(x, m + n), n)
  {
    if n == 0 {
    } else if n == 1 {
    } else if n == 2 {
    } else if n == 3 {
    } else if n == 4 {
    } else if n == 5 {
    } else if n == 6 {
    } else if n == 7 {
    }
  }

  lemma LowOfLess(x: Word, m: Word, n: Word)
    requires Narrow(m) && Narrow(n) && Narrow(m + n)
    ensures Low(x, n) == Low(Low(x, m + n), n)
  {
    if n == 0 {
    } else if n == 1 {
    } else if n == 2 {
    } else if n == 3 {
    } else if n == 4 {
    } else if n == 5 {
    } else if n == 6 {
    } else if n == 7 {
    }
  }

  /** Only the implemented bits of a priority number are decoded. */
  lemma EncodeImplemented(b: Word, group: Word, priority: Word)
    requires Width(b)
    ensures Narrow(b)
    ensures var (preempt, sub) := Decode(b, priority, group); Encode(b, group, preempt, sub) == Low(priority, b)
  {
    hide Width, Narrow, Fits, High, Low, PreemptBits, SubBits, Encode;
    FieldsShare(b, group);
    var m, n := PreemptBits(b, group), SubBits(b, group);
    LowFits(priority, b);
    EncodeDecoded(b, group, Low(priority, b));
    var low := Low(priority, b);
    LowFits(low, b);
    LowOfHigh(priority, m, n);
    LowOfHigh(low, m, n);
    LowOfLess(priority, m, n);
    assert m + n == b;
    assert Decode(b, priority, group) == Decode(b, low, group);
  }

  /** NVIC_DecodePriority */
  method DecodePriority(b: Word, priority: Word, group: Word) returns (preempt: Word, sub: Word)
    requires Width(b)
    ensures (preempt, sub) == Decode(b, priority, group) && InRange(b, group, preempt, sub)
    ensures Narrow(b) && Encode(b, group, preempt, sub) == Low(priority, b)
    ensures Fits(priority, b) ==> Encode(b, group, preempt, sub) == priority
  {
    hide Width, Low, High, Narrow, Fits, Encode;
    EncodeImplemented(b, group, priority);
    FieldsShare(b, group);
    DecodeInRange(b, group, priority);
    if Fits(priority, b) {
      EncodeDecoded(b, group, priority);
    }
    var g := group & 7;
    var preemptBits := if 7 - g > b then b else 7 - g;
    var subBits := if g + b < 7 then 0 else g - 7 + b;
    preempt := Low(High(priority, subBits), preemptBits);
    sub := Low(priority, subBits);
  }

  /** The encoded number fits the implemented bits, and encoded numbers are in the order of their
      preemption priorities, then of their subpriorities. */
  lemma EncodeOrder(b: Word, group: Word, p: Word, s: Word, p': Word, s': Word)
    requires Width(b) && InRange(b, group, p, s) && InRange(b, group, p', s')
    ensures Narrow(b) && Fits(Encode(b, group, p, s), b)
    ensures Below(Encode(b, group, p, s), Encode(b, group, p', s')) <==> Before(p, s, p', s')
  {
    hide Width, Narrow, Fits, Pack, Low, PreemptBits, SubBits, Before, Below;
    FieldsShare(b, group);
    var m, n := PreemptBits(b, group), SubBits(b, group);
    LowFits(p, m);
    LowFits(s, n);
    LowFits(p', m);
    LowFits(s', n);
    PackFits(p, s, m, n);
    PackOrder(p, s, p', s', n);
  }

  // --- Storing a priority -----------------------------------------------------

  /** The bits of a priority byte that a device does not implement. */
  function Spare(b: Word): Word {
    8 - b
  }

  lemma SpareIsNarrow(b: Word)
    requires Width(b)
    ensures Narrow(Spare(b)) && Narrow(b) && Spare(b) + b == 8
  {
  }

  /** What NVIC_SetPriority writes into the priority byte. */
  function Stored(b: Word, priority: Word): Word
    requires Width(b)
  {
    SpareIsNarrow(b);
    Low(Up(priority, Spare(b)), 8)
  }

  function Read(b: Word, byte: Word): Word
    requires Width(b)
  {
    SpareIsNarrow(b);
    High(byte, Spare(b))
  }

  lemma ReadStored(b: Word, priority: Word)
    requires Width(b)
    ensures Narrow(b) && Read(b, Stored(b, priority)) == Low(priority, b)
    ensures Fits(Stored(b, priority), 8)
  {
    hide Width, Narrow, Fits, High, Low, Up, Spare;
    SpareIsNarrow(b);
    LowFits(Up(priority, Spare(b)), 8);
    HighOfByte(priority, b, Spare(b));
  }

  lemma HighOfByte(x: Word, b: Word, k: Word)
    requires Narrow(b) && Narrow(k) && b + k == 8
    ensures High(Low(Up(x, k), 8), k) == Low(x, b)
  {
    if k < 4 {
      assert k == 0 || k == 1 || k == 2 || k == 3;
    } else {
      assert k == 4 || k == 5 || k == 6 || k == 7 || k == 8;
    }
  }

  // --- What the processor makes of the byte -----------------------------------

  /** Bits 7 to g + 1 of a priority byte are the group priority, which decides on preemption; bits
      g to 0 are the subpriority. */
  function GroupPriority(byte: Word, group: Word): Word {
    byte >> (1 + (group & 7))
  }

  function SubPriority(byte: Word, group: Word): Word {
    byte & ((1 << (1 + (group & 7))) - 1)
  }

  /** The unimplemented part of the group priority field. */
  function Slack(b: Word, group: Word): Word {
    var g := group & 7;
    if g + b < 7 then 7 - g - b else 0
  }

  lemma EncodeInRange(b: Word, group: Word, p: Word, s: Word)
    requires Width(b) && InRange(b, group, p, s)
    ensures Narrow(SubBits(b, group)) && Encode(b, group, p, s) == Pack(p, s, SubBits(b, group))
  {
    hide Width, Narrow, Fits, Low, Pack, PreemptBits, SubBits;
    FieldsShare(b, group);
    LowFits(p, PreemptBits(b, group));
    LowFits(s, SubBits(b, group));
  }

  lemma GroupPriorityIsHigh(byte: Word, group: Word)
    ensures Narrow(1 + (group & 7)) && GroupPriority(byte, group) == High(byte, 1 + (group & 7))
  {
  }

  /** The high bits of a packed value that has been moved up by k bits within a byte. */
  lemma HighOfUp(hi: Word, lo: Word, m: Word, n: Word, k: Word)
    requires Narrow(m) && Narrow(n) && Narrow(k) && Narrow(n + k) && m + n + k == 8 && Fits(hi, m) && Fits(lo, n)
    ensures High(Low(Up(Pack(hi, lo, n), k), 8), n + k) == hi
  {
    hide Narrow, Fits, High, Low, Up, Pack;
    FitsByte(hi, m);
    PackUp(hi, lo, n, k);
    UpFits(lo, n, k);
    PackFits(hi, Up(lo, k), m, n + k);
    LowFits(Pack(hi, Up(lo, k), n + k), 8);
    HighOfPack(hi, Up(lo, k), n + k);
  }

  function Or(x: Word, y: Word): Word {
    x | y
  }

  lemma OrUpOnce(x: Word, y: Word)
    ensures Up(Or(x, y), 1) == Or(Up(x, 1), Up(y, 1))
  {
  }

  lemma OrUp(x: Word, y: Word, k: Word)
    requires Narrow(k)
    ensures Up(Or(x, y), k) == Or(Up(x, k), Up(y, k))
  {
    hide Up, Or;
    UpNothing(Or(x, y));
    UpNothing(x);
    UpNothing(y);
    if k > 0 {
      OrUp(x, y, k - 1);
      OrUpOnce(Up(x, k - 1), Up(y, k - 1));
      UpUp(Or(x, y), k - 1, 1);
      UpUp(x, k - 1, 1);
      UpUp(y, k - 1, 1);
    }
  }

  lemma ShiftTwice(x: Word, n: Word, k: Word)
    requires n <= 8 && k <= 8 && n + k <= 8
    ensures (x << n) << k == x << (n + k)
  {
    if k == 0 {
    } else if k == 1 {
    } else if k == 2 {
    } else if k == 3 {
    } else if k == 4 {
    } else if k == 5 {
    } else if k == 6 {
    } else if k == 7 {
    }
  }

  lemma UpUp(x: Word, n: Word, k: Word)
    requires Narrow(n) && Narrow(k) && Narrow(n + k)
    ensures Up(Up(x, n), k) == Up(x, n + k)
  {
    UpIs(x, n);
    UpIs(x << n, k);
    UpIs(x, n + k);
    ShiftTwice(x, n, k);
    hide Up;
  }

  lemma UpIs(x: Word, n: Word)
    requires Narrow(n)
    ensures Up(x, n) == x << n
  {
  }

  lemma PackIsOr(hi: Word, lo: Word, n: Word)
    requires Narrow(n)
    ensures Pack(hi, lo, n) == Or(Up(hi, n), lo)
  {
  }

  lemma PackUp(hi: Word, lo: Word, n: Word, k: Word)
    requires Narrow(n) && Narrow(k) && Narrow(n + k)
    ensures Up(Pack(hi, lo, n), k) == Pack(hi, Up(lo, k), n + k)
  {
    hide Narrow, Up, Or, Pack;
    PackIsOr(hi, lo, n);
    PackIsOr(hi, Up(lo, k), n + k);
    OrUp(Up(hi, n), lo, k);
    UpUp(hi, n, k);
  }

  lemma UpFits(x: Word, n: Word, k: Word)
    requires Narrow(n) && Narrow(k) && Narrow(n + k) && Fits(x, n)
    ensures Fits(Up(x, k), n + k)
  {
  }

  lemma HighOfUpOnly(x: Word, b: Word, k: Word, m: Word)
    requires Narrow(b) && Narrow(k) && b + k == 8 && m <= k && Fits(x, b)
    ensures High(Low(Up(x, k), 8), m) == Up(x, k - m)
  {
    assert x << k < 0x100;
  }

  lemma PackZero(p: Word)
    ensures Pack(p, 0, 0) == p
  {
  }

  lemma GroupSlack(b: Word, group: Word)
    requires Width(b)
    ensures var m, k := 1 + (group & 7), Spare(b);
      && Narrow(m) && Narrow(Slack(b, group))
      && if m + b >= 8 then Slack(b, group) == 0 && PreemptBits(b, group) + m == 8
                         && PreemptBits(b, group) + SubBits(b, group) + k == 8 && m == SubBits(b, group) + k
         else m <= k && Slack(b, group) == k - m && PreemptBits(b, group) == b && SubBits(b, group) == 0
  {
  }

  lemma UpNothing(x: Word)
    ensures Up(x, 0) == x && (Fits(x, 0) ==> x == 0)
  {
  }

  /** The group priority field holds the preemption priority, shifted only if the group asks for
      more bits than the device has. */
  lemma GroupOfStored(b: Word, group: Word, p: Word, s: Word)
    requires Width(b) && InRange(b, group, p, s)
    ensures Narrow(Slack(b, group)) && Fits(p, 8)
    ensures GroupPriority(Stored(b, Encode(b, group, p, s)), group) == Up(p, Slack(b, group))
    ensures Slack(b, group) == 0 ==> Up(p, Slack(b, group)) == p
  {
    hide Width, Narrow, Fits, High, Low, Up, Pack, PreemptBits, SubBits, Spare, Slack, GroupPriority, Encode;
    SpareIsNarrow(b);
    FieldsShare(b, group);
    EncodeInRange(b, group, p, s);
    GroupSlack(b, group);
    FitsByte(p, PreemptBits(b, group));
    GroupPriorityIsHigh(Stored(b, Encode(b, group, p, s)), group);
    UpNothing(p);
    UpNothing(s);
    if 1 + (group & 7) + b >= 8 {
      HighOfUp(p, s, PreemptBits(b, group), SubBits(b, group), Spare(b));
    } else {
      PackZero(p);
      HighOfUpOnly(p, b, Spare(b), 1 + (group & 7));
    }
  }

  /** The low bits of a packed value that has been moved up by k bits within a byte. */
  lemma LowOfUp(hi: Word, lo: Word, n: Word, k: Word)
    requires Narrow(n) && Narrow(k) && Narrow(n + k) && Fits(hi, 8) && Fits(lo, n)
    ensures Low(Low(Up(Pack(hi, lo, n), k), 8), n + k) == Up(lo, k)
  {
    hide Narrow, Fits, Low, Up, Pack;
    PackUp(hi, lo, n, k);
    UpFits(lo, n, k);
    LowOfLow(Pack(hi, Up(lo, k), n + k), n + k);
    LowOfPack(hi, Up(lo, k), n + k);
  }

  lemma LowOfLow(x: Word, n: Word)
    requires Narrow(n)
    ensures Low(Low(x, 8), n) == Low(x, n)
  {
  }

  lemma LowOfUpOnly(x: Word, k: Word, m: Word)
    requires Narrow(k) && m <= k
    ensures Low(Low(Up(x, k), 8), m) == 0 && Up(0, k) == 0
  {
  }

  lemma GroupSplit(b: Word, group: Word, s: Word)
    requires Width(b)
    ensures var m, n, k := 1 + (group & 7), SubBits(b, group), Spare(b);
      && Narrow(m) && Narrow(n) && Narrow(k)
      && if (group & 7) + b >= 7 then m == n + k else m <= k && (Fits(s, n) ==> s == 0)
  {
  }

  lemma SubPriorityIsLow(byte: Word, group: Word)
    ensures Narrow(1 + (group & 7)) && SubPriority(byte, group) == Low(byte, 1 + (group & 7))
  {
  }

  /** The subpriority field holds the subpriority above the unimplemented bits. */
  lemma SubOfStored(b: Word, group: Word, p: Word, s: Word)
    requires Width(b) && InRange(b, group, p, s)
    ensures Narrow(Spare(b)) && Fits(s, 8)
    ensures SubPriority(Stored(b, Encode(b, group, p, s)), group) == Up(s, Spare(b))
  {
    hide Width, Narrow, Fits, Low, Up, Pack, PreemptBits, SubBits, Spare, SubPriority, Encode;
    SpareIsNarrow(b);
    FieldsShare(b, group);
    EncodeInRange(b, group, p, s);
    GroupSplit(b, group, s);
    FitsByte(s, SubBits(b, group));
    FitsByte(p, PreemptBits(b, group));
    SubPriorityIsLow(Stored(b, Encode(b, group, p, s)), group);
    if (group & 7) + b >= 7 {
      LowOfUp(p, s, SubBits(b, group), Spare(b));
    } else {
      LowOfUpOnly(Encode(b, group, p, s), Spare(b), 1 + (group & 7));
    }
  }

  lemma UpBelow(x: Word, y: Word, n: Word)
    requires Narrow(n) && Below(x, y) && Fits(y, 8)
    ensures Below(Up(x, n), Up(y, n))
  {
    if n == 0 {
    } else if n == 1 {
    } else if n == 2 {
    } else if n == 3 {
    } else if n == 4 {
    } else if n == 5 {
    } else if n == 6 {
    } else if n == 7 {
    }
  }

  lemma UpOrder(x: Word, y: Word, n: Word)
    requires Narrow(n) && Fits(x, 8) && Fits(y, 8)
    ensures Below(Up(x, n), Up(y, n)) <==> Below(x, y)
  {
    hide Narrow, Fits, Below, Up;
    Trichotomy(x, y);
    Asymmetry(x, y);
    Asymmetry(Up(x, n), Up(y, n));
    if Below(x, y) {
      UpBelow(x, y, n);
    } else if Below(y, x) {
      UpBelow(y, x, n);
    }
  }

  /** Of two interrupts with encoded priorities, the processor lets one preempt the other exactly
      when its preemption priority is the smaller number; among equals the subpriorities decide. */
  lemma ProcessorOrder(b: Word, group: Word, p: Word, s: Word, p': Word, s': Word)
    requires Width(b) && InRange(b, group, p, s) && InRange(b, group, p', s')
    ensures var x, y := Stored(b, Encode(b, group, p, s)), Stored(b, Encode(b, group, p', s'));
      && (Below(GroupPriority(x, group), GroupPriority(y, group)) <==> Below(p, p'))
      && (Below(SubPriority(x, group), SubPriority(y, group)) <==> Below(s, s'))
  {
    hide Width, Narrow, Fits, Below, Up, InRange, GroupPriority, SubPriority, Stored, Encode, Slack, Spare;
    GroupOfStored(b, group, p, s);
    GroupOfStored(b, group, p', s');
    SubOfStored(b, group, p, s);
    SubOfStored(b, group, p', s');
    UpOrder(p, p', Slack(b, group));
    UpOrder(s, s', Spare(b));
  }

  /** Encode, store, read and decode bring a pair of priorities back. */
  lemma PriorityRoundTrip(b: Word, group: Word, p: Word, s: Word)
    requires Width(b) && InRange(b, group, p, s)
    ensures Decode(b, Read(b, Stored(b, Encode(b, group, p, s))), group) == (p, s)
  {
    hide Width, Narrow, Fits, Low, InRange, Read, Stored, Encode, Decode;
    var priority := Encode(b, group, p, s);
    ReadStored(b, priority);
    EncodeOrder(b, group, p, s, p, s);
    LowFits(priority, b);
    DecodeEncoded(b, group, p, s);
  }

  // --- The registers ----------------------------------------------------------

  function Grouping(aircr: Word): Word {
    (aircr & 0x700) >> 8
  }

  /** The register after a write: without the key the write is ignored, and the key reads back
      inverted. */
  function Written(aircr: Word, value: Word): Word {
    if value >> 16 == 0x05FA then 0xFA05_0000 | (value & 0xFFFF) else aircr
  }

  /** The value that NVIC_SetPriorityGrouping writes. */
  function Regrouped(aircr: Word, group: Word): Word {
    (aircr & !(0xFFFF_0000 | 0x700)) | (0x05FA << 16) | ((group & 7) << 8)
  }

  /** The write is accepted, sets the group and keeps every other field. */
  lemma GroupingIsSet(aircr: Word, group: Word)
    requires aircr >> 16 == 0xFA05
    ensures var a := Written(aircr, Regrouped(aircr, group));
      && Regrouped(aircr, group) >> 16 == 0x05FA
      && a == (aircr & !0x700) | ((group & 7) << 8) && Grouping(a) == group & 7 && a >> 16 == 0xFA05
  {
  }

  lemma GroupingField(aircr: Word)
    ensures Grouping(aircr) <= 7 && aircr == (aircr & !0x700) | (Grouping(aircr) << 8)
  {
  }

  /** The priority bytes (IP and SHP, zero extended) and the AIRCR register. */
  class Registers {
    const b: Word
    const ip: array<Word>
    const shp: array<Word>
    var aircr: Word

    ghost predicate Valid()
      reads this
    {
      Width(b) && ip.Length == 240 && shp.Length == 12 && ip != shp && aircr >> 16 == 0xFA05
    }

    constructor (b: Word)
      requires Width(b)
      ensures Valid() && this.b == b && fresh(ip) && fresh(shp)
    {
      this.b := b;
      ip := new Word[240](_ => 0);
      shp := new Word[12](_ => 0);
      aircr := 0xFA05_0000;
    }

    /** The interrupts whose priority can be set; the negative ones are core exceptions. */
    ghost predicate Settable(irqn: int) {
      -12 <= irqn < 240
    }

    ghost function Byte(irqn: int): Word
      requires Valid() && Settable(irqn)
      reads this, ip, shp
    {
      if irqn < 0 then shp[irqn + 12] else ip[irqn]
    }

    method SetPriority(irqn: int, priority: Word)
      requires Valid() && Settable(irqn)
      modifies ip, shp
      ensures irqn < 0 ==> shp[..] == old(shp[..])[irqn + 12 := Stored(b, priority)] && ip[..] == old(ip[..])
      ensures irqn >= 0 ==> ip[..] == old(ip[..])[irqn := Stored(b, priority)] && shp[..] == old(shp[..])
      ensures Byte(irqn) == Stored(b, priority)
      ensures forall j :: Settable(j) && j != irqn ==> Byte(j) == old(Byte(j))
    {
      hide Width, Stored;
      if irqn < 0 {
        // (uint32_t)irqn & 0xF
        shp[irqn % 16 - 4] := Stored(b, priority);
      } else {
        ip[irqn] := Stored(b, priority);
      }
    }

    method GetPriority(irqn: int) returns (priority: Word)
      requires Valid() && Settable(irqn)
      ensures priority == Read(b, if irqn < 0 then shp[irqn + 12] else ip[irqn])
    {
      hide Width, Read;
      if irqn < 0 {
        priority := Read(b, shp[irqn % 16 - 4]);
      } else {
        priority := Read(b, ip[irqn]);
      }
    }

    method SetPriorityGrouping(group: Word)
      requires Valid()
      modifies `aircr
      ensures Valid()
      ensures aircr == (old(aircr) & !0x700) | ((group & 7) << 8) && Grouping(aircr) == group & 7
    {
      GroupingIsSet(aircr, group);
      aircr := Written(aircr, Regrouped(aircr, group));
    }

    /** The field as SetPriorityGrouping sets it. */
    method GetPriorityGrouping() returns (group: Word)
      ensures group == Grouping(aircr)
      ensures group <= 7 && aircr == (aircr & !0x700) | (group << 8)
    {
      GroupingField(aircr);
      group := (aircr & 0x700) >> 8;
    }
  }
}
