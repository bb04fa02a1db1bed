/** Conversion between Unicode and code page 932 (Shift-JIS) by table search
    (FATFS/src/option/cc932.c). */
module Cp932 {
  import opened Words

  // --- Conversion tables ------------------------------------------------------

  /** A conversion table lists pairs one after the other; the last pair is not counted. */
  function Pairs(t: seq<Word>): (m: nat)
    requires |t| >= 2
    ensures 2 * m + 1 < |t|
  {
    |t| / 2 - 1
  }

  function Key(t: seq<Word>, i: nat): Word
    requires |t| >= 2 && i <= Pairs(t)
  {
    t[2 * i]
  }

  function Value(t: seq<Word>, i: nat): Word
    requires |t| >= 2 && i <= Pairs(t)
  {
    t[2 * i + 1]
  }

  ghost predicate Sorted(t: seq<Word>)
    requires |t| >= 2
  {
    forall i, j :: 0 <= i < j < Pairs(t) ==> Key(t, i) < Key(t, j)
  }

  /** A table in order of its keys, with no code in the ASCII range and a (0,0) pair at the end. */
  ghost predicate Table(t: seq<Word>) {
    && |t| >= 2 && |t| % 2 == 0 && Sorted(t)
    && (forall i :: 0 <= i < Pairs(t) ==> Key(t, i) > 0x80 && Value(t, i) > 0x80)
    && Key(t, Pairs(t)) == 0 && Value(t, Pairs(t)) == 0
  }

  ghost predicate Maps(t: seq<Word>, x: Word, y: Word)
    requires |t| >= 2
  {
    exists i :: 0 <= i < Pairs(t) && Key(t, i) == x && Value(t, i) == y
  }

  ghost predicate MutualInverses(a: seq<Word>, b: seq<Word>)
    requires |a| >= 2 && |b| >= 2
  {
    forall x, y :: Maps(a, x, y) <==> Maps(b, y, x)
  }

  /** The index of a key, Pairs(t) if it is absent. */
  function IndexOf(t: seq<Word>, x: Word, i: nat): (k: nat)
    requires |t| >= 2 && i <= Pairs(t)
    ensures i <= k <= Pairs(t) && (k < Pairs(t) ==> Key(t, k) == x)
    ensures forall j :: i <= j < k ==> Key(t, j) != x
    decreases Pairs(t) - i
  {
    if i == Pairs(t) || Key(t, i) == x then i else IndexOf(t, x, i + 1)
  }

  /** The image of x; the closing pair gives 0 for an absent key. */
  function Lookup(t: seq<Word>, x: Word): Word
    requires |t| >= 2
  {
    Value(t, IndexOf(t, x, 0))
  }

  function IndexOfValue(t: seq<Word>, y: Word, i: nat): (k: nat)
    requires |t| >= 2 && i <= Pairs(t)
    ensures i <= k <= Pairs(t) && (k < Pairs(t) ==> Value(t, k) == y)
    ensures forall j :: i <= j < k ==> Value(t, j) != y
    decreases Pairs(t) - i
  {
    if i == Pairs(t) || Value(t, i) == y then i else IndexOfValue(t, y, i + 1)
  }

  // --- The search -------------------------------------------------------------

  /** The index that at most n probes between lo and hi find, Pairs(t) if they miss; a probe that is
      too low becomes the new lower bound itself. */
  function Probe(t: seq<Word>, x: Word, lo: nat, hi: nat, n: nat): (k: nat)
    requires |t| >= 2 && lo <= hi <= Pairs(t)
    ensures k <= Pairs(t)
    decreases n
  {
    var i := lo + (hi - lo) / 2;
    if n == 0 then Pairs(t)
    else if x == Key(t, i) then i
    else if x > Key(t, i) then Probe(t, x, i, hi, n - 1)
    else Probe(t, x, lo, i, n - 1)
  }

  lemma ProbeStep(t: seq<Word>, x: Word, lo: nat, hi: nat, n: nat)
    requires |t| >= 2 && lo <= hi <= Pairs(t)
    ensures var i := lo + (hi - lo) / 2;
      Probe(t, x, lo, hi, n)
      == if n == 0 then Pairs(t) else if x == Key(t, i) then i
         else if x > Key(t, i) then Probe(t, x, i, hi, n - 1) else Probe(t, x, lo, i, n - 1)
  {
  }

  function Power2(n: nat): (p: nat)
    ensures p >= 1
  {
    if n == 0 then 1 else 2 * Power2(n - 1)
  }

  /** Probes never find anything but the key. */
  lemma {:induction false} ProbeIsSound(t: seq<Word>, x: Word, lo: nat, hi: nat, n: nat)
    requires |t| >= 2 && Sorted(t) && lo <= hi <= Pairs(t) && x != Key(t, Pairs(t))
    ensures var k := Probe(t, x, lo, hi, n);
            k < Pairs(t) ==> k == IndexOf(t, x, 0)
    decreases n
  {
    var i := lo + (hi - lo) / 2;
    if n > 0 && x != Key(t, i) {
      if x > Key(t, i) {
        ProbeIsSound(t, x, i, hi, n - 1);
      } else {
        ProbeIsSound(t, x, lo, i, n - 1);
      }
    }
  }

  /** Once the lower bound has been probed, n probes search a gap of 2^n - 1 keys above it. */
  lemma {:induction false} GapIsSearched(t: seq<Word>, lo: nat, hi: nat, j: nat, n: nat)
    requires |t| >= 2 && Sorted(t) && lo < j < hi <= Pairs(t) && hi - lo <= Power2(n)
    ensures Probe(t, Key(t, j), lo, hi, n) == j
    decreases n
  {
    var i := lo + (hi - lo) / 2;
    if j > i {
      GapIsSearched(t, i, hi, j, n - 1);
    } else if j < i {
      GapIsSearched(t, lo, i, j, n - 1);
    }
  }

  lemma {:induction false} ProbeFinds(t: seq<Word>, hi: nat, j: nat, n: nat)
    requires |t| >= 2 && Sorted(t) && j < hi <= Pairs(t) && hi < Power2(n)
    ensures Probe(t, Key(t, j), 0, hi, n) == j
  {
    var i := hi / 2;
    if j > i {
      GapIsSearched(t, i, hi, j, n - 1);
    } else if j < i {
      ProbeFinds(t, i, j, n - 1);
    }
  }

  lemma {:induction false} ProbeMissesFirst(t: seq<Word>, hi: nat, n: nat)
    requires |t| >= 2 && Sorted(t) && hi <= Pairs(t) && Power2(n) <= hi
    ensures Probe(t, Key(t, 0), 0, hi, n) == Pairs(t)
  {
    if n > 0 {
      ProbeMissesFirst(t, hi / 2, n - 1);
    }
  }

  /** n probes find every key of a sorted table exactly when it has fewer than 2^n keys; a larger
      table loses its first key. */
  lemma ProbesSuffice(t: seq<Word>, n: nat)
    requires |t| >= 2 && Sorted(t)
    ensures (forall j :: 0 <= j < Pairs(t) ==> Probe(t, Key(t, j), 0, Pairs(t), n) == j)
        <==> Pairs(t) < Power2(n)
  {
    if Pairs(t) < Power2(n) {
      forall j | 0 <= j < Pairs(t)
        ensures Probe(t, Key(t, j), 0, Pairs(t), n) == j
      {
        ProbeFinds(t, Pairs(t), j, n);
      }
    } else {
      ProbeMissesFirst(t, Pairs(t), n);
    }
  }

  lemma {:induction false} KeysGrow(t: seq<Word>, i: nat)
    requires Table(t) && i < Pairs(t)
    ensures Key(t, i) > i
  {
    if i > 0 {
      KeysGrow(t, i - 1);
    }
  }

  /** Sixteen probes are enough for every table of 16-bit codes. */
  lemma SixteenProbes(t: seq<Word>, x: Word)
    requires Table(t) && x > 0x80
    ensures Probe(t, x, 0, Pairs(t), 16) == IndexOf(t, x, 0)
  {
    var j := IndexOf(t, x, 0);
    assert Power2(16) == 0x10000 by { assert Power2(8) == 0x100; }
    if Pairs(t) > 0 {
      KeysGrow(t, Pairs(t) - 1);
    }
    if j < Pairs(t) {
      ProbeFinds(t, Pairs(t), j, 16);
    } else {
      ProbeIsSound(t, x, 0, Pairs(t), 16);
    }
  }

  // --- The code ---------------------------------------------------------------

  /** ff_convert as a function of the tables: true converts to Unicode, false from Unicode. */
  function Convert(uni2sjis: seq<Word>, sjis2uni: seq<Word>, chr: Word, dir: bool): Word
    requires |uni2sjis| >= 2 && |sjis2uni| >= 2
  {
    if chr <= 0x80 then chr else Lookup(if dir then sjis2uni else uni2sjis, chr)
  }

  /** The loop of 16 probes. */
  method Search(p: seq<Word>, chr: Word) returns (c: Word)
    requires Table(p) && chr > 0x80
    ensures c == Lookup(p, chr)
  {
    hide Sorted, IndexOf, Probe;
    var li, hi := 0, |p| / 2 - 1;
    var i, n := 0, 16;
    while n > 0
      invariant 0 <= li <= hi <= Pairs(p) && 0 <= n <= 16
      invariant Probe(p, chr, li, hi, n) == Probe(p, chr, 0, Pairs(p), 16)
    {
      ProbeStep(p, chr, li, hi, n);
      i := li + (hi - li) / 2;
      if chr == p[i * 2] {
        break;
      }
      if chr > p[i * 2] {
        li := i;
      } else {
        hi := i;
      }
      n := n - 1;
    }
    SixteenProbes(p, chr);
    ProbeStep(p, chr, li, hi, n);
    c := if n != 0 then p[i * 2 + 1] else 0;
  }

  lemma LookupIs(t: seq<Word>, x: Word, y: Word)
    requires Table(t)
    ensures y != 0 ==> (Lookup(t, x) == y <==> Maps(t, x, y))
    ensures Lookup(t, x) != 0 ==> Maps(t, x, Lookup(t, x)) && Lookup(t, x) > 0x80
  {
    var k := IndexOf(t, x, 0);
    if Maps(t, x, y) {
      var i :| 0 <= i < Pairs(t) && Key(t, i) == x && Value(t, i) == y;
      assert i == k;
    }
  }

  method FfConvert(uni2sjis: seq<Word>, sjis2uni: seq<Word>, chr: Word, dir: bool) returns (c: Word)
    requires Table(uni2sjis) && Table(sjis2uni)
    ensures c == Convert(uni2sjis, sjis2uni, chr, dir)
    ensures chr <= 0x80 ==> c == chr
    ensures chr > 0x80 && c != 0 ==> Maps(if dir then sjis2uni else uni2sjis, chr, c)
    ensures var t := if dir then sjis2uni else uni2sjis; chr > 0x80 && c == 0 ==> forall y: Word :: !Maps(t, chr, y)
  {
    if chr <= 0x80 {
      c := chr;
    } else if dir {
      c := Search(sjis2uni, chr);
      Image(sjis2uni, chr);
    } else {
      c := Search(uni2sjis, chr);
      Image(uni2sjis, chr);
    }
  }

  lemma Image(t: seq<Word>, x: Word)
    requires Table(t)
    ensures Lookup(t, x) != 0 ==> Maps(t, x, Lookup(t, x))
    ensures Lookup(t, x) == 0 ==> forall y: Word :: !Maps(t, x, y)
  {
    forall y: Word
      ensures Lookup(t, x) == 0 ==> !Maps(t, x, y)
    {
      LookupIs(t, x, y);
    }
    LookupIs(t, x, Lookup(t, x));
  }

  /** ff_convert in its _TINY_TABLE form, which has one table only. */
  function ConvertTiny(uni2sjis: seq<Word>, chr: Word, dir: bool): Word
    requires |uni2sjis| >= 2
  {
    if chr <= 0x80 then chr
    else if dir then Key(uni2sjis, IndexOfValue(uni2sjis, chr, 0))
    else Lookup(uni2sjis, chr)
  }

  lemma Preimage(t: seq<Word>, y: Word)
    requires Table(t)
    ensures var x := Key(t, IndexOfValue(t, y, 0));
      && (x != 0 ==> Maps(t, x, y))
      && (x == 0 ==> forall u: Word :: !Maps(t, u, y))
  {
  }

  /** The _TINY_TABLE form: the way to Unicode runs along the values of the other table. */
  method FfConvertTiny(uni2sjis: seq<Word>, chr: Word, dir: bool) returns (c: Word)
    requires Table(uni2sjis)
    ensures c == ConvertTiny(uni2sjis, chr, dir)
    ensures chr <= 0x80 ==> c == chr
    ensures chr > 0x80 && c != 0 ==> if dir then Maps(uni2sjis, c, chr) else Maps(uni2sjis, chr, c)
    ensures chr > 0x80 && c == 0 ==>
      forall y: Word :: if dir then !Maps(uni2sjis, y, chr) else !Maps(uni2sjis, chr, y)
  {
    if chr <= 0x80 {
      c := chr;
    } else if dir {
      Preimage(uni2sjis, chr);
      var p := 1;
      c := uni2sjis[p];
      p := p + 2;
      ghost var k: nat := 0;
      while c != 0 && c != chr
        invariant k <= Pairs(uni2sjis) && p == 2 * k + 3 && c == Value(uni2sjis, k)
        invariant IndexOfValue(uni2sjis, chr, k) == IndexOfValue(uni2sjis, chr, 0)
        decreases Pairs(uni2sjis) - k
      {
        c := uni2sjis[p];
        p := p + 2;
        k := k + 1;
      }
      p := p - 3;
      c := uni2sjis[p];
    } else {
      Image(uni2sjis, chr);
      c := Search(uni2sjis, chr);
    }
  }

  // --- What the conversion achieves -------------------------------------------

  /** Both forms of the converter compute the same function. */
  lemma TinyIsTheSame(uni2sjis: seq<Word>, sjis2uni: seq<Word>, chr: Word, dir: bool)
    requires Table(uni2sjis) && Table(sjis2uni) && MutualInverses(uni2sjis, sjis2uni)
    ensures ConvertTiny(uni2sjis, chr, dir) == Convert(uni2sjis, sjis2uni, chr, dir)
  {
    if chr > 0x80 && dir {
      TinyToUnicode(uni2sjis, sjis2uni, chr);
    }
  }

  lemma TinyToUnicode(uni2sjis: seq<Word>, sjis2uni: seq<Word>, chr: Word)
    requires Table(uni2sjis) && Table(sjis2uni) && MutualInverses(uni2sjis, sjis2uni) && chr > 0x80
    ensures Key(uni2sjis, IndexOfValue(uni2sjis, chr, 0)) == Lookup(sjis2uni, chr)
  {
    var k := IndexOfValue(uni2sjis, chr, 0);
    var x := Key(uni2sjis, k);
    if k < Pairs(uni2sjis) {
      assert Maps(uni2sjis, x, chr);
      LookupIs(sjis2uni, chr, x);
    } else {
      var y := Lookup(sjis2uni, chr);
      LookupIs(sjis2uni, chr, y);
    }
  }

  /** A character with an image converts back to itself, in both directions. */
  lemma RoundTrip(uni2sjis: seq<Word>, sjis2uni: seq<Word>, chr: Word, dir: bool)
    requires Table(uni2sjis) && Table(sjis2uni) && MutualInverses(uni2sjis, sjis2uni)
    requires Convert(uni2sjis, sjis2uni, chr, dir) != 0
    ensures Convert(uni2sjis, sjis2uni, Convert(uni2sjis, sjis2uni, chr, dir), !dir) == chr
  {
    if chr > 0x80 {
      var there, back := if dir then sjis2uni else uni2sjis, if dir then uni2sjis else sjis2uni;
      var c := Lookup(there, chr);
      LookupIs(there, chr, c);
      assert Maps(back, c, chr);
      LookupIs(back, c, chr);
    }
  }

  ghost predicate TurnsBack(uni2sjis: seq<Word>, sjis2uni: seq<Word>, chr: Word, dir: bool)
    requires |uni2sjis| >= 2 && |sjis2uni| >= 2
  {
    var c := Convert(uni2sjis, sjis2uni, chr, dir);
    c != 0 ==> Convert(uni2sjis, sjis2uni, c, !dir) == chr
  }

  /** The tables must be mutual inverses for every convertible character to convert back. */
  lemma InversesExactly(uni2sjis: seq<Word>, sjis2uni: seq<Word>)
    requires Table(uni2sjis) && Table(sjis2uni)
    ensures (forall chr: Word, dir :: TurnsBack(uni2sjis, sjis2uni, chr, dir)) <==> MutualInverses(uni2sjis, sjis2uni)
  {
    if MutualInverses(uni2sjis, sjis2uni) {
      forall chr: Word, dir
        ensures TurnsBack(uni2sjis, sjis2uni, chr, dir)
      {
        if Convert(uni2sjis, sjis2uni, chr, dir) != 0 {
          RoundTrip(uni2sjis, sjis2uni, chr, dir);
        }
      }
    }
    if forall chr: Word, dir :: TurnsBack(uni2sjis, sjis2uni, chr, dir) {
      forall x: Word, y: Word
        ensures Maps(uni2sjis, x, y) <==> Maps(sjis2uni, y, x)
      {
        assert TurnsBack(uni2sjis, sjis2uni, x, false) && TurnsBack(uni2sjis, sjis2uni, y, true);
        LookupIs(uni2sjis, x, y);
        LookupIs(sjis2uni, y, x);
      }
    }
  }

  function ConvertAll(uni2sjis: seq<Word>, sjis2uni: seq<Word>, s: seq<Word>, dir: bool): (r: seq<Word>)
    requires |uni2sjis| >= 2 && |sjis2uni| >= 2
    ensures |r| == |s|
  {
    if s == [] then [] else [Convert(uni2sjis, sjis2uni, s[0], dir)] + ConvertAll(uni2sjis, sjis2uni, s[1..], dir)
  }

  /** A string converts back to itself exactly when all its characters but NULs have an image. */
  lemma {:induction false} StringRoundTrip(uni2sjis: seq<Word>, sjis2uni: seq<Word>, s: seq<Word>, dir: bool)
    requires Table(uni2sjis) && Table(sjis2uni) && MutualInverses(uni2sjis, sjis2uni)
    ensures ConvertAll(uni2sjis, sjis2uni, ConvertAll(uni2sjis, sjis2uni, s, dir), !dir) == s
        <==> forall i :: 0 <= i < |s| && s[i] != 0 ==> Convert(uni2sjis, sjis2uni, s[i], dir) != 0
  {
    if s != [] {
      var t := ConvertAll(uni2sjis, sjis2uni, s, dir);
      StringRoundTrip(uni2sjis, sjis2uni, s[1..], dir);
      assert t[1..] == ConvertAll(uni2sjis, sjis2uni, s[1..], dir);
      if Convert(uni2sjis, sjis2uni, s[0], dir) != 0 {
        RoundTrip(uni2sjis, sjis2uni, s[0], dir);
      }
      assert forall i :: 0 < i < |s| ==> s[i] == s[1..][i - 1];
      var b := ConvertAll(uni2sjis, sjis2uni, t, !dir);
      assert b == s <==> b[0] == s[0] && b[1..] == s[1..];
    }
  }
}
