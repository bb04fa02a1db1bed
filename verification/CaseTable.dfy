/** Upper-casing by two parallel tables: ff_wtoupper, the same function in both converters. */
module CaseTable {
  import opened Words

  /** Parallel tables, ended by the only 0 in lower. */
  ghost predicate Tables(lower: seq<Word>, upper: seq<Word>) {
    && |lower| > 0 && |upper| == |lower| && lower[|lower| - 1] == 0
    && forall i :: 0 <= i < |lower| - 1 ==> lower[i] != 0
  }

  function Upper(lower: seq<Word>, upper: seq<Word>, chr: Word): Word
    requires |upper| == |lower|
  {
    if lower == [] || lower[0] == 0 then chr
    else if lower[0] == chr then upper[0]
    else Upper(lower[1..], upper[1..], chr)
  }

  method FfWtoupper(lower: seq<Word>, upper: seq<Word>, chr: Word) returns (r: Word)
    requires Tables(lower, upper)
    ensures r == Upper(lower, upper, chr)
    ensures forall i: nat :: First(lower, i) && lower[i] == chr ==> r == upper[i]
    ensures chr == 0 || chr !in lower ==> r == chr
  {
    KeyOrSame(lower, upper, chr);
    var i := 0;
    assert lower[0..] == lower && upper[0..] == upper;
    while lower[i] != 0 && chr != lower[i]
      invariant 0 <= i < |lower|
      invariant Upper(lower[i..], upper[i..], chr) == Upper(lower, upper, chr)
      decreases |lower| - i
    {
      assert lower[i..][1..] == lower[i + 1..] && upper[i..][1..] == upper[i + 1..];
      i := i + 1;
    }
    r := if lower[i] != 0 then upper[i] else chr;
  }

  /** Entry i is the first with its key; the others with that key are never reached. */
  ghost predicate First(lower: seq<Word>, i: nat) {
    i < |lower| && lower[i] != 0 && forall k :: 0 <= k < i ==> lower[k] != lower[i]
  }

  /** A replacement that is itself a key is replaced by itself. */
  ghost predicate Closed(lower: seq<Word>, upper: seq<Word>)
    requires |upper| == |lower|
  {
    forall i: nat, j: nat :: First(lower, i) && First(lower, j) && lower[j] == upper[i] ==> upper[j] == upper[i]
  }

  lemma {:induction false} UpperOfKey(lower: seq<Word>, upper: seq<Word>, i: nat)
    requires Tables(lower, upper) && First(lower, i)
    ensures Upper(lower, upper, lower[i]) == upper[i]
  {
    if i > 0 {
      assert First(lower[1..], i - 1) by {
        assert forall k :: 0 <= k < i - 1 ==> lower[1..][k] == lower[k + 1];
      }
      UpperOfKey(lower[1..], upper[1..], i - 1);
    }
  }

  /** Upper-casing replaces the first entry of a key, and keeps other characters. */
  lemma KeyOrSame(lower: seq<Word>, upper: seq<Word>, chr: Word)
    requires Tables(lower, upper)
    ensures forall i: nat :: First(lower, i) && lower[i] == chr ==> Upper(lower, upper, chr) == upper[i]
    ensures chr == 0 || chr !in lower ==> Upper(lower, upper, chr) == chr
  {
    forall i: nat | First(lower, i) && lower[i] == chr
      ensures Upper(lower, upper, chr) == upper[i]
    {
      UpperOfKey(lower, upper, i);
    }
    UpperCases(lower, upper, chr);
  }

  lemma {:induction false} UpperCases(lower: seq<Word>, upper: seq<Word>, chr: Word)
    requires |upper| == |lower|
    ensures Upper(lower, upper, chr) == chr
         || exists i: nat :: First(lower, i) && lower[i] == chr && Upper(lower, upper, chr) == upper[i]
  {
    var u := Upper(lower, upper, chr);
    if lower != [] && lower[0] != 0 && u != chr {
      if lower[0] == chr {
        assert First(lower, 0);
      } else {
        UpperCases(lower[1..], upper[1..], chr);
        var i: nat :| First(lower[1..], i) && lower[1..][i] == chr && u == upper[1..][i];
        assert First(lower, i + 1) by {
          assert forall k :: 1 <= k < i + 1 ==> lower[k] == lower[1..][k - 1];
        }
      }
    }
  }

  function UpperAll(lower: seq<Word>, upper: seq<Word>, s: seq<Word>): (r: seq<Word>)
    requires |upper| == |lower|
    ensures |r| == |s|
  {
    if s == [] then [] else [Upper(lower, upper, s[0])] + UpperAll(lower, upper, s[1..])
  }

  ghost predicate Settles(lower: seq<Word>, upper: seq<Word>, s: seq<Word>)
    requires |upper| == |lower|
  {
    UpperAll(lower, upper, UpperAll(lower, upper, s)) == UpperAll(lower, upper, s)
  }

  lemma {:induction false} ClosedSettles(lower: seq<Word>, upper: seq<Word>, s: seq<Word>)
    requires Tables(lower, upper) && Closed(lower, upper)
    ensures Settles(lower, upper, s)
  {
    if s != [] {
      ClosedSettles(lower, upper, s[1..]);
      var u := Upper(lower, upper, s[0]);
      UpperCases(lower, upper, s[0]);
      UpperCases(lower, upper, u);
      assert Upper(lower, upper, u) == u;
      var r := UpperAll(lower, upper, s);
      assert r[1..] == UpperAll(lower, upper, s[1..]);
    }
  }

  /** Upper-casing a string twice is the same as once for every string exactly when the tables are
      closed, in particular when no upper value occurs among the keys. */
  lemma IdempotentIff(lower: seq<Word>, upper: seq<Word>)
    requires Tables(lower, upper)
    ensures (forall s :: Settles(lower, upper, s)) <==> Closed(lower, upper)
    ensures (forall i, j :: 0 <= i < |lower| - 1 && 0 <= j < |lower| - 1 ==> upper[i] != lower[j])
        ==> Closed(lower, upper)
  {
    if Closed(lower, upper) {
      forall s
        ensures Settles(lower, upper, s)
      {
        ClosedSettles(lower, upper, s);
      }
    } else {
      var i: nat, j: nat :| First(lower, i) && First(lower, j) && lower[j] == upper[i] && upper[j] != upper[i];
      UpperOfKey(lower, upper, i);
      UpperOfKey(lower, upper, j);
      var r := UpperAll(lower, upper, [lower[i]]);
      assert r == [upper[i]];
      assert UpperAll(lower, upper, r) == [upper[j]];
      assert !Settles(lower, upper, [lower[i]]);
    }
  }
}
