/** Conversion between Unicode and a single-byte code page (FATFS/src/option/ccsbcs.c), for any
    table of the 128 codes from 0x80 on. */
module Sbcs {
  import opened Words

  /** A code page: entry i is the character of code 0x80 + i, 0 when there is none. */
  type Page = t: seq<Word> | |t| == 0x80 witness seq(0x80, _ => 0)

  /** The least index of a character, 0x80 if it is absent. */
  function IndexOf(t: seq<Word>, x: Word): (k: nat)
    ensures k <= |t| && (k < |t| ==> t[k] == x)
    ensures forall j :: 0 <= j < k ==> t[j] != x
  {
    if t == [] || t[0] == x then 0 else
    var k := IndexOf(t[1..], x);
    assert forall j :: 0 < j < 1 + k ==> t[j] == t[1..][j - 1];
    1 + k
  }

  /** The character of a code and the code of a character, 0 for none. */
  function ToUnicode(t: Page, chr: Word): Word {
    if chr < 0x80 then chr else if chr >= 0x100 then 0 else t[chr - 0x80]
  }

  function ToOem(t: Page, chr: Word): Word {
    if chr < 0x80 then chr else
    var k := IndexOf(t, chr);
    if k < 0x80 then 0x80 + k else 0
  }

  method FfConvert(t: Page, chr: Word, dir: bool) returns (c: Word)
    ensures c == if dir then ToUnicode(t, chr) else ToOem(t, chr)
    ensures chr < 0x80 ==> c == chr
    ensures dir && chr >= 0x80 ==> c == if chr < 0x100 then t[chr - 0x80] else 0
    ensures !dir && chr >= 0x80 && c != 0 ==>
      0x80 <= c < 0x100 && t[c - 0x80] == chr && chr !in t[..c - 0x80]
    ensures !dir && chr >= 0x80 && c == 0 ==> chr !in t
  {
    if chr < 0x80 {
      c := chr;
    } else if dir {
      c := if chr >= 0x100 then 0 else t[chr - 0x80];
    } else {
      c := 0;
      while c < 0x80
        invariant c <= 0x80 && forall j :: 0 <= j < c ==> t[j] != chr
        decreases 0x80 - c
      {
        if chr == t[c] {
          break;
        }
        c := c + 1;
      }
      // & 0xFF
      c := (c + 0x80) % 0x100;
    }
  }

  /** Every character with a code in the page comes back from it, for any page. */
  lemma UnicodeRoundTrip(t: Page, chr: Word)
    requires ToOem(t, chr) != 0
    ensures ToOem(t, chr) < 0x100 && ToUnicode(t, ToOem(t, chr)) == chr
  {
  }

  function AllToOem(t: Page, s: seq<Word>): (r: seq<Word>)
    ensures |r| == |s|
  {
    if s == [] then [] else [ToOem(t, s[0])] + AllToOem(t, s[1..])
  }

  function AllToUnicode(t: Page, s: seq<Word>): (r: seq<Word>)
    ensures |r| == |s|
  {
    if s == [] then [] else [ToUnicode(t, s[0])] + AllToUnicode(t, s[1..])
  }

  /** A Unicode string comes back from its codes exactly when each of its characters but NUL has one. */
  lemma {:induction false} TextRoundTripIff(t: Page, s: seq<Word>)
    ensures AllToUnicode(t, AllToOem(t, s)) == s
        <==> forall i :: 0 <= i < |s| && s[i] != 0 ==> ToOem(t, s[i]) != 0
  {
    if s != [] {
      var codes := AllToOem(t, s);
      assert codes[1..] == AllToOem(t, s[1..]);
      TextRoundTripIff(t, s[1..]);
      assert forall i :: 0 < i < |s| ==> s[i] == s[1..][i - 1];
      var back := AllToUnicode(t, codes);
      assert back == s <==> back[0] == s[0] && back[1..] == s[1..];
      if ToOem(t, s[0]) != 0 {
        UnicodeRoundTrip(t, s[0]);
      }
    }
  }

  /** A code comes back as the least code with the same character, or as that character if it is an
      ASCII one. */
  lemma OemComesBack(t: Page, i: nat)
    requires i < 0x80 && t[i] != 0
    ensures var back := ToOem(t, ToUnicode(t, 0x80 + i));
      if t[i] < 0x80 then back == t[i]
      else 0x80 <= back <= 0x80 + i && t[back - 0x80] == t[i] && forall j :: 0 <= j < back - 0x80 ==> t[j] != t[i]
  {
    var k := IndexOf(t, t[i]);
    assert k <= i;
  }

  /** The nonzero entries are distinct and none is an ASCII character. */
  ghost predicate Faithful(t: Page) {
    && (forall i :: 0 <= i < 0x80 ==> t[i] == 0 || t[i] >= 0x80)
    && (forall i, j :: 0 <= i < j < 0x80 && t[i] != 0 ==> t[i] != t[j])
  }

  ghost predicate OemReturns(t: Page, chr: Word) {
    ToUnicode(t, chr) != 0 ==> ToOem(t, ToUnicode(t, chr)) == chr
  }

  /** Every code with a character comes back exactly when the page is faithful. */
  lemma OemRoundTripIff(t: Page)
    ensures (forall chr: Word :: OemReturns(t, chr)) <==> Faithful(t)
  {
    if Faithful(t) {
      forall chr: Word
        ensures OemReturns(t, chr)
      {
        if 0x80 <= chr < 0x100 && t[chr - 0x80] != 0 {
          OemComesBack(t, chr - 0x80);
        }
      }
    }
    if forall chr: Word :: OemReturns(t, chr) {
      forall i | 0 <= i < 0x80
        ensures t[i] == 0 || (t[i] >= 0x80 && forall j :: 0 <= j < i ==> t[j] != t[i])
      {
        assert OemReturns(t, 0x80 + i);
        if t[i] != 0 {
          OemComesBack(t, i);
        }
      }
    }
  }

  /** The table of code page 1253 is not faithful: code 0x8C becomes a control character, and 0xDD
      comes back as 0xDB because both stand for U+03AD. */
  lemma Page1253IsLossy(t: Page)
    requires t[0x0C] == 0x000C && t[0x5B] == 0x03AD && t[0x5D] == 0x03AD
    ensures !Faithful(t)
    ensures ToOem(t, ToUnicode(t, 0x8C)) == 0x0C
    ensures (forall i :: 0 <= i < 0x5B ==> t[i] != 0x03AD) ==> ToOem(t, ToUnicode(t, 0xDD)) == 0xDB
  {
    OemComesBack(t, 0x0C);
    OemComesBack(t, 0x5D);
  }
}
