/** Directories as trees of slots, and the lookup of path names in them. */
module DirTree {

  /** FRESULT, as far as the directory functions modelled here return it. */
  datatype FResult = Ok | DiskErr | NoFile | NoPath | InvalidName | Denied

  /** One 32-byte directory item. Deleting an entry leaves a Free slot in its place, so a slot
      number is a stable name for an entry. Hidden stands for a volume label or a piece of a long
      name. */
  datatype Slot =
    | Free
    | Hidden
    | Dot(parent: bool)
    | File(name: string, readOnly: bool)
    | Dir(name: string, readOnly: bool, slots: Slots)
  {
    /** The slot holds a file or a directory. */
    predicate Live() {
      File? || Dir?
    }

    predicate Named(s: string) {
      Live() && name == s
    }
  }

  type Slots = seq<Slot>

  predicate IsSeparator(c: char) {
    c == '/' || c == '\\'
  }

  /** A name in 8.3 form; only dot entries begin with a dot. */
  predicate ShortName(s: string) {
    1 <= |s| <= 12 && s[0] != '.' && forall i :: 0 <= i < |s| ==> s[i] != '\0' && !IsSeparator(s[i])
  }

  predicate Distinct(d: Slots) {
    forall i, j :: 0 <= i < j < |d| && d[i].Live() && d[j].Live() ==> d[i].name != d[j].name
  }

  /** A directory from slot `from` on: names are valid and distinct, dot entries lead every
      subdirectory and appear nowhere else. */
  predicate WellFormed(d: Slots, from: nat)
    decreases d
  {
    && from <= |d|
    && Distinct(d)
    && (forall i :: 0 <= i < from ==> d[i].Dot?)
    && (forall i :: from <= i < |d| ==> !d[i].Dot?)
    && (forall i :: 0 <= i < |d| && d[i].Live() ==> ShortName(d[i].name))
    && (forall i :: 0 <= i < |d| && d[i].Dir? ==> WellFormed(d[i].slots, 2))
  }

  // --- Places in the tree -----------------------------------------------------

  /** loc leads from d through directories only. */
  predicate Reaches(d: Slots, loc: seq<nat>) {
    loc == [] || (loc[0] < |d| && d[loc[0]].Dir? && Reaches(d[loc[0]].slots, loc[1..]))
  }

  function Contents(d: Slots, loc: seq<nat>): Slots
    requires Reaches(d, loc)
  {
    if loc == [] then d else Contents(d[loc[0]].slots, loc[1..])
  }

  /** d with the contents of the directory at loc replaced. */
  function Replace(d: Slots, loc: seq<nat>, e: Slots): (r: Slots)
    requires Reaches(d, loc)
    ensures |loc| > 0 ==> |r| == |d|
  {
    if loc == [] then e
    else d[loc[0] := d[loc[0]].(slots := Replace(d[loc[0]].slots, loc[1..], e))]
  }

  lemma {:induction false} ReplaceReaches(d: Slots, loc: seq<nat>, e: Slots)
    requires Reaches(d, loc)
    ensures Reaches(Replace(d, loc, e), loc) && Contents(Replace(d, loc, e), loc) == e
  {
    if loc != [] {
      ReplaceReaches(d[loc[0]].slots, loc[1..], e);
    }
  }

  lemma {:induction false} ReplaceTwice(d: Slots, loc: seq<nat>, e: Slots, g: Slots)
    requires Reaches(d, loc)
    ensures Reaches(Replace(d, loc, e), loc)
    ensures Replace(Replace(d, loc, e), loc, g) == Replace(d, loc, g)
  {
    if loc != [] {
      ReplaceTwice(d[loc[0]].slots, loc[1..], e, g);
    }
  }

  lemma {:induction false} ReplaceSame(d: Slots, loc: seq<nat>)
    requires Reaches(d, loc)
    ensures Replace(d, loc, Contents(d, loc)) == d
  {
    if loc != [] {
      ReplaceSame(d[loc[0]].slots, loc[1..]);
    }
  }

  /** Replacing the contents of subdirectory k is replacing slot k in its parent. */
  lemma {:induction false} ReplaceBelow(d: Slots, loc: seq<nat>, k: nat, e: Slots)
    requires Reaches(d, loc) && k < |Contents(d, loc)| && Contents(d, loc)[k].Dir?
    ensures Reaches(d, loc + [k]) && Contents(d, loc + [k]) == Contents(d, loc)[k].slots
    ensures var c := Contents(d, loc); Replace(d, loc + [k], e) == Replace(d, loc, c[k := c[k].(slots := e)])
  {
    var path := loc + [k];
    if loc == [] {
      assert path[1..] == [];
    } else {
      assert path[1..] == loc[1..] + [k];
      ReplaceBelow(d[loc[0]].slots, loc[1..], k, e);
    }
  }

  // --- Path names -------------------------------------------------------------

  /** The slot that carries a name, |d| if there is none. */
  function Find(d: Slots, name: string): (k: nat)
    ensures k <= |d|
    ensures k < |d| ==> d[k].Named(name)
    ensures forall i :: 0 <= i < k ==> !d[i].Named(name)
  {
    if d == [] || d[0].Named(name) then 0 else 1 + Find(d[1..], name)
  }

  /** The length of the first segment of p. */
  function Segment(p: string): (n: nat)
    ensures n <= |p|
    ensures n < |p| ==> IsSeparator(p[n])
    ensures forall i :: 0 <= i < n ==> !IsSeparator(p[i])
  {
    if p == "" || IsSeparator(p[0]) then 0 else 1 + Segment(p[1..])
  }

  function Strip(p: string): (q: string)
    ensures |q| <= |p| && (q != "" ==> !IsSeparator(q[0]))
  {
    if p != "" && IsSeparator(p[0]) then Strip(p[1..]) else p
  }

  predicate OnlyDots(s: string) {
    forall i :: 0 <= i < |s| ==> s[i] == '.'
  }

  /** What follow_path finds: the slots that lead to an entry, none for the origin. */
  datatype Found = At(loc: seq<nat>) | Failed(res: FResult)

  function Below(k: nat, f: Found): Found {
    if f.At? then At([k] + f.loc) else f
  }

  /** The segments of p, looked up one below the other. */
  function Walk(d: Slots, p: string): Found
    decreases |p|
  {
    var q := Strip(p);
    var n := Segment(q);
    if OnlyDots(q[..n]) then Failed(InvalidName) else
    var k := Find(d, q[..n]);
    if n == |q| then if k < |d| then At([k]) else Failed(NoFile)
    else if k < |d| && d[k].Dir? then Below(k, Walk(d[k].slots, q[n + 1..]))
    else Failed(NoPath)
  }

  /** follow_path */
  function Resolve(root: Slots, path: string): Found {
    var p := if path != "" && IsSeparator(path[0]) then path[1..] else path;
    if p == "" then At([]) else Walk(root, p)
  }

  /** A place that a lookup may report: some directory's slot that is in use. */
  predicate Entry(d: Slots, loc: seq<nat>) {
    loc != [] && loc[0] < |d| && d[loc[0]].Live()
    && (|loc| > 1 ==> d[loc[0]].Dir? && Entry(d[loc[0]].slots, loc[1..]))
  }

  lemma {:induction false} WalkFindsEntry(d: Slots, p: string)
    ensures Walk(d, p).At? ==> Entry(d, Walk(d, p).loc)
    decreases |p|
  {
    var q := Strip(p);
    var n := Segment(q);
    var k := Find(d, q[..n]);
    if !OnlyDots(q[..n]) && n < |q| && k < |d| && d[k].Dir? {
      WalkFindsEntry(d[k].slots, q[n + 1..]);
      var w := Walk(d[k].slots, q[n + 1..]);
      assert w.At? ==> ([k] + w.loc)[1..] == w.loc;
    }
  }

  function EntryAt(d: Slots, loc: seq<nat>): (s: Slot)
    requires Entry(d, loc)
    ensures s.Live()
  {
    if |loc| == 1 then d[loc[0]] else EntryAt(d[loc[0]].slots, loc[1..])
  }

  /** d with the entry at loc overwritten. */
  function PutEntry(d: Slots, loc: seq<nat>, s: Slot): Slots
    requires Entry(d, loc)
  {
    if |loc| == 1 then d[loc[0] := s]
    else d[loc[0] := d[loc[0]].(slots := PutEntry(d[loc[0]].slots, loc[1..], s))]
  }

  /** The entry at slot k of the directory at loc. */
  lemma {:induction false} EntryBelow(d: Slots, loc: seq<nat>, k: nat, s: Slot)
    requires Reaches(d, loc) && k < |Contents(d, loc)| && Contents(d, loc)[k].Live()
    ensures Entry(d, loc + [k]) && EntryAt(d, loc + [k]) == Contents(d, loc)[k]
    ensures PutEntry(d, loc + [k], s) == Replace(d, loc, Contents(d, loc)[k := s])
  {
    var path := loc + [k];
    if loc != [] {
      assert path[1..] == loc[1..] + [k];
      EntryBelow(d[loc[0]].slots, loc[1..], k, s);
    }
  }

  lemma {:induction false} EntryReaches(d: Slots, loc: seq<nat>)
    requires Entry(d, loc) && EntryAt(d, loc).Dir?
    ensures Reaches(d, loc) && Contents(d, loc) == EntryAt(d, loc).slots
  {
    if |loc| > 1 {
      EntryReaches(d[loc[0]].slots, loc[1..]);
    } else {
      assert loc[1..] == [];
    }
  }

  lemma {:induction false} ReachesEntry(d: Slots, loc: seq<nat>)
    requires Reaches(d, loc) && loc != []
    ensures Entry(d, loc) && EntryAt(d, loc).Dir? && Contents(d, loc) == EntryAt(d, loc).slots
  {
    if |loc| > 1 {
      ReachesEntry(d[loc[0]].slots, loc[1..]);
    } else {
      assert loc[1..] == [];
    }
  }

  lemma {:induction false} SegmentOfSum(q: string, name: string)
    ensures Segment(q + "/" + name) == Segment(q)
  {
    var s := q + "/" + name;
    if q != "" && !IsSeparator(q[0]) {
      assert s[1..] == q[1..] + "/" + name;
      SegmentOfSum(q[1..], name);
    }
  }

  lemma {:induction false} SegmentOfName(name: string)
    requires forall i :: 0 <= i < |name| ==> !IsSeparator(name[i])
    ensures Segment(name) == |name|
  {
    if name != "" {
      SegmentOfName(name[1..]);
    }
  }

  lemma {:induction false} StripOfSum(p: string, t: string)
    requires Strip(p) != ""
    ensures Strip(p + t) == Strip(p) + t
  {
    if IsSeparator(p[0]) {
      assert (p + t)[1..] == p[1..] + t;
      StripOfSum(p[1..], t);
    }
  }

  lemma WalkName(d: Slots, name: string)
    requires ShortName(name)
    ensures Find(d, name) < |d| ==> Walk(d, name) == At([Find(d, name)])
  {
    SegmentOfName(name);
    assert Strip(name) == name && name[..|name|] == name;
    assert !OnlyDots(name);
  }

  /** The first segment of a lengthened path is the first segment of the path. */
  lemma AppendSplits(p: string, name: string)
    requires Strip(p) != ""
    ensures var q, s := Strip(p), Strip(p + "/" + name);
            var n := Segment(q);
            && Segment(s) == n && n < |s| && s[..n] == q[..n]
            && s[n + 1..] == if n < |q| then q[n + 1..] + "/" + name else name
  {
    var q := Strip(p);
    assert p + "/" + name == p + ("/" + name) && q + "/" + name == q + ("/" + name);
    StripOfSum(p, "/" + name);
    SegmentOfSum(q, name);
  }

  /** One step of Walk. */
  lemma WalkCases(d: Slots, p: string)
    ensures var q := Strip(p);
      var n := Segment(q);
      var k := Find(d, q[..n]);
      && (Walk(d, p).At? ==> q != "" && !OnlyDots(q[..n]) && k < |d| && (n < |q| ==> d[k].Dir?))
      && (!OnlyDots(q[..n]) && n == |q| && k < |d| ==> Walk(d, p) == At([k]))
      && (!OnlyDots(q[..n]) && n < |q| && k < |d| && d[k].Dir? ==>
            Walk(d, p) == Below(k, Walk(d[k].slots, q[n + 1..])))
  {
    hide Find, Segment, Strip;
  }

  lemma ContentsCases(d: Slots, loc: seq<nat>)
    requires Reaches(d, loc)
    ensures loc == [] ==> Contents(d, loc) == d
    ensures loc != [] ==> loc[0] < |d| && d[loc[0]].Dir? && Reaches(d[loc[0]].slots, loc[1..])
                          && Contents(d, loc) == Contents(d[loc[0]].slots, loc[1..])
  {
  }

  /** Appending a separator and a name to a path that leads to a directory leads into it. */
  lemma {:induction false} WalkAppend(d: Slots, p: string, loc: seq<nat>, name: string, j: nat)
    requires Walk(d, p) == At(loc) && Reaches(d, loc) && ShortName(name)
    requires j == Find(Contents(d, loc), name) < |Contents(d, loc)|
    ensures Walk(d, p + "/" + name) == At(loc + [j])
    decreases |p|
  {
    hide Find, Segment, Strip, Walk, OnlyDots, ShortName, Reaches, Contents;
    var q := Strip(p);
    var n := Segment(q);
    var k := Find(d, q[..n]);
    WalkCases(d, p);
    ContentsCases(d, loc);
    AppendSplits(p, name);
    WalkCases(d, p + "/" + name);
    if n == |q| {
      assert loc == [k] && loc[1..] == [];
      ContentsCases(d[k].slots, []);
      WalkName(d[k].slots, name);
      assert [k] + [j] == loc + [j];
    } else {
      var tail := loc[1..];
      var w := Walk(d[k].slots, q[n + 1..]);
      assert w == At(tail);
      WalkAppend(d[k].slots, q[n + 1..], tail, name, j);
      assert [k] + (tail + [j]) == loc + [j];
    }
  }

  /** A path to a directory keeps its meaning when the contents of that directory change. */
  lemma {:induction false} WalkReplace(d: Slots, p: string, e: Slots)
    requires Walk(d, p).At? && Reaches(d, Walk(d, p).loc)
    ensures Walk(Replace(d, Walk(d, p).loc, e), p) == Walk(d, p)
    decreases |p|
  {
    var q := Strip(p);
    var n := Segment(q);
    var k := Find(d, q[..n]);
    var loc := Walk(d, p).loc;
    var r := Replace(d, loc, e);
    assert loc != [] && loc[0] == k;
    assert Find(r, q[..n]) == k by { FindReplaced(d, k, q[..n], r[k].slots); }
    if n < |q| {
      var w := Walk(d[k].slots, q[n + 1..]);
      assert loc[1..] == w.loc;
      WalkReplace(d[k].slots, q[n + 1..], e);
    }
  }

  lemma FindReplaced(d: Slots, k: nat, name: string, e: Slots)
    requires k == Find(d, name) < |d| && d[k].Dir?
    ensures Find(d[k := d[k].(slots := e)], name) == k
  {
    var r := d[k := d[k].(slots := e)];
    assert r[k].Named(name);
    assert forall i :: 0 <= i < k ==> r[i] == d[i];
  }

  predicate LeadsTo(root: Slots, path: string, loc: seq<nat>) {
    Resolve(root, path) == At(loc) && Reaches(root, loc)
  }

  /** Appending a separator and a name to the path of a directory names the entry in it, and still
      does after other changes to that directory. */
  lemma PathBelow(root: Slots, path: string, loc: seq<nat>, e: Slots, name: string)
    requires LeadsTo(root, path, loc) && ShortName(name) && Find(e, name) < |e|
    ensures LeadsTo(Replace(root, loc, e), path, loc)
    ensures Resolve(Replace(root, loc, e), path + "/" + name) == At(loc + [Find(e, name)])
  {
    var r := Replace(root, loc, e);
    ReplaceReaches(root, loc, e);
    var longer := path + "/" + name;
    if path != "" && IsSeparator(path[0]) {
      assert longer[1..] == path[1..] + "/" + name;
      PathBelowPlain(root, path[1..], loc, e, name);
    } else if path == "" {
      assert longer[1..] == name;
      WalkName(r, name);
    } else {
      PathBelowPlain(root, path, loc, e, name);
    }
  }

  lemma PathBelowPlain(root: Slots, p: string, loc: seq<nat>, e: Slots, name: string)
    requires Reaches(root, loc) && ShortName(name) && Find(e, name) < |e|
    requires At(loc) == if p == "" then At([]) else Walk(root, p)
    ensures var r := Replace(root, loc, e);
            (p == "" || Walk(r, p) == At(loc)) && Walk(r, p + "/" + name) == At(loc + [Find(e, name)])
  {
    var r := Replace(root, loc, e);
    ReplaceReaches(root, loc, e);
    if p == "" {
      assert p + "/" + name == "/" + name && ("/" + name)[1..] == name;
      assert Strip("/" + name) == name == Strip(name);
      WalkName(r, name);
      assert Walk(r, "/" + name) == Walk(r, name);
    } else {
      WalkReplace(root, p, e);
      WalkAppend(r, p, loc, name, Find(e, name));
    }
  }
}
