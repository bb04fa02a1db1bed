/** What path names mean, segment by segment, apart from how follow_path scans them. */
module PathNames {
  import opened DirTree

  // --- The segments of a path ----------------------------------------------------

  /** The pieces of p between its separators. */
  function Pieces(p: string): (r: seq<string>)
    ensures |r| >= 1
  {
    if p == "" then [""] else
    var r := Pieces(p[1..]);
    if IsSeparator(p[0]) then [""] + r else [[p[0]] + r[0]] + r[1..]
  }

  function NonEmpty(pieces: seq<string>): seq<string> {
    if pieces == [] then []
    else (if pieces[0] == "" then [] else [pieces[0]]) + NonEmpty(pieces[1..])
  }

  /** The segments: repeated separators count as one, and only the last segment can be empty. */
  function Segments(p: string): (r: seq<string>)
    ensures |r| >= 1
  {
    var r := Pieces(p);
    NonEmpty(r[..|r| - 1]) + [r[|r| - 1]]
  }

  /** The names that lead from the root to the entry; none for the root itself. */
  function Names(path: string): seq<string> {
    if path == "" || (|path| == 1 && IsSeparator(path[0])) then []
    else Segments(if IsSeparator(path[0]) then path[1..] else path)
  }

  lemma SegmentsSkip(p: string)
    requires p != "" && IsSeparator(p[0])
    ensures Segments(p) == Segments(p[1..])
  {
    var r := Pieces(p[1..]);
    var front := ([""] + r)[..|r|];
    assert front[0] == "" && front[1..] == r[..|r| - 1];
  }

  lemma {:induction false} SegmentsStrip(p: string)
    ensures Segments(Strip(p)) == Segments(p)
  {
    if p != "" && IsSeparator(p[0]) {
      SegmentsSkip(p);
      SegmentsStrip(p[1..]);
    }
  }

  lemma {:induction false} PiecesSplit(q: string)
    ensures var n := Segment(q);
      Pieces(q) == if n == |q| then [q] else [q[..n]] + Pieces(q[n + 1..])
  {
    if q != "" && !IsSeparator(q[0]) {
      var n, t := Segment(q), q[1..];
      PiecesSplit(t);
      assert Segment(t) == n - 1;
      assert q == [q[0]] + t;
      if n < |q| {
        assert t[n - 1 + 1..] == q[n + 1..];
        assert [q[0]] + t[..n - 1] == q[..n];
      }
    }
  }

  /** The first segment and the rest, as create_name takes them off. */
  lemma SegmentsSplit(p: string)
    ensures var q := Strip(p);
      var n := Segment(q);
      Segments(p) == if n == |q| then [q] else [q[..n]] + Segments(q[n + 1..])
  {
    hide Pieces, NonEmpty, Strip, Segment;
    var q := Strip(p);
    var n := Segment(q);
    FirstSegment(p);
    SegmentsStrip(p);
    PiecesSplit(q);
    PiecesSome(if n < |q| then q[n + 1..] else "");
    if n < |q| {
      FrontName(q[..n], Pieces(q[n + 1..]));
    } else {
      FrontNothing(q);
    }
  }

  lemma FirstSegment(p: string)
    ensures var q := Strip(p); Segment(q) <= |q| && (q != "" ==> Segment(q) > 0)
  {
  }

  lemma PiecesSome(p: string)
    ensures |Pieces(p)| >= 1
  {
  }

  lemma FrontNothing(q: string)
    ensures NonEmpty([q][..0]) + [q] == [q]
  {
  }

  lemma FrontName(name: string, r: seq<string>)
    requires name != "" && |r| >= 1
    ensures var w := [name] + r;
      NonEmpty(w[..|w| - 1]) + [w[|w| - 1]] == [name] + (NonEmpty(r[..|r| - 1]) + [r[|r| - 1]])
  {
    var front := ([name] + r)[..|r|];
    assert front[0] == name && front[1..] == r[..|r| - 1];
  }

  /** A backslash separates names like a slash does. */
  lemma BackslashSeparates()
    ensures Segments("A\\B") == ["A", "B"]
  {
    hide Pieces;
    PiecesOf("", 'B');
    assert ['B'] + "" == "B" && Pieces("B") == ["B"];
    PiecesOf("B", '\\');
    assert ['\\'] + "B" == "\\B" && Pieces("\\B") == ["", "B"];
    PiecesOf("\\B", 'A');
    assert ['A'] + "\\B" == "A\\B" && ['A'] + "" == "A" && Pieces("A\\B") == ["A", "B"];
    assert ["A", "B"][..1] == ["A"] && ["A"][1..] == [];
  }

  /** A separator at the end leaves an empty name. */
  lemma EmptyLastName()
    ensures Segments("A/") == ["A", ""]
  {
    hide Pieces;
    PiecesOf("", '/');
    assert ['/'] + "" == "/" && Pieces("/") == ["", ""];
    PiecesOf("/", 'A');
    assert ['A'] + "/" == "A/" && ['A'] + "" == "A" && Pieces("A/") == ["A", ""];
    assert ["A", ""][..1] == ["A"] && ["A"][1..] == [];
  }

  lemma PiecesOf(p: string, c: char)
    ensures var r := Pieces(p);
      |r| >= 1 && Pieces([c] + p) == if IsSeparator(c) then [""] + r else [[c] + r[0]] + r[1..]
    ensures Pieces("") == [""]
  {
    assert ([c] + p)[1..] == p;
  }

  // --- Where names lead ------------------------------------------------------------

  /** Slot k is the first with this name. */
  predicate FirstNamed(d: Slots, k: nat, name: string) {
    k < |d| && d[k].Named(name) && forall j :: 0 <= j < k ==> !d[j].Named(name)
  }

  /** The names lead through directories, along the slots of loc. */
  predicate Leads(d: Slots, names: seq<string>, loc: seq<nat>) {
    if names == [] then loc == [] else
    && loc != [] && FirstNamed(d, loc[0], names[0]) && !OnlyDots(names[0])
    && d[loc[0]].Dir? && Leads(d[loc[0]].slots, names[1..], loc[1..])
  }

  /** The names lead to a directory. */
  ghost predicate Opens(d: Slots, names: seq<string>) {
    exists loc :: Leads(d, names, loc)
  }

  /** Some directory on the way is asked for a name that is empty or consists of dots. */
  ghost predicate MeetsBadName(d: Slots, names: seq<string>) {
    exists k :: 0 <= k < |names| && Opens(d, names[..k]) && OnlyDots(names[k])
  }

  lemma FindIsFirst(d: Slots, k: nat, name: string)
    ensures FirstNamed(d, k, name) <==> k == Find(d, name) < |d|
  {
  }

  /** The first name is found in slot k of d, which is a directory. */
  ghost predicate Enters(d: Slots, name: string) {
    var k := Find(d, name);
    !OnlyDots(name) && k < |d| && d[k].Dir?
  }

  lemma LeadsStep(d: Slots, names: seq<string>, loc: seq<nat>)
    requires names != []
    ensures var k := Find(d, names[0]);
      Leads(d, names, loc) <==>
        Enters(d, names[0]) && loc != [] && loc[0] == k && Leads(d[k].slots, names[1..], loc[1..])
  {
    if loc != [] {
      FindIsFirst(d, loc[0], names[0]);
    }
  }

  lemma OpensStep(d: Slots, names: seq<string>)
    requires names != []
    ensures Opens(d, names) <==> Enters(d, names[0]) && Opens(d[Find(d, names[0])].slots, names[1..])
  {
    var k := Find(d, names[0]);
    if Opens(d, names) {
      var loc :| Leads(d, names, loc);
      LeadsStep(d, names, loc);
    }
    if Enters(d, names[0]) && Opens(d[k].slots, names[1..]) {
      var loc :| Leads(d[k].slots, names[1..], loc);
      assert ([k] + loc)[1..] == loc;
      LeadsStep(d, names, [k] + loc);
    }
  }

  lemma OpensNothing(d: Slots)
    ensures Opens(d, [])
  {
    assert Leads(d, [], []);
  }

  lemma BadStep(d: Slots, names: seq<string>)
    requires names != []
    ensures MeetsBadName(d, names) <==>
      OnlyDots(names[0]) || (Enters(d, names[0]) && MeetsBadName(d[Find(d, names[0])].slots, names[1..]))
  {
    hide OnlyDots, Opens;
    OpensNothing(d);
    var rest := names[1..];
    if OnlyDots(names[0]) {
      assert names[..0] == [];
      assert MeetsBadName(d, names);
    }
    if Enters(d, names[0]) && MeetsBadName(d[Find(d, names[0])].slots, rest) {
      var k :| 0 <= k < |rest| && Opens(d[Find(d, names[0])].slots, rest[..k]) && OnlyDots(rest[k]);
      assert names[..k + 1][1..] == rest[..k];
      OpensStep(d, names[..k + 1]);
      assert names[k + 1] == rest[k];
    }
    if MeetsBadName(d, names) && !OnlyDots(names[0]) {
      var k :| 0 <= k < |names| && Opens(d, names[..k]) && OnlyDots(names[k]);
      OpensStep(d, names[..k]);
      assert names[..k][1..] == rest[..k - 1] && names[k] == rest[k - 1];
    }
  }

  // --- What a lookup finds -------------------------------------------------------------

  /** Walk reports a place exactly when all names but the last lead to a directory that has an entry of
      the last name. */
  ghost predicate Places(d: Slots, names: seq<string>, loc: seq<nat>) {
    && |names| == |loc| > 0
    && var m := |names| - 1;
    && Leads(d, names[..m], loc[..m]) && Reaches(d, loc[..m]) && !OnlyDots(names[m])
    && FirstNamed(Contents(d, loc[..m]), loc[m], names[m])
  }

  lemma PlacesStep(d: Slots, names: seq<string>, loc: seq<nat>)
    requires |names| > 1
    ensures Places(d, names, loc) <==>
      && loc != [] && Enters(d, names[0]) && loc[0] == Find(d, names[0])
      && Places(d[loc[0]].slots, names[1..], loc[1..])
  {
    hide OnlyDots, FirstNamed;
    if |names| == |loc| {
      var m := |names| - 1;
      assert names[..m][1..] == names[1..][..m - 1] && loc[..m][1..] == loc[1..][..m - 1];
      LeadsStep(d, names[..m], loc[..m]);
    }
  }

  lemma PlacesLast(d: Slots, name: string, loc: seq<nat>)
    ensures Places(d, [name], loc) <==> |loc| == 1 && !OnlyDots(name) && loc[0] == Find(d, name) < |d|
  {
    assert [name][..0] == [];
    if |loc| == 1 {
      assert loc[..0] == [];
      FindIsFirst(d, loc[0], name);
    }
  }

  /** The exact result of walking along a path. */
  lemma {:induction false} WalkExactly(d: Slots, p: string)
    ensures var w, names := Walk(d, p), Segments(p);
      && (forall loc :: w == At(loc) <==> Places(d, names, loc))
      && (w == Failed(InvalidName) <==> MeetsBadName(d, names))
      && (w.At? || w == Failed(InvalidName) || w == Failed(NoPath)
          || (w == Failed(NoFile) && Opens(d, names[..|names| - 1])))
      && (w == Failed(NoPath) ==> !Opens(d, names[..|names| - 1]))
    decreases |p|
  {
    hide Places, MeetsBadName, Opens, Find, Segments, Segment, Strip, OnlyDots;
    var w, names := Walk(d, p), Segments(p);
    var q := Strip(p);
    var n := Segment(q);
    var name := q[..n];
    var k := Find(d, name);
    SegmentsSplit(p);
    assert names[0] == name;
    BadStep(d, names);
    if n == |q| {
      assert q == name && names == [name] && names[1..] == [] && names[..0] == [];
      NoBadName(if k < |d| && d[k].Dir? then d[k].slots else []);
      OpensNothing(d);
      forall loc
        ensures w == At(loc) <==> Places(d, names, loc)
      {
        PlacesLast(d, name, loc);
      }
    } else {
      var rest := Segments(q[n + 1..]);
      assert names[1..] == rest;
      var front := names[..|names| - 1];
      assert front[1..] == rest[..|rest| - 1] && front[0] == name;
      OpensStep(d, front);
      if Enters(d, name) {
        WalkExactly(d[k].slots, q[n + 1..]);
      }
      forall loc
        ensures w == At(loc) <==> Places(d, names, loc)
      {
        PlacesStep(d, names, loc);
        if loc == [] {
          PlacesSomething(d, names);
        } else {
          assert loc == [loc[0]] + loc[1..];
        }
      }
    }
  }

  lemma PlacesSomething(d: Slots, names: seq<string>)
    ensures !Places(d, names, [])
  {
  }

  lemma NoBadName(d: Slots)
    ensures !MeetsBadName(d, [])
  {
  }

  /** The exact result of follow_path: the root for no names, otherwise the entry that the names place. */
  lemma ResolveExactly(root: Slots, path: string)
    ensures var r, names := Resolve(root, path), Names(path);
      if names == [] then r == At([]) else
      && (forall loc :: r == At(loc) <==> Places(root, names, loc))
      && (r == Failed(InvalidName) <==> MeetsBadName(root, names))
      && (r.At? || r == Failed(InvalidName) || r == Failed(NoPath)
          || (r == Failed(NoFile) && Opens(root, names[..|names| - 1])))
      && (r == Failed(NoPath) ==> !Opens(root, names[..|names| - 1]))
  {
    hide Places, MeetsBadName, Opens, Walk, Segments;
    if Names(path) != [] {
      WalkExactly(root, if IsSeparator(path[0]) then path[1..] else path);
    }
  }

  /** A place is a directory exactly when all names lead to it. */
  lemma {:induction false} LeadsToPlace(d: Slots, names: seq<string>, loc: seq<nat>)
    requires names != []
    ensures Leads(d, names, loc) <==> Places(d, names, loc) && Entry(d, loc) && EntryAt(d, loc).Dir?
    decreases |names|
  {
    hide Places;
    LeadsStep(d, names, loc);
    if |names| == 1 {
      assert names == [names[0]];
      PlacesLast(d, names[0], loc);
      if loc != [] && loc[0] < |d| && d[loc[0]].Dir? {
        LeadsNowhere(d[loc[0]].slots, loc[1..]);
      }
    } else {
      PlacesStep(d, names, loc);
      if Enters(d, names[0]) && loc != [] && loc[0] == Find(d, names[0]) {
        LeadsToPlace(d[loc[0]].slots, names[1..], loc[1..]);
        PlacesSomething(d[loc[0]].slots, names[1..]);
      }
    }
  }

  lemma LeadsNowhere(d: Slots, loc: seq<nat>)
    ensures Leads(d, [], loc) <==> loc == []
  {
  }
}
