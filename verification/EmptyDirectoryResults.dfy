/** What emptying a directory achieves, with and without disk faults. */
module EmptyDirectoryResults {
  import opened DirTree
  import opened EmptyDirectory

  /** The entry is read-only or holds a read-only entry. */
  predicate Protected(s: Slot)
    decreases s, 0
  {
    s.Live() && (s.readOnly || (s.Dir? && HoldsReadOnly(s.slots)))
  }

  predicate HoldsReadOnly(d: Slots)
    decreases d
  {
    d != [] && (Protected(d[0]) || HoldsReadOnly(d[1..]))
  }

  /** The number of calls of directory functions that emptying an opened directory takes. */
  function Calls(d: Slots, cf: Config): nat
    decreases d
  {
    if d == [] then 1
    else (if d[0].Live() then 1 + EntryCalls(d[0], cf) else if Reported(d[0], cf) then 1 else 0) + Calls(d[1..], cf)
  }

  function EntryCalls(s: Slot, cf: Config): nat
    decreases s, 0
  {
    1 + if s.Dir? then 1 + Calls(s.slots, cf) else 0
  }

  /** Dot entries lead each subdirectory. */
  ghost predicate DotsLead(d: Slots)
    decreases d
  {
    forall i :: 0 <= i < |d| && d[i].Dir? ==>
      && |d[i].slots| >= 2
      && (forall j :: 2 <= j < |d[i].slots| ==> !d[i].slots[j].Dot?)
      && DotsLead(d[i].slots)
  }

  lemma {:induction false} WellFormedDots(d: Slots, from: nat)
    requires WellFormed(d, from)
    ensures DotsLead(d)
    decreases d
  {
    forall i | 0 <= i < |d| && d[i].Dir?
      ensures DotsLead(d[i].slots)
    {
      WellFormedDots(d[i].slots, 2);
    }
  }

  lemma DotsLeadRest(d: Slots)
    requires DotsLead(d) && d != []
    ensures DotsLead([d[0]]) && DotsLead(d[1..])
  {
    var rest := d[1..];
    assert forall i :: 0 <= i < |rest| ==> rest[i] == d[i + 1];
  }

  /** The cases of HoldsReadOnly and Calls. */
  lemma CallsHead(d: Slots, cf: Config)
    requires d != []
    ensures HoldsReadOnly(d) == ((d[0].Live() && Protected(d[0])) || HoldsReadOnly(d[1..]))
    ensures !Reported(d[0], cf) ==> Calls(d, cf) == Calls(d[1..], cf)
    ensures Reported(d[0], cf) && !d[0].Live() ==> Calls(d, cf) == 1 + Calls(d[1..], cf)
    ensures d[0].Live() ==> Calls(d, cf) == 1 + EntryCalls(d[0], cf) + Calls(d[1..], cf)
  {
  }

  /** Emptying an entry succeeds exactly when it holds nothing read-only and no fault strikes. */
  lemma {:induction false} ErasedOkIff(s: Slot, left: int, cf: Config)
    requires s.Live() && DotsLead([s])
    ensures var (t, end, res) := Erased(s, left, cf);
      && (res == Ok <==> !Protected(s) && (left < 0 || left >= EntryCalls(s, cf)))
      && (res == Ok ==> t == Free && end == left - EntryCalls(s, cf))
      && (left < 0 && res != Ok ==> res == Denied)
    decreases s, 1
  {
    assert [s][0] == s;
    if s.Dir? && left != 0 {
      PurgeOkIff(s.slots, left - 1, cf);
      var sub := Empty(s.slots, left, cf);
      if sub.res == Ok {
        PurgeOk(s.slots, left - 1, cf);
        assert Next(sub.slots, 2, cf) == |sub.slots|;
      }
    }
  }

  lemma {:induction false} PurgeOkIff(d: Slots, left: int, cf: Config)
    requires DotsLead(d)
    ensures var r := Purge(d, left, cf);
      && (r.res == Ok <==> !HoldsReadOnly(d) && (left < 0 || left >= Calls(d, cf)))
      && (r.res == Ok ==> r.left == left - Calls(d, cf))
      && (left < 0 && r.res != Ok ==> r.res == Denied)
    decreases d, 0
  {
    hide DotsLead;
    if d != [] {
      hide Purge, Erased, Calls, EntryCalls, HoldsReadOnly, Protected;
      var rest := d[1..];
      CallsHead(d, cf);
      DotsLeadRest(d);
      PurgeHead(d, left, cf);
      if !Reported(d[0], cf) {
        PurgeOkIff(rest, left, cf);
      } else if left != 0 {
        if d[0].Dot? {
          PurgeOkIff(rest, left - 1, cf);
        } else {
          ErasedOkIff(d[0], left - 1, cf);
          var (t, end, res) := Erased(d[0], left - 1, cf);
          PurgeOkIff(rest, end, cf);
        }
      }
    }
  }

  /** Paths that lead to no directory: an absent entry, a file, a name of dots and an empty name. */
  lemma AbsentEntry(cf: Config)
    ensures Run([], "/A", -1, cf) == Result([], -2, NoPath)
  {
    assert "/A"[1..] == "A";
    assert Strip("A") == "A" && Segment("A") == 1 && "A"[..1] == "A" && !OnlyDots("A");
  }

  lemma FileAsDirectory(cf: Config)
    ensures Run([File("A", false)], "A", -1, cf) == Result([File("A", false)], -2, NoPath)
  {
    assert Strip("A") == "A" && Segment("A") == 1 && "A"[..1] == "A" && !OnlyDots("A");
  }

  lemma DotName(cf: Config)
    ensures Run([], "..", -1, cf) == Result([], -2, InvalidName)
  {
    assert Strip("..") == ".." && Segment("..") == 2 && ".."[..2] == "..";
  }

  lemma EmptyName(cf: Config)
    ensures Run([], "//", -1, cf) == Result([], -2, InvalidName)
  {
    assert "//"[1..] == "/" && "/"[1..] == "";
    assert Strip("/") == "" && Segment("") == 0;
  }

  // --- What remains after a refusal -------------------------------------------

  /** d after a run without faults: everything before the first protected entry is cleared, what
      follows it is untouched, and a protected directory is left over in the same way inside. */
  function LeftOver(d: Slots): (e: Slots)
    ensures |e| == |d|
    decreases d
  {
    if d == [] then []
    else if Protected(d[0]) then [Stub(d[0])] + d[1..]
    else Cleared([d[0]]) + LeftOver(d[1..])
  }

  function Stub(s: Slot): Slot
    decreases s, 0
  {
    if s.Dir? then s.(slots := LeftOver(s.slots)) else s
  }

  lemma {:induction false} LeftOverCleared(d: Slots)
    ensures !HoldsReadOnly(d) ==> LeftOver(d) == Cleared(d)
  {
    if d != [] && !HoldsReadOnly(d) {
      LeftOverCleared(d[1..]);
      assert Cleared(d) == Cleared([d[0]]) + Cleared(d[1..]);
    }
  }

  lemma {:induction false} PurgeLeavesOver(d: Slots, left: int, cf: Config)
    requires left < 0 && DotsLead(d)
    ensures Purge(d, left, cf).slots == LeftOver(d) && Purge(d, left, cf).left < 0
    decreases d, 0
  {
    if d != [] {
      var rest := d[1..];
      DotsLeadRest(d);
      if !d[0].Live() {
        assert Cleared([d[0]]) == [d[0]];
        PurgeLeavesOver(rest, if Reported(d[0], cf) then left - 1 else left, cf);
      } else {
        ErasedLeavesOver(d[0], left - 1, cf);
        var (t, end, res) := Erased(d[0], left - 1, cf);
        assert Cleared([d[0]]) == [Free];
        PurgeLeavesOver(rest, end, cf);
      }
    }
  }

  lemma {:induction false} ErasedLeavesOver(s: Slot, left: int, cf: Config)
    requires left < 0 && s.Live() && DotsLead([s])
    ensures var (t, end, res) := Erased(s, left, cf);
            end < 0 && res == (if Protected(s) then Denied else Ok) && t == if Protected(s) then Stub(s) else Free
    decreases s, 1
  {
    assert [s][0] == s;
    ErasedOkIff(s, left, cf);
    if s.Dir? {
      PurgeLeavesOver(s.slots, left - 1, cf);
    }
  }

  /** A run without faults on a directory: its exact result. It succeeds exactly when nothing below
      is read-only, and then every file and directory below is gone; no other refusal occurs, and
      whether f_readdir reports dot entries makes no difference. */
  lemma RunWithoutFaults(root: Slots, path: string, loc: seq<nat>, left: int, cf: Config)
    requires Opened(root, path) == At(loc) && Sound(root, path) && left < 0
    ensures var d, r := Contents(root, loc), Run(root, path, left, cf);
      && r.res == (if HoldsReadOnly(d) then Denied else Ok)
      && r.slots == Replace(root, loc, LeftOver(d))
      && (r.res == Ok <==> LeftOver(d) == Cleared(d))
  {
    var d := Contents(root, loc);
    WellFormedDots(d, if loc == [] then 0 else 2);
    PurgeOkIff(d, left - 1, cf);
    PurgeLeavesOver(d, left - 1, cf);
    LeftOverCleared(d);
    LeftOverShows(d);
  }

  lemma {:induction false} LeftOverShows(d: Slots)
    ensures HoldsReadOnly(d) ==> LeftOver(d) != Cleared(d)
  {
    if HoldsReadOnly(d) {
      if Protected(d[0]) {
        assert LeftOver(d)[0] == Stub(d[0]);
      } else {
        LeftOverShows(d[1..]);
        assert LeftOver(d)[1..] == LeftOver(d[1..]) && Cleared(d)[1..] == Cleared(d[1..]);
      }
    }
  }

  /** With a fault at any call, success still means that everything is gone, and the run succeeds
      exactly when it makes fewer calls than the faulty one. */
  lemma RunWithFaults(root: Slots, path: string, loc: seq<nat>, left: nat, cf: Config)
    requires Opened(root, path) == At(loc) && Sound(root, path)
    ensures var d, r := Contents(root, loc), Run(root, path, left, cf);
      && (r.res == Ok <==> !HoldsReadOnly(d) && left > Calls(d, cf))
      && (r.res == Ok ==> r.slots == Replace(root, loc, Cleared(d)))
  {
    var d := Contents(root, loc);
    WellFormedDots(d, if loc == [] then 0 else 2);
    if left > 0 {
      PurgeOkIff(d, left - 1, cf);
      if Purge(d, left - 1, cf).res == Ok {
        PurgeOk(d, left - 1, cf);
      }
    }
  }

  // --- What survives every fault ----------------------------------------------

  /** e is d with entries removed at some depths, none of them protected; nothing is added,
      renamed or moved. */
  predicate Pruned(d: Slots, e: Slots)
    decreases d
  {
    if d == [] then e == []
    else e != [] && Shrunk(d[0], e[0]) && Pruned(d[1..], e[1..])
  }

  predicate Shrunk(s: Slot, t: Slot)
    decreases s, 0
  {
    || t == s
    || (s.Live() && t.Free? && !Protected(s))
    || (s.Dir? && t.Dir? && t == s.(slots := t.slots) && Pruned(s.slots, t.slots))
  }

  lemma {:induction false} PrunedSame(d: Slots)
    ensures Pruned(d, d)
  {
    if d != [] {
      PrunedSame(d[1..]);
    }
  }

  lemma {:induction false} PurgePrunes(d: Slots, left: int, cf: Config)
    requires DotsLead(d)
    ensures Pruned(d, Purge(d, left, cf).slots)
    decreases d, 0
  {
    if d != [] {
      var rest, e := d[1..], Purge(d, left, cf).slots;
      DotsLeadRest(d);
      PrunedSame(d);
      if !d[0].Live() {
        var next := if Reported(d[0], cf) then left - 1 else left;
        PurgePrunes(rest, next, cf);
        assert e == d || e == [d[0]] + Purge(rest, next, cf).slots;
      } else if left != 0 {
        ErasedPrunes(d[0], left - 1, cf);
        var (t, end, res) := Erased(d[0], left - 1, cf);
        PurgePrunes(rest, end, cf);
        assert e[0] == t && e[1..] == if res == Ok then Purge(rest, end, cf).slots else rest;
      }
    }
  }

  lemma {:induction false} ErasedPrunes(s: Slot, left: int, cf: Config)
    requires s.Live() && DotsLead([s])
    ensures Shrunk(s, Erased(s, left, cf).0)
    decreases s, 1
  {
    assert [s][0] == s;
    if s.Dir? && left != 0 {
      PurgePrunes(s.slots, left - 1, cf);
      PurgeOkIff(s.slots, left - 1, cf);
    } else if s.Dir? {
      PrunedSame(s.slots);
    }
  }

  /** Whatever faults strike, read-only entries and the directories above them survive, and
      nothing is added, renamed or moved. */
  lemma RunPrunes(root: Slots, path: string, loc: seq<nat>, left: int, cf: Config)
    requires Opened(root, path) == At(loc) && Sound(root, path)
    ensures exists e :: Run(root, path, left, cf).slots == Replace(root, loc, e) && Pruned(Contents(root, loc), e)
  {
    var d := Contents(root, loc);
    WellFormedDots(d, if loc == [] then 0 else 2);
    PrunedSame(d);
    PurgePrunes(d, left - 1, cf);
    assert Pruned(d, Empty(d, left, cf).slots);
  }

  // --- What a fault at a given call leaves --------------------------------------

  /** No entry that the run would have to remove up to the one at q is protected. */
  predicate NothingProtected(d: Slots, q: seq<nat>)
    requires Entry(d, q)
    decreases |q|
  {
    && !HoldsReadOnly(d[..q[0]])
    && if |q| == 1 then !Protected(d[q[0]]) else NothingProtected(d[q[0]].slots, q[1..])
  }

  /** The number of calls on the opened directory d up to the f_unlink of the entry at q, that one included. */
  function CallsUpTo(d: Slots, q: seq<nat>, cf: Config): nat
    requires Entry(d, q)
    decreases |q|
  {
    Calls(d[..q[0]], cf) + if |q| == 1 then EntryCalls(d[q[0]], cf) else 1 + CallsUpTo(d[q[0]].slots, q[1..], cf)
  }

  /** The f_unlink that is call number n frees its slot. */
  predicate Frees(n: nat, left: int, cf: Config) {
    left < 0 || n <= left || (cf.late && n == left + 1)
  }

  predicate Gone(d: Slots, q: seq<nat>, left: int, cf: Config)
    requires Entry(d, q)
  {
    NothingProtected(d, q) && Frees(CallsUpTo(d, q, cf), left, cf)
  }

  /** The path of the same entry in d[1..]. */
  function Back(q: seq<nat>): seq<nat>
    requires q != [] && q[0] > 0
  {
    [q[0] - 1] + q[1..]
  }

  lemma GoneInFirst(d: Slots, q: seq<nat>, cf: Config)
    requires Entry(d, q) && q[0] == 0
    ensures Entry([d[0]], q)
    ensures NothingProtected([d[0]], q) == NothingProtected(d, q)
    ensures CallsUpTo([d[0]], q, cf) == CallsUpTo(d, q, cf) >= 2
  {
    assert d[..0] == [d[0]][..0] == [];
  }

  lemma SomeCallsIn(d: Slots, s: Slot, cf: Config)
    ensures Calls(d, cf) >= 1 && EntryCalls(s, cf) >= 1
  {
    CallsAtLeastOne(d, cf);
  }

  lemma {:induction false} CallsAtLeastOne(d: Slots, cf: Config)
    ensures Calls(d, cf) >= 1
  {
    if d != [] {
      CallsAtLeastOne(d[1..], cf);
    }
  }

  lemma GoneInRest(d: Slots, q: seq<nat>, cf: Config)
    requires Entry(d, q) && q[0] > 0
    ensures Entry(d[1..], Back(q))
    ensures NothingProtected(d, q) <==> !(d[0].Live() && Protected(d[0])) && NothingProtected(d[1..], Back(q))
    ensures CallsUpTo(d, q, cf)
         == CallsUpTo(d[1..], Back(q), cf)
            + if d[0].Live() then 1 + EntryCalls(d[0], cf) else if Reported(d[0], cf) then 1 else 0
    ensures CallsUpTo(d[1..], Back(q), cf) >= 2
  {
    hide Calls, EntryCalls, HoldsReadOnly, Protected;
    SomeCallsIn(d[1..][..q[0] - 1], d[q[0]], cf);
    var front := d[..q[0]];
    assert front[1..] == d[1..][..q[0] - 1] && front[0] == d[0];
    assert Back(q)[1..] == q[1..];
    CallsHead(front, cf);
  }

  lemma SomeCalls(d: Slots, q: seq<nat>, cf: Config)
    requires Entry(d, q)
    ensures CallsUpTo(d, q, cf) >= 2
  {
    if q[0] == 0 {
      GoneInFirst(d, q, cf);
    } else {
      GoneInRest(d, q, cf);
    }
  }

  lemma EntryBack(e: Slots, q: seq<nat>)
    requires q != [] && q[0] > 0 && e != []
    ensures Entry(e, q) <==> Entry(e[1..], Back(q))
  {
    assert Back(q)[1..] == q[1..];
  }

  /** An entry is gone exactly when its f_unlink came before the fault, or was the late faulty call itself,
      and no protected entry was in the way. */
  lemma {:induction false} PurgeGone(d: Slots, left: int, cf: Config, q: seq<nat>)
    requires DotsLead(d) && Entry(d, q)
    ensures Entry(Purge(d, left, cf).slots, q) <==> !Gone(d, q, left, cf)
    decreases d, 0
  {
    hide Purge, Erased, Calls, EntryCalls, HoldsReadOnly, Protected, DotsLead, NothingProtected, CallsUpTo;
    var rest, e := d[1..], Purge(d, left, cf).slots;
    PurgeHead(d, left, cf);
    DotsLeadRest(d);
    if q[0] == 0 {
      GoneInFirst(d, q, cf);
      if left != 0 {
        ErasedGone(d[0], left - 1, cf, q);
        assert e[0] == Erased(d[0], left - 1, cf).0;
      }
    } else {
      GoneInRest(d, q, cf);
      EntryBack(e, q);
      if !Reported(d[0], cf) {
        PurgeGone(rest, left, cf, Back(q));
        assert e[1..] == Purge(rest, left, cf).slots;
      } else if left != 0 {
        if d[0].Dot? {
          PurgeGone(rest, left - 1, cf, Back(q));
          assert e[1..] == Purge(rest, left - 1, cf).slots;
        } else {
          var (t, end, res) := Erased(d[0], left - 1, cf);
          ErasedOkIff(d[0], left - 1, cf);
          PurgeGone(rest, end, cf, Back(q));
          assert e[1..] == if res == Ok then Purge(rest, end, cf).slots else rest;
        }
      }
    }
  }

  /** The terms of Gone for an entry that is alone in its directory. */
  lemma GoneAlone(s: Slot, q: seq<nat>, cf: Config)
    requires s.Live() && Entry([s], q)
    ensures q[0] == 0 && (|q| > 1 ==> s.Dir? && Entry(s.slots, q[1..]))
    ensures NothingProtected([s], q) == if |q| == 1 then !Protected(s) else NothingProtected(s.slots, q[1..])
    ensures CallsUpTo([s], q, cf)
         == 1 + if |q| == 1 then EntryCalls(s, cf) else 1 + CallsUpTo(s.slots, q[1..], cf)
  {
    assert [s][0] == s && [s][..0] == [];
    NothingBefore(cf);
  }

  lemma ErasedFile(s: Slot, left: int, cf: Config)
    requires s.File?
    ensures Erased(s, left, cf).0 == if s.readOnly || (left == 0 && !cf.late) then s else Free
    ensures Protected(s) == s.readOnly && EntryCalls(s, cf) == 1
  {
  }

  lemma ErasedDir(s: Slot, left: int, cf: Config)
    requires s.Dir? && DotsLead([s])
    ensures Protected(s) <==> s.readOnly || HoldsReadOnly(s.slots)
    ensures EntryCalls(s, cf) == 2 + Calls(s.slots, cf)
    ensures var r := Purge(s.slots, left - 1, cf);
      Erased(s, left, cf).0
      == if left == 0 then s
         else if r.res != Ok || s.readOnly || (r.left == 0 && !cf.late) then s.(slots := r.slots)
         else Free
  {
    hide Purge, DotsLead;
    SlotsDotsLead(s);
    if left != 0 && Purge(s.slots, left - 1, cf).res == Ok {
      PurgeOk(s.slots, left - 1, cf);
    }
  }

  lemma {:induction false} ErasedGone(s: Slot, left: int, cf: Config, q: seq<nat>)
    requires s.Live() && DotsLead([s]) && Entry([s], q) && left != -1
    ensures Entry([Erased(s, left, cf).0], q) <==> !Gone([s], q, left + 1, cf)
    decreases s, 1
  {
    hide Purge, Erased, Calls, EntryCalls, HoldsReadOnly, Protected, DotsLead, NothingProtected, CallsUpTo;
    GoneAlone(s, q, cf);
    if s.File? {
      ErasedFile(s, left, cf);
    } else {
      ErasedDir(s, left, cf);
      SlotsDotsLead(s);
      if |q| > 1 {
        SomeCalls(s.slots, q[1..], cf);
      }
      if left != 0 {
        PurgeOkIff(s.slots, left - 1, cf);
        if |q| > 1 {
          PurgeGone(s.slots, left - 1, cf, q[1..]);
          NothingCleared(s.slots, left - 1, cf, q[1..]);
        }
      }
    }
  }

  /** Nothing is left of the entries after a purge that ran to its end. */
  lemma NothingCleared(d: Slots, left: int, cf: Config, q: seq<nat>)
    ensures Purge(d, left, cf).res == Ok ==> !Entry(Purge(d, left, cf).slots, q)
  {
    if Purge(d, left, cf).res == Ok {
      hide Purge;
      PurgeOk(d, left, cf);
    }
  }

  lemma NothingBefore(cf: Config)
    ensures Calls([], cf) == 1 && !HoldsReadOnly([])
  {
  }

  lemma SlotsDotsLead(s: Slot)
    requires DotsLead([s]) && s.Dir?
    ensures DotsLead(s.slots) && |s.slots| >= 2 && forall j :: 2 <= j < |s.slots| ==> !s.slots[j].Dot?
  {
    assert [s][0] == s;
  }

  /** e is what a run leaves of directory d: nothing is added, renamed or moved, and the entries gone are
      those that the run came to remove before a fault or a refusal. Opening d is the first call. */
  ghost predicate Remains(d: Slots, e: Slots, left: int, cf: Config) {
    && Pruned(d, e)
    && forall q :: Entry(d, q) ==>
         (Entry(e, q) <==> !(NothingProtected(d, q) && Frees(1 + CallsUpTo(d, q, cf), left, cf)))
  }

  /** d and e have the same entries of g. */
  ghost predicate SameEntries(g: Slots, d: Slots, e: Slots) {
    forall q :: Entry(g, q) ==> (Entry(d, q) <==> Entry(e, q))
  }

  lemma SameEntriesRest(g: Slots, d: Slots, e: Slots)
    requires g != [] && d != [] && e != [] && SameEntries(g, d, e)
    ensures SameEntries(g[1..], d[1..], e[1..])
  {
    forall q | Entry(g[1..], q)
      ensures Entry(d[1..], q) <==> Entry(e[1..], q)
    {
      var p := [q[0] + 1] + q[1..];
      assert p[1..] == q[1..] && Back(p) == q;
      EntryBack(g, p);
      EntryBack(d, p);
      EntryBack(e, p);
    }
  }

  lemma SameEntriesBelow(g: Slots, d: Slots, e: Slots)
    requires g != [] && d != [] && e != [] && SameEntries(g, d, e) && g[0].Dir? && d[0].Dir? && e[0].Dir?
    ensures SameEntries(g[0].slots, d[0].slots, e[0].slots)
  {
    forall q | Entry(g[0].slots, q)
      ensures Entry(d[0].slots, q) <==> Entry(e[0].slots, q)
    {
      var p := [0] + q;
      assert p[1..] == q && |p| > 1;
      assert Entry(g, p);
    }
  }

  /** Which entries are left determines a pruned directory. */
  lemma {:induction false} PrunedUnique(g: Slots, d: Slots, e: Slots)
    requires Pruned(g, d) && Pruned(g, e) && SameEntries(g, d, e)
    ensures d == e
    decreases g
  {
    hide SameEntries;
    if g != [] {
      SameEntriesRest(g, d, e);
      PrunedUnique(g[1..], d[1..], e[1..]);
      if g[0].Live() {
        FirstEntry(g, d, e);
      }
      if g[0].Dir? && d[0].Dir? && e[0].Dir? {
        SameEntriesBelow(g, d, e);
        PrunedSame(g[0].slots);
        PrunedUnique(g[0].slots, d[0].slots, e[0].slots);
      }
      assert d == [d[0]] + d[1..] && e == [e[0]] + e[1..];
    }
  }

  lemma FirstEntry(g: Slots, d: Slots, e: Slots)
    requires g != [] && d != [] && e != [] && SameEntries(g, d, e) && g[0].Live()
    ensures d[0].Live() <==> e[0].Live()
  {
    assert Entry(g, [0]);
  }

  lemma RemainsUnique(g: Slots, d: Slots, e: Slots, left: int, cf: Config)
    requires Remains(g, d, left, cf) && Remains(g, e, left, cf)
    ensures d == e
  {
    PrunedUnique(g, d, e);
  }

  /** The exact tree after any run: what remains, at every depth, once the faulty call has struck. */
  lemma RunLeaves(root: Slots, path: string, loc: seq<nat>, left: int, cf: Config)
    requires Opened(root, path) == At(loc) && Sound(root, path)
    ensures exists e :: Run(root, path, left, cf).slots == Replace(root, loc, e)
                        && Remains(Contents(root, loc), e, left, cf)
  {
    hide Purge, Pruned, NothingProtected, CallsUpTo, DotsLead, WellFormed, Opened, Replace;
    var d := Contents(root, loc);
    var e := Empty(d, left, cf).slots;
    WellFormedDots(d, if loc == [] then 0 else 2);
    PrunedSame(d);
    PurgePrunes(d, left - 1, cf);
    forall q | Entry(d, q)
      ensures Entry(e, q) <==> !(NothingProtected(d, q) && Frees(1 + CallsUpTo(d, q, cf), left, cf))
    {
      if left == 0 {
        SomeCalls(d, q, cf);
      } else {
        PurgeGone(d, left - 1, cf, q);
      }
    }
    assert Remains(d, e, left, cf);
  }

  /** Of two paths with the same first slot, one continues the other exactly when its rest does. */
  lemma PrefixTail(a: seq<nat>, b: seq<nat>)
    requires 0 < |a| <= |b| && a[0] == b[0]
    ensures b[..|a|] == a <==> b[1..][..|a| - 1] == a[1..]
  {
    assert b[..|a|] == [b[0]] + b[1..][..|a| - 1] && a == [a[0]] + a[1..];
  }

  /** An entry outside the directory is not touched; of the directories on the way to it only the
      contents change. */
  lemma {:induction false} ElsewhereSame(root: Slots, loc: seq<nat>, e: Slots, q: seq<nat>)
    requires Reaches(root, loc) && Entry(root, q) && !(|loc| < |q| && q[..|loc|] == loc)
    ensures var r := Replace(root, loc, e);
      && Entry(r, q)
      && (if |q| <= |loc| && loc[..|q|] == q
          then EntryAt(r, q).Dir? && EntryAt(r, q) == EntryAt(root, q).(slots := EntryAt(r, q).slots)
          else EntryAt(r, q) == EntryAt(root, q))
  {
    if |loc| > 0 && q[0] == loc[0] && |q| > 1 {
      var l, p := loc[1..], q[1..];
      if |loc| < |q| {
        PrefixTail(loc, q);
      } else {
        PrefixTail(q, loc);
      }
      ElsewhereSame(root[loc[0]].slots, l, e, p);
    }
  }
}
