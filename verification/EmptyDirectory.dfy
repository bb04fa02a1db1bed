/** Removing all contents of a directory (FATFS/doc/img/app2.c) with f_opendir, f_readdir and
    f_unlink. */
module EmptyDirectory {
  import opened DirTree
  import opened PathNames

  /** dots: f_readdir reports dot entries (_FS_RPATH). late: a disk fault during f_unlink strikes
      after the slot has been marked as deleted, not before. */
  datatype Config = Config(dots: bool, late: bool)

  // --- What the directory functions do ----------------------------------------

  predicate Reported(s: Slot, cf: Config) {
    s.Live() || (cf.dots && s.Dot?)
  }

  /** dir_read: the first reported slot from index i on, |d| at the end. */
  function Next(d: Slots, i: nat, cf: Config): (k: nat)
    requires i <= |d|
    ensures i <= k <= |d|
    ensures k < |d| ==> Reported(d[k], cf)
    ensures forall j :: i <= j < k ==> !Reported(d[j], cf)
    decreases |d| - i
  {
    if i == |d| || Reported(d[i], cf) then i else Next(d, i + 1, cf)
  }

  /** f_opendir, apart from disk faults: an absent entry and a file are reported alike. */
  function Opened(root: Slots, path: string): (f: Found)
    ensures f.At? ==> LeadsTo(root, path, f.loc)
  {
    match Resolve(root, path)
    case Failed(res) => Failed(if res == NoFile then NoPath else res)
    case At(loc) =>
      if loc == [] then At([]) else
      ResolveFindsEntry(root, path);
      if EntryAt(root, loc).File? then Failed(NoPath) else
      EntryReaches(root, loc);
      At(loc)
  }

  lemma ResolveFindsEntry(root: Slots, path: string)
    ensures Resolve(root, path).At? && Resolve(root, path).loc != [] ==> Entry(root, Resolve(root, path).loc)
  {
    WalkFindsEntry(root, path);
    if path != "" {
      WalkFindsEntry(root, path[1..]);
    }
  }

  lemma OpenedLeads(root: Slots, path: string, loc: seq<nat>)
    ensures LeadsTo(root, path, loc) <==> Opened(root, path) == At(loc)
  {
    if LeadsTo(root, path, loc) && loc != [] {
      ReachesEntry(root, loc);
    }
  }

  /** A path opens exactly when its names lead through directories. Otherwise the result is
      FR_INVALID_NAME if a directory on the way is asked for a bad name, and FR_NO_PATH for everything else:
      an absent directory, an absent entry at the end, and files. */
  lemma OpenedExactly(root: Slots, path: string)
    ensures forall loc :: Opened(root, path) == At(loc) <==> Leads(root, Names(path), loc)
    ensures !Opens(root, Names(path)) ==>
      Opened(root, path) == Failed(if MeetsBadName(root, Names(path)) then InvalidName else NoPath)
  {
    hide Resolve, Names, Places, MeetsBadName, Leads;
    var names := Names(path);
    ResolveExactly(root, path);
    ResolveFindsEntry(root, path);
    forall loc
      ensures Opened(root, path) == At(loc) <==> Leads(root, names, loc)
    {
      if names == [] {
        LeadsNowhere(root, loc);
      } else {
        LeadsToPlace(root, names, loc);
        PlacesSomething(root, names);
      }
    }
    if !Opens(root, names) {
      assert !Opened(root, path).At?;
    }
  }

  /** The checks of f_unlink on the entry it has found, and its removal; the emptiness check of a
      directory leaves out the two leading slots. */
  function Unlinked(s: Slot, left: int, cf: Config): (Slot, FResult)
    requires s.Live()
  {
    if left == 0 && !cf.late then (s, DiskErr)
    else if s.readOnly then (s, Denied)
    else if s.Dir? && |s.slots| >= 2 && Next(s.slots, 2, cf) < |s.slots| then (s, Denied)
    else (Free, if left == 0 then DiskErr else Ok)
  }

  /** f_unlink */
  function Unlink(root: Slots, path: string, left: int, cf: Config): (Slots, FResult) {
    if left == 0 && !cf.late then (root, DiskErr) else
    match Resolve(root, path)
    case Failed(res) => (root, res)
    case At(loc) =>
      if loc == [] then (root, InvalidName) else
      ResolveFindsEntry(root, path);
      var (s, res) := Unlinked(EntryAt(root, loc), left, cf);
      (PutEntry(root, loc, s), res)
  }

  /** f_unlink refuses read-only entries, and directories that hold something behind their two leading slots. */
  ghost predicate Refused(s: Slot, cf: Config)
    requires s.Live()
  {
    s.readOnly || (s.Dir? && exists i :: 2 <= i < |s.slots| && Reported(s.slots[i], cf))
  }

  lemma UnlinkedCases(s: Slot, left: int, cf: Config)
    requires s.Live() && (left != 0 || cf.late)
    ensures Unlinked(s, left, cf) == if Refused(s, cf) then (s, Denied) else (Free, if left == 0 then DiskErr else Ok)
  {
  }

  lemma {:induction false} PutSame(d: Slots, loc: seq<nat>)
    requires Entry(d, loc)
    ensures PutEntry(d, loc, EntryAt(d, loc)) == d
  {
    if |loc| > 1 {
      PutSame(d[loc[0]].slots, loc[1..]);
    }
  }

  /** The cases of f_unlink that reach the entry. */
  lemma UnlinkCases(root: Slots, path: string, left: int, cf: Config)
    requires (left != 0 || cf.late) && Resolve(root, path).At? && Resolve(root, path).loc != []
    ensures var loc := Resolve(root, path).loc;
      && Entry(root, loc)
      && Unlink(root, path, left, cf)
         == if Refused(EntryAt(root, loc), cf) then (root, Denied)
            else (PutEntry(root, loc, Free), if left == 0 then DiskErr else Ok)
  {
    hide Resolve, Refused, Unlinked;
    ResolveFindsEntry(root, path);
    var loc := Resolve(root, path).loc;
    UnlinkedCases(EntryAt(root, loc), left, cf);
    PutSame(root, loc);
  }

  /** The name that f_readdir reports. */
  function Label(s: Slot): string
    requires !s.Free? && !s.Hidden?
  {
    if s.Live() then s.name else if s.parent then ".." else "."
  }

  // --- What emptying a directory does -----------------------------------------

  datatype Result = Result(slots: Slots, left: int, res: FResult)

  function Prepend(done: Slots, r: Result): Result {
    r.(slots := done + r.slots)
  }

  /** The whole emptying of directory d: slot after slot, each subdirectory before its entry. The
      fault counter: `left` calls succeed before one fails, none ever fails when it is negative. */
  function Empty(d: Slots, left: int, cf: Config): (r: Result)
    ensures |r.slots| == |d|
    decreases d, 1
  {
    if left == 0 then Result(d, left - 1, DiskErr) else Purge(d, left - 1, cf)
  }

  function Purge(d: Slots, left: int, cf: Config): (r: Result)
    ensures |r.slots| == |d|
    decreases d, 0
  {
    if d == [] then Result(d, left - 1, if left == 0 then DiskErr else Ok)
    else if !Reported(d[0], cf) then Prepend([d[0]], Purge(d[1..], left, cf))
    else if left == 0 then Result(d, left - 1, DiskErr)
    else if d[0].Dot? then Prepend([d[0]], Purge(d[1..], left - 1, cf))
    else
      var (t, end, res) := Erased(d[0], left - 1, cf);
      if res != Ok then Result([t] + d[1..], end, res)
      else Prepend([t], Purge(d[1..], end, cf))
  }

  /** What becomes of one entry: emptied if it is a directory, then removed. */
  function Erased(s: Slot, left: int, cf: Config): (Slot, int, FResult)
    requires s.Live()
    decreases s, 0
  {
    var sub := if s.Dir? then Empty(s.slots, left, cf) else Result([], left, Ok);
    var e := if s.Dir? then s.(slots := sub.slots) else s;
    if sub.res != Ok then (e, sub.left, sub.res) else
    var (t, res) := Unlinked(e, sub.left, cf);
    (t, sub.left - 1, res)
  }

  /** d without its files and directories. */
  function Cleared(d: Slots): (e: Slots)
    ensures |e| == |d|
  {
    seq(|d|, i requires 0 <= i < |d| => if d[i].Live() then Free else d[i])
  }

  /** d with the first k slots cleared. */
  function ClearedTo(d: Slots, k: nat): (e: Slots)
    requires k <= |d|
    ensures |e| == |d|
  {
    Cleared(d[..k]) + d[k..]
  }

  /** The number of directory levels below d that hold entries. */
  function Height(d: Slots): nat
    decreases d
  {
    if d == [] then 0 else
    var first := if d[0].Dir? then 1 + Height(d[0].slots) else if d[0].File? then 1 else 0;
    var rest := Height(d[1..]);
    if first > rest then first else rest
  }

  lemma {:induction false} HeightOfEntry(d: Slots, k: nat)
    requires k < |d| && d[k].Live()
    ensures Height(d) >= 1 && (d[k].Dir? ==> Height(d) >= 1 + Height(d[k].slots))
  {
    if k > 0 {
      HeightOfEntry(d[1..], k - 1);
    }
  }

  /** The cases of Purge. */
  lemma PurgeHead(d: Slots, left: int, cf: Config)
    requires d != []
    ensures !Reported(d[0], cf) ==> Purge(d, left, cf) == Prepend([d[0]], Purge(d[1..], left, cf))
    ensures Reported(d[0], cf) && left == 0 ==> Purge(d, left, cf) == Result(d, left - 1, DiskErr)
    ensures cf.dots && d[0].Dot? && left != 0 ==>
      Purge(d, left, cf) == Prepend([d[0]], Purge(d[1..], left - 1, cf))
    ensures d[0].Live() && left != 0 ==>
      var (t, end, res) := Erased(d[0], left - 1, cf);
      Purge(d, left, cf)
      == if res != Ok then Result([t] + d[1..], end, res) else Prepend([t], Purge(d[1..], end, cf))
  {
  }

  lemma ErasedOkFrees(s: Slot, left: int, cf: Config)
    requires s.Live() && Erased(s, left, cf).2 == Ok
    ensures Erased(s, left, cf).0 == Free
  {
  }

  /** Unreported slots are passed over. */
  lemma {:induction false} PurgeSkips(d: Slots, m: nat, left: int, cf: Config)
    requires m <= |d| && forall j :: 0 <= j < m ==> !Reported(d[j], cf)
    ensures Purge(d, left, cf) == Prepend(d[..m], Purge(d[m..], left, cf))
  {
    hide Purge;
    if m == 0 {
      assert d[m..] == d;
    } else {
      PurgeHead(d, left, cf);
      PurgeSkips(d[1..], m - 1, left, cf);
      assert d[1..][m - 1..] == d[m..];
      assert d[..m] == [d[0]] + d[1..][..m - 1];
    }
  }

  // --- The loop ---------------------------------------------------------------

  /** The files and directories before slot k are gone, `left` counts on, and what remains to be
      done is the purge of the rest. */
  ghost predicate Progress(d: Slots, start: int, cf: Config, k: nat, left: int) {
    k <= |d| && Purge(d, start, cf) == Prepend(Cleared(d[..k]), Purge(d[k..], left, cf))
  }

  lemma ProgressStart(d: Slots, left: int, cf: Config)
    ensures Progress(d, left, cf, 0, left) && ClearedTo(d, 0) == d
  {
    hide Purge;
    assert d[0..] == d;
    assert Prepend(Cleared(d[..0]), Purge(d, left, cf)).slots == Purge(d, left, cf).slots;
  }

  /** From slot k to the next reported slot m. */
  lemma ProgressSkip(d: Slots, start: int, cf: Config, k: nat, left: int, m: nat)
    requires Progress(d, start, cf, k, left) && k <= m <= |d|
    requires forall j :: k <= j < m ==> !Reported(d[j], cf)
    ensures Progress(d, start, cf, m, left) && ClearedTo(d, m) == ClearedTo(d, k)
  {
    hide Purge;
    PurgeSkips(d[k..], m - k, left, cf);
    assert d[k..][m - k..] == d[m..];
    assert Cleared(d[..k]) + d[k..][..m - k] == Cleared(d[..m]);
    assert Cleared(d[..k]) + (d[k..][..m - k] + Purge(d[m..], left, cf).slots)
        == Cleared(d[..m]) + Purge(d[m..], left, cf).slots;
  }

  /** One slot further when Purge keeps or clears it. */
  lemma ProgressStep(d: Slots, start: int, cf: Config, m: nat, left: int, next: int)
    requires Progress(d, start, cf, m, left) && m < |d|
    requires Purge(d[m..], left, cf) == Prepend(Cleared([d[m]]), Purge(d[m + 1..], next, cf))
    ensures Progress(d, start, cf, m + 1, next)
    ensures ClearedTo(d, m + 1) == if d[m].Live() then ClearedTo(d, m)[m := Free] else ClearedTo(d, m)
  {
    hide Purge;
    var rest := Purge(d[m + 1..], next, cf);
    assert Cleared(d[..m]) + Cleared([d[m]]) == Cleared(d[..m + 1]);
    assert Cleared(d[..m]) + (Cleared([d[m]]) + rest.slots) == Cleared(d[..m + 1]) + rest.slots;
  }

  /** The purge ends at slot m, leaving s there. */
  lemma ProgressEnd(d: Slots, start: int, cf: Config, m: nat, left: int, s: Slot, end: int, res: FResult)
    requires Progress(d, start, cf, m, left) && m < |d|
    requires Purge(d[m..], left, cf) == Result([s] + d[m + 1..], end, res)
    ensures Purge(d, start, cf) == Result(ClearedTo(d, m)[m := s], end, res)
  {
    hide Purge;
    assert Cleared(d[..m]) + ([s] + d[m + 1..]) == ClearedTo(d, m)[m := s];
  }

  lemma FindInCleared(d: Slots, m: nat)
    requires m < |d| && d[m].Live() && Distinct(d)
    ensures forall s: Slot :: s.Named(d[m].name) ==> Find(ClearedTo(d, m)[m := s], d[m].name) == m
  {
    forall s: Slot | s.Named(d[m].name)
      ensures Find(ClearedTo(d, m)[m := s], d[m].name) == m
    {
      var e := ClearedTo(d, m)[m := s];
      assert forall j :: m < j < |d| ==> e[j] == d[j];
      assert e[m] == s;
    }
  }

  // --- The code ---------------------------------------------------------------

  /** The string at the start of a buffer. */
  function Text(a: seq<char>): (s: string)
    ensures |s| <= |a| && s == a[..|s|]
    ensures |s| < |a| ==> a[|s|] == '\0'
    ensures forall i :: 0 <= i < |s| ==> s[i] != '\0'
  {
    if a == [] || a[0] == '\0' then "" else
    var t := Text(a[1..]);
    assert a[..1 + |t|] == [a[0]] + t;
    [a[0]] + t
  }

  lemma {:induction false} TextIs(a: seq<char>, s: string)
    requires |s| < |a| && a[..|s|] == s && a[|s|] == '\0'
    requires forall i :: 0 <= i < |s| ==> s[i] != '\0'
    ensures Text(a) == s
  {
    if |s| > 0 {
      assert a[0] == a[..|s|][0] && a[1..][..|s| - 1] == s[1..];
      TextIs(a[1..], s[1..]);
    }
  }

  /** DIR: the directory and the next slot to read. */
  datatype DirObject = DirObject(loc: seq<nat>, index: nat)

  /** FILINFO; fname ends with a NUL. */
  datatype FileInfo = FileInfo(fname: string, directory: bool)

  class Disk {
    var root: Slots
    var left: int
    const cf: Config

    constructor (root: Slots, left: int, cf: Config)
      ensures this.root == root && this.left == left && this.cf == cf
    {
      this.root, this.left, this.cf := root, left, cf;
    }

    method OpenDir(path: array<char>) returns (res: FResult, dir: DirObject)
      modifies `left
      ensures left == old(left) - 1
      ensures old(left) == 0 ==> res == DiskErr
      ensures old(left) != 0 ==>
        match Opened(root, Text(path[..]))
        case Failed(f) => res == f && res != Ok
        case At(loc) => res == Ok && dir == DirObject(loc, 0)
      ensures old(left) != 0 ==>
        var names := Names(Text(path[..]));
        if Opens(root, names) then res == Ok && Leads(root, names, dir.loc) && dir.index == 0
        else res == if MeetsBadName(root, names) then InvalidName else NoPath
    {
      hide Names, Leads, MeetsBadName;
      OpenedExactly(root, Text(path[..]));
      dir := DirObject([], 0);
      left := left - 1;
      if left == -1 {
        return DiskErr, dir;
      }
      OpenedFails(root, Text(path[..]));
      match Opened(root, Text(path[..])) {
        case Failed(f) => res := f;
        case At(loc) => res, dir := Ok, DirObject(loc, 0);
      }
    }

    method ReadDir(dir: DirObject) returns (res: FResult, next: DirObject, fno: FileInfo)
      requires Reaches(root, dir.loc) && dir.index <= |Contents(root, dir.loc)|
      modifies `left
      ensures left == old(left) - 1
      ensures res == if old(left) == 0 then DiskErr else Ok
      ensures res == Ok ==>
        var d := Contents(root, dir.loc);
        var k := Next(d, dir.index, cf);
        if k == |d| then next == DirObject(dir.loc, k) && fno == FileInfo("\0", false)
        else
          && next == DirObject(dir.loc, k + 1) && fno == FileInfo(Label(d[k]) + "\0", !d[k].File?)
          && Label(d[k]) == match d[k] {
                              case Dot(parent) => if parent then ".." else "."
                              case File(name, _) => name
                              case Dir(name, _, _) => name
                            }
    {
      next, fno := dir, FileInfo("\0", false);
      left := left - 1;
      if left == -1 {
        return DiskErr, next, fno;
      }
      var d := Contents(root, dir.loc);
      var k := Next(d, dir.index, cf);
      res := Ok;
      if k == |d| {
        next := DirObject(dir.loc, k);
      } else {
        next, fno := DirObject(dir.loc, k + 1), FileInfo(Label(d[k]) + "\0", !d[k].File?);
      }
    }

    /** f_unlink: an early fault, a failed lookup and a refusal leave the tree as it was; otherwise the slot of
        the entry is freed, by a late fault as well. */
    method Remove(path: array<char>) returns (res: FResult)
      modifies this
      ensures left == old(left) - 1
      ensures (root, res) == Unlink(old(root), Text(path[..]), old(left), cf)
      ensures old(left) == 0 && !cf.late ==> root == old(root) && res == DiskErr
      ensures old(left) != 0 || cf.late ==>
        match Resolve(old(root), Text(path[..]))
        case Failed(f) => root == old(root) && res == f
        case At(loc) =>
          if loc == [] then root == old(root) && res == InvalidName
          else (
            && Entry(old(root), loc)
            && if Refused(EntryAt(old(root), loc), cf) then root == old(root) && res == Denied
               else root == PutEntry(old(root), loc, Free) && res == if old(left) == 0 then DiskErr else Ok)
    {
      hide Resolve, Refused, Unlinked;
      if (left != 0 || cf.late) && Resolve(root, Text(path[..])).At? && Resolve(root, Text(path[..])).loc != [] {
        UnlinkCases(root, Text(path[..]), left, cf);
      }
      var (r, f) := Unlink(root, Text(path[..]), left, cf);
      root, left, res := r, left - 1, f;
    }
  }

  lemma OpenedFails(root: Slots, path: string)
    ensures Opened(root, path) != Failed(Ok)
  {
    WalkFails(root, path);
    if path != "" {
      WalkFails(root, path[1..]);
    }
  }

  lemma {:induction false} WalkFails(d: Slots, p: string)
    ensures Walk(d, p) != Failed(Ok)
    decreases |p|
  {
    var q := Strip(p);
    var n := Segment(q);
    var k := Find(d, q[..n]);
    if !OnlyDots(q[..n]) && n < |q| && k < |d| && d[k].Dir? {
      WalkFails(d[k].slots, q[n + 1..]);
    }
  }

  /** The directory a path names, without slots if it names none. */
  function Target(root: Slots, path: string): Slots {
    var f := Opened(root, path);
    if f.At? then Contents(root, f.loc) else []
  }

  /** Copies a name, up to and including its terminator, to place i of the buffer. */
  method CopyName(path: array<char>, i: nat, fname: string)
    requires |fname| > 0 && fname[|fname| - 1] == '\0' && i + |fname| <= path.Length
    requires forall j :: 0 <= j < |fname| - 1 ==> fname[j] != '\0'
    modifies path
    ensures path[..] == old(path[..i]) + fname + old(path[i + |fname|..])
  {
    hide Copied;
    ghost var a := path[..];
    var j := 0;
    path[i + j] := fname[j];
    assert path[..] == a[i := fname[0]];
    CopyFirst(a, i, fname);
    while fname[j] != '\0'
      invariant 0 <= j < |fname| && path[..] == Copied(a, i, fname, j + 1)
      decreases |fname| - j
    {
      ghost var b := path[..];
      j := j + 1;
      path[i + j] := fname[j];
      assert path[..] == b[i + j := fname[j]];
      CopyNext(a, i, fname, j);
    }
    CopyAll(a, i, fname);
  }

  /** a with the first n characters of s at place i. */
  ghost function Copied(a: seq<char>, i: nat, s: string, n: nat): (r: seq<char>)
    requires n <= |s| && i + n <= |a|
    ensures |r| == |a|
  {
    a[..i] + s[..n] + a[i + n..]
  }

  lemma CopyFirst(a: seq<char>, i: nat, s: string)
    requires |s| > 0 && i + 1 <= |a|
    ensures a[i := s[0]] == Copied(a, i, s, 1)
  {
  }

  lemma CopyNext(a: seq<char>, i: nat, s: string, n: nat)
    requires n < |s| && i + n + 1 <= |a|
    ensures Copied(a, i, s, n)[i + n := s[n]] == Copied(a, i, s, n + 1)
  {
  }

  lemma CopyAll(a: seq<char>, i: nat, s: string)
    requires i + |s| <= |a|
    ensures Copied(a, i, s, |s|) == a[..i] + s + a[i + |s|..]
  {
  }

  /** The path buffer holds s. */
  ghost predicate Holds(a: seq<char>, s: string) {
    |s| < |a| && a[..|s|] == s && a[|s|] == '\0' && forall i :: 0 <= i < |s| ==> s[i] != '\0'
  }

  lemma ErasedOk(d: Slots, left: int, cf: Config)
    requires d != [] && d[0].Live() && Purge(d, left, cf).res == Ok
    ensures left != 0 && Erased(d[0], left - 1, cf).2 == Ok && Erased(d[0], left - 1, cf).0 == Free
  {
    hide Purge, Erased;
    PurgeHead(d, left, cf);
    ErasedOkFrees(d[0], left - 1, cf);
  }

  /** What a purge that ran to its end leaves. */
  lemma {:induction false} PurgeOk(d: Slots, left: int, cf: Config)
    requires Purge(d, left, cf).res == Ok
    ensures Purge(d, left, cf).slots == Cleared(d)
  {
    if d != [] {
      hide Purge, Erased;
      PurgeHead(d, left, cf);
      assert Cleared(d) == Cleared([d[0]]) + Cleared(d[1..]);
      if !Reported(d[0], cf) {
        PurgeOk(d[1..], left, cf);
      } else if d[0].Dot? {
        PurgeOk(d[1..], left - 1, cf);
      } else {
        ErasedOk(d, left, cf);
        PurgeOk(d[1..], Erased(d[0], left - 1, cf).1, cf);
      }
    }
  }

  lemma ClearedIsEmpty(d: Slots, left: int, cf: Config)
    requires WellFormed(d, 2) && Empty(d, left, cf).res == Ok
    ensures Next(Empty(d, left, cf).slots, 2, cf) == |d|
  {
    PurgeOk(d, left - 1, cf);
  }

  /** The next entry, as Purge treats it. */
  lemma PurgeEntry(d: Slots, m: nat, left: int, cf: Config)
    requires m < |d| && d[m].Live() && left != 0
    ensures var (t, end, res) := Erased(d[m], left - 1, cf);
            Purge(d[m..], left, cf)
            == if res != Ok then Result([t] + d[m + 1..], end, res)
               else Prepend(Cleared([d[m]]), Purge(d[m + 1..], end, cf))
  {
    hide Purge, Erased;
    assert d[m..][0] == d[m] && d[m..][1..] == d[m + 1..];
    PurgeHead(d[m..], left, cf);
    if Erased(d[m], left - 1, cf).2 == Ok {
      ErasedOkFrees(d[m], left - 1, cf);
    }
    assert Cleared([d[m]]) == [Free];
  }

  lemma PurgeDot(d: Slots, m: nat, left: int, cf: Config)
    requires m < |d| && d[m].Dot? && Reported(d[m], cf) && left != 0
    ensures Purge(d[m..], left, cf) == Prepend(Cleared([d[m]]), Purge(d[m + 1..], left - 1, cf))
  {
    hide Purge;
    assert d[m..][0] == d[m] && d[m..][1..] == d[m + 1..];
    PurgeHead(d[m..], left, cf);
    assert Cleared([d[m]]) == [d[m]];
  }

  lemma PurgeEnd(d: Slots, m: nat, left: int, cf: Config)
    requires m <= |d| && (m < |d| ==> Reported(d[m], cf) && left == 0)
    ensures Purge(d[m..], left, cf) == Result(d[m..], left - 1, if left == 0 then DiskErr else Ok)
  {
  }

  /** The path of subdirectory m, seen from the root. */
  lemma Descend(root: Slots, path: string, loc: seq<nat>, e: Slots, m: nat)
    requires LeadsTo(root, path, loc) && m < |e| && e[m].Dir? && ShortName(e[m].name) && Find(e, e[m].name) == m
    ensures var r := Replace(root, loc, e);
            && Opened(r, path + "/" + e[m].name) == At(loc + [m])
            && Contents(r, loc + [m]) == e[m].slots
            && forall x :: Replace(r, loc + [m], x) == Replace(root, loc, e[m := e[m].(slots := x)])
  {
    var r := Replace(root, loc, e);
    PathBelow(root, path, loc, e, e[m].name);
    ReplaceReaches(root, loc, e);
    ReplaceBelow(r, loc, m, []);
    OpenedLeads(r, path + "/" + e[m].name, loc + [m]);
    forall x
      ensures Replace(r, loc + [m], x) == Replace(root, loc, e[m := e[m].(slots := x)])
    {
      ReplaceBelow(r, loc, m, x);
      ReplaceTwice(root, loc, e, e[m := e[m].(slots := x)]);
    }
  }

  /** f_unlink on the path of entry m. */
  lemma UnlinkBelow(root: Slots, path: string, loc: seq<nat>, e: Slots, m: nat, left: int, cf: Config)
    requires LeadsTo(root, path, loc) && m < |e| && e[m].Live() && ShortName(e[m].name) && Find(e, e[m].name) == m
    ensures Unlink(Replace(root, loc, e), path + "/" + e[m].name, left, cf)
         == (Replace(root, loc, e[m := Unlinked(e[m], left, cf).0]), Unlinked(e[m], left, cf).1)
  {
    var r := Replace(root, loc, e);
    var t := Unlinked(e[m], left, cf).0;
    PathBelow(root, path, loc, e, e[m].name);
    ReplaceReaches(root, loc, e);
    EntryBelow(r, loc, m, t);
    ReplaceTwice(root, loc, e, e[m := t]);
    assert t == e[m] ==> e[m := t] == e;
  }

  /** What the loop relies on: the working directory, found at loc by the path text, with its
      entries before slot k gone. */
  ghost predicate Working(now: Slots, root: Slots, text: string, loc: seq<nat>, d: Slots, k: nat) {
    && LeadsTo(root, text, loc) && d == Contents(root, loc) && k <= |d|
    && WellFormed(d, if loc == [] then 0 else 2)
    && now == Replace(root, loc, ClearedTo(d, k))
  }

  /** The buffer holds the path text and a separator, and has room for the names below. */
  ghost predicate Spacious(a: seq<char>, text: string, height: nat) {
    && |text| + 13 * height < |a| && a[..|text| + 1] == text + "/"
    && (forall i :: 0 <= i < |text| ==> text[i] != '\0')
  }

  /** Only characters from index `from` on and within 13 per level of height may differ. */
  ghost predicate SameOutside(a: seq<char>, b: seq<char>, from: nat, height: nat) {
    |a| == |b| && forall k :: 0 <= k < |a| && !(from <= k < from + 13 * height) ==> a[k] == b[k]
  }

  /** The buffer after a name has been copied behind the separator. */
  lemma AfterCopy(a: seq<char>, b: seq<char>, text: string, name: string, height: nat)
    requires Spacious(a, text, height) && height >= 1 && ShortName(name)
    requires |text| + |name| + 2 <= |a|
    requires b == a[..|text| + 1] + (name + "\0") + a[|text| + |name| + 2..]
    ensures Holds(b, text + "/" + name) && Text(b) == text + "/" + name
    ensures SameOutside(b, a, |text| + 1, height)
  {
    TextIs(b, text + "/" + name);
  }

  /** The buffer after a subdirectory has been emptied. */
  lemma AfterChild(a: seq<char>, b: seq<char>, c: seq<char>, text: string, name: string, height: nat, below: nat)
    requires SameOutside(b, a, |text| + 1, height) && height >= 1 + below && ShortName(name)
    requires Holds(b, text + "/" + name) && SameOutside(c, b, |text| + |name| + 2, below)
    ensures Holds(c, text + "/" + name) && Text(c) == text + "/" + name
    ensures SameOutside(c, a, |text| + 1, height)
  {
    var longer := text + "/" + name;
    assert c[..|longer|] == b[..|longer|];
    TextIs(c, longer);
  }

  /** The entry at slot m of the working directory, seen from the root. */
  lemma EntryPath(now: Slots, root: Slots, text: string, loc: seq<nat>, d: Slots, m: nat)
    requires Working(now, root, text, loc, d, m) && m < |d| && d[m].Live()
    ensures Distinct(d) && ShortName(d[m].name) && Height(d) >= 1 && ClearedTo(d, m)[m := d[m]] == ClearedTo(d, m)
    ensures d[m].Dir? ==>
      && Opened(now, text + "/" + d[m].name) == At(loc + [m])
      && Contents(now, loc + [m]) == d[m].slots
      && WellFormed(d[m].slots, 2) && Height(d) >= 1 + Height(d[m].slots)
  {
    HeightOfEntry(d, m);
    FindInCleared(d, m);
    var e := ClearedTo(d, m);
    assert e[m := d[m]] == e;
    if d[m].Dir? {
      Descend(root, text, loc, e, m);
    }
  }

  lemma EntryEmptied(now: Slots, root: Slots, text: string, loc: seq<nat>, d: Slots, m: nat, x: Slots)
    requires Working(now, root, text, loc, d, m) && m < |d| && d[m].Dir? && Reaches(now, loc + [m])
    ensures Replace(now, loc + [m], x) == Replace(root, loc, ClearedTo(d, m)[m := d[m].(slots := x)])
  {
    FindInCleared(d, m);
    var e := ClearedTo(d, m);
    assert e[m := d[m]] == e;
    Descend(root, text, loc, e, m);
  }

  lemma EntryUnlinked(root: Slots, text: string, loc: seq<nat>, d: Slots, m: nat, s: Slot, left: int, cf: Config)
    requires LeadsTo(root, text, loc) && m < |d| && d[m].Live() && Distinct(d) && ShortName(d[m].name)
    requires s.Named(d[m].name)
    ensures Unlink(Replace(root, loc, ClearedTo(d, m)[m := s]), text + "/" + d[m].name, left, cf)
         == (Replace(root, loc, ClearedTo(d, m)[m := Unlinked(s, left, cf).0]), Unlinked(s, left, cf).1)
  {
    FindInCleared(d, m);
    var e := ClearedTo(d, m);
    UnlinkBelow(root, text, loc, e[m := s], m, left, cf);
    assert e[m := s][m := Unlinked(s, left, cf).0] == e[m := Unlinked(s, left, cf).0];
  }

  method EmptyEntry(disk: Disk, path: array<char>, i: nat, fno: FileInfo, ghost root: Slots, ghost text: string,
                    ghost loc: seq<nat>, ghost d: Slots, ghost m: nat)
      returns (fr: FResult)
    requires Working(disk.root, root, text, loc, d, m) && i == |text| + 1
    requires Spacious(path[..], text, Height(d))
    requires m < |d| && d[m].Live() && fno == FileInfo(d[m].name + "\0", d[m].Dir?)
    modifies disk, path
    ensures var (t, end, res) := Erased(d[m], old(disk.left), disk.cf);
            disk.root == Replace(root, loc, ClearedTo(d, m)[m := t]) && disk.left == end && fr == res
    ensures SameOutside(path[..], old(path[..]), i, Height(d))
    decreases Height(d), 0
  {
    hide Purge, WellFormed, Resolve, Height, ClearedTo, Replace, Contents, Distinct, Unlink, Unlinked, Next, Find;
    hide Names, Opens, MeetsBadName, Refused;
    ghost var name := d[m].name;
    ghost var a := path[..];
    ghost var now, left := disk.root, disk.left;
    EntryPath(disk.root, root, text, loc, d, m);
    CopyName(path, i, fno.fname);
    ghost var b := path[..];
    AfterCopy(a, b, text, name, Height(d));
    ghost var s := d[m];
    if fno.directory {
      fr := EmptyDirectory(disk, path);
      ghost var x := Empty(d[m].slots, left, disk.cf).slots;
      EntryEmptied(now, root, text, loc, d, m, x);
      s := d[m].(slots := x);
      AfterChild(a, b, path[..], text, name, Height(d), Height(d[m].slots));
      if fr != Ok {
        return;
      }
    }
    EntryUnlinked(root, text, loc, d, m, s, disk.left, disk.cf);
    fr := disk.Remove(path);
  }

  lemma {:induction false} NextInCleared(d: Slots, k: nat, i: nat, cf: Config)
    requires k <= i <= |d|
    ensures Next(ClearedTo(d, k), i, cf) == Next(d, i, cf)
    decreases |d| - i
  {
    if i < |d| {
      NextInCleared(d, k, i + 1, cf);
    }
  }

  /** What one call of f_readdir at slot k means for the purge: m is the slot it finds. */
  lemma AfterRead(d: Slots, start: int, cf: Config, k: nat, left: int, m: nat)
    requires Progress(d, start, cf, k, left) && m == Next(d, k, cf)
    ensures left == 0 || m == |d| ==>
      Purge(d, start, cf) == Result(ClearedTo(d, k), left - 1, if left == 0 then DiskErr else Ok)
    ensures Next(ClearedTo(d, k), k, cf) == m && ClearedTo(d, m) == ClearedTo(d, k) && k <= m <= |d|
    ensures m < |d| ==> (d[m].Live() || d[m].Dot?) && ClearedTo(d, k)[m] == d[m]
    ensures left != 0 && m < |d| && d[m].Dot? ==>
      Progress(d, start, cf, m + 1, left - 1) && ClearedTo(d, m + 1) == ClearedTo(d, k)
  {
    hide Purge;
    ProgressSkip(d, start, cf, k, left, m);
    NextInCleared(d, k, k, cf);
    if m == |d| || left == 0 {
      PurgeEnd(d, m, left, cf);
    } else if d[m].Dot? {
      PurgeDot(d, m, left, cf);
      ProgressStep(d, start, cf, m, left, left - 1);
    }
  }

  lemma AfterEntry(d: Slots, start: int, cf: Config, k: nat, left: int, m: nat)
    requires Progress(d, start, cf, k, left) && left != 0 && m == Next(d, k, cf) && m < |d| && d[m].Live()
    ensures var (t, end, res) := Erased(d[m], left - 1, cf);
      if res == Ok then Progress(d, start, cf, m + 1, end) && ClearedTo(d, m + 1) == ClearedTo(d, m)[m := t]
      else Purge(d, start, cf) == Result(ClearedTo(d, m)[m := t], end, res)
  {
    hide Purge;
    ProgressSkip(d, start, cf, k, left, m);
    PurgeEntry(d, m, left, cf);
    var (t, end, res) := Erased(d[m], left - 1, cf);
    if res == Ok {
      ProgressStep(d, start, cf, m, left, end);
    } else {
      ProgressEnd(d, start, cf, m, left, t, end, res);
    }
  }

  lemma SpaciousStill(a: seq<char>, b: seq<char>, text: string, height: nat)
    requires SameOutside(b, a, |text| + 1, height) && Spacious(a, text, height)
    ensures Spacious(b, text, height)
  {
    assert b[..|text| + 1] == a[..|text| + 1];
  }

  /** The whole run on the directory that a path names, with the tree it leaves. */
  function Run(root: Slots, path: string, left: int, cf: Config): Result {
    match Opened(root, path)
    case Failed(f) => Result(root, left - 1, if left == 0 then DiskErr else f)
    case At(loc) =>
      var r := Empty(Contents(root, loc), left, cf);
      r.(slots := Replace(root, loc, r.slots))
  }

  lemma RunFaulty(root: Slots, path: string, cf: Config)
    ensures Run(root, path, 0, cf) == Result(root, -1, DiskErr)
  {
    if Opened(root, path).At? {
      ReplaceSame(root, Opened(root, path).loc);
    }
  }

  /** A run on a path that leads to no directory: nothing changes, and the result is FR_INVALID_NAME exactly
      when a directory on the way is asked for a bad name, otherwise FR_NO_PATH. */
  lemma RunFails(root: Slots, path: string, left: int, cf: Config)
    requires !Opens(root, Names(path)) && left != 0
    ensures Run(root, path, left, cf)
         == Result(root, left - 1, if MeetsBadName(root, Names(path)) then InvalidName else NoPath)
  {
    hide Opened, Names, MeetsBadName;
    OpenedExactly(root, path);
  }

  /** The directory that a path names satisfies the rules for its place in the tree. */
  ghost predicate Sound(root: Slots, path: string) {
    var f := Opened(root, path);
    f.At? ==> WellFormed(Contents(root, f.loc), if f.loc == [] then 0 else 2)
  }

  /** The result of a run on a path that may lead nowhere. */
  lemma RunResult(root: Slots, path: string, left: int, cf: Config)
    ensures left != 0 && !Opens(root, Names(path)) ==>
      Run(root, path, left, cf).slots == root
      && Run(root, path, left, cf).res == if MeetsBadName(root, Names(path)) then InvalidName else NoPath
  {
    hide Run, Names, MeetsBadName, Opens;
    if left != 0 && !Opens(root, Names(path)) {
      RunFails(root, path, left, cf);
    }
  }

  lemma AfterOpen(a: seq<char>, text: string, height: nat)
    requires Holds(a, text) && |text| + 13 * height < |a|
    ensures Spacious(a[|text| := '/'], text, height)
  {
    var b := a[|text| := '/'];
    assert b[..|text| + 1] == a[..|text|] + "/";
  }

  lemma AfterAll(a: seq<char>, c: seq<char>, text: string, height: nat)
    requires Holds(a, text) && SameOutside(c, a[|text| := '/'], |text| + 1, height)
    ensures SameOutside(c[|text| := '\0'], a, |text| + 1, height)
  {
  }

  method EmptyDirectory(disk: Disk, path: array<char>) returns (fr: FResult)
    requires Holds(path[..], Text(path[..])) && Sound(disk.root, Text(path[..]))
    requires |Text(path[..])| + 13 * Height(Target(disk.root, Text(path[..]))) < path.Length
    modifies disk, path
    ensures Result(disk.root, disk.left, fr)
         == Run(old(disk.root), old(Text(path[..])), old(disk.left), disk.cf)
    ensures old(disk.left) != 0 && !Opens(old(disk.root), Names(old(Text(path[..])))) ==>
      disk.root == old(disk.root)
      && fr == if MeetsBadName(disk.root, Names(old(Text(path[..])))) then InvalidName else NoPath
    ensures SameOutside(path[..], old(path[..]), |old(Text(path[..]))| + 1,
                        Height(Target(old(disk.root), old(Text(path[..])))))
    decreases Height(Target(disk.root, Text(path[..]))), 2
  {
    hide Purge, WellFormed, Resolve, Height, ClearedTo, Replace, Names, Opens, MeetsBadName, Leads;
    ghost var root, text, a := disk.root, Text(path[..]), path[..];
    RunResult(root, text, disk.left, disk.cf);
    ghost var h := Height(Target(root, text));
    RunFaulty(root, text, disk.cf);
    var dir;
    fr, dir := disk.OpenDir(path);
    if fr == Ok {
      var i := 0;
      while path[i] != '\0'
        invariant 0 <= i <= |text|
        decreases |text| - i
      {
        assert path[..][i] == text[i];
        i := i + 1;
      }
      path[i] := '/';
      i := i + 1;
      AfterOpen(a, text, h);
      ReplaceSame(root, dir.loc);
      ProgressStart(Contents(root, dir.loc), disk.left, disk.cf);
      fr := EmptyEntries(disk, path, i, dir, root, text, Contents(root, dir.loc));
      AfterAll(a, path[..], text, h);
      i := i - 1;
      path[i] := '\0';
    }
  }

  lemma LabelStarts(d: Slots, from: nat)
    requires WellFormed(d, from)
    ensures forall m :: 0 <= m < |d| && (d[m].Live() || d[m].Dot?) ==>
      |Label(d[m])| > 0 && Label(d[m])[0] != '\0' && (Label(d[m])[0] == '.' <==> d[m].Dot?)
  {
  }

  /** The loop over the entries of the opened directory; the buffer ends in a separator before
      index i. */
  method EmptyEntries(disk: Disk, path: array<char>, i: nat, dir0: DirObject, ghost root: Slots, ghost text: string,
                      ghost d: Slots)
      returns (fr: FResult)
    requires Working(disk.root, root, text, dir0.loc, d, 0) && dir0.index == 0
    requires i == |text| + 1 && Spacious(path[..], text, Height(d))
    modifies disk, path
    ensures var r := Purge(d, old(disk.left), disk.cf);
            Result(disk.root, disk.left, fr) == r.(slots := Replace(root, dir0.loc, r.slots))
    ensures SameOutside(path[..], old(path[..]), i, Height(d))
    decreases Height(d), 1
  {
    hide Purge, WellFormed, Resolve, Spacious, Progress, Erased, ClearedTo, Replace, Contents, Height, Next;
    ghost var start, a, cf := disk.left, path[..], disk.cf;
    var dir := dir0;
    LabelStarts(d, if dir.loc == [] then 0 else 2);
    ProgressStart(d, start, cf);
    while true
      invariant SameOutside(path[..], a, i, Height(d))
      invariant dir.loc == dir0.loc && Working(disk.root, root, text, dir0.loc, d, dir.index)
      invariant Progress(d, start, cf, dir.index, disk.left)
      decreases |d| - dir.index
    {
      ghost var left, k := disk.left, dir.index;
      ghost var m := Next(d, k, cf);
      AfterRead(d, start, cf, k, left, m);
      ReplaceReaches(root, dir.loc, ClearedTo(d, k));
      SpaciousStill(a, path[..], text, Height(d));
      var fno;
      fr, dir, fno := disk.ReadDir(dir);
      if fr != Ok || fno.fname[0] == '\0' {
        break;
      }
      if fno.fname[0] == '.' {
        continue;
      }
      AfterEntry(d, start, cf, k, left, m);
      fr := EmptyEntry(disk, path, i, fno, root, text, dir.loc, d, m);
      if fr != Ok {
        break;
      }
    }
  }
}
