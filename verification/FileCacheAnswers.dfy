/** What the open file cache learns about a name from the file system, and what its steps do to
    its state: entries that take an answer, leave the cache or are let go of.
 */
module FileCacheAnswers {

  import opened Common
  import opened FileCacheState

  datatype Rc = Ok | Error

  /** An answer of the file system. */
  datatype Answer = Says(stat: Stat) | Fails(errno: nat)
  datatype Opening = Opens(fd: int) | Refuses(errno: nat)

  /** What stat, open and fstat answer while a call runs. */
  datatype Fs = Fs(stat: Answer, open: Opening, fstat: Answer)

  /** The caller's request and what it learns: descriptor, error, and file information. */
  datatype Info = Info(fd: int, err: nat, stat: Stat, testDir: bool)

  /** What the caller asks for: the file identity it expects (0 for any), how old an answer may
      be, and whether errors are cached. */
  datatype Wanted = Wanted(uniq: nat, valid: int, errors: bool)

  /** What the allocator gives: whether a cleanup record, an entry (at an address not in use,
      with `junk` in it) and its name can be had. */
  datatype Memory = Memory(cleanup: bool, entry: bool, name: bool, at: nat, junk: File)

  // ---------- ngx_open_and_stat_file

  /** Whether looking at the name decides, so that it is not opened. */
  predicate ByName(info: Info, fs: Fs) {
    if info.fd != INVALID then fs.stat.Fails? || fs.stat.stat.uniq == info.stat.uniq
    else info.testDir && (fs.stat.Fails? || fs.stat.stat.isDir)
  }

  /** What is found under a name: the descriptor given is kept if the name still leads to the
      file it was opened for, and a directory is not opened when one is expected. */
  function OpenAndStat(info: Info, fs: Fs): (r: (Rc, Info))
    ensures r.0 == Ok <==> if ByName(info, fs) then fs.stat.Says? else fs.open.Opens? && fs.fstat.Says?
    ensures r.0 == Ok ==> r.1.err == info.err && r.1.stat == if ByName(info, fs) then fs.stat.stat else fs.fstat.stat
    ensures r.0 == Ok ==>
              r.1.fd == if ByName(info, fs) then info.fd else if fs.fstat.stat.isDir then INVALID else fs.open.fd
    ensures r.0 == Error ==> r.1.fd == INVALID && r.1.stat == info.stat
    ensures r.0 == Error ==> r.1.err == if ByName(info, fs) then fs.stat.errno
                                        else if fs.open.Refuses? then fs.open.errno else info.err
  {
    if info.fd != INVALID && fs.stat.Fails? then (Error, info.(fd := INVALID, err := fs.stat.errno))
    else if info.fd != INVALID && info.stat.uniq == fs.stat.stat.uniq then (Ok, info.(stat := fs.stat.stat))
    else if info.fd == INVALID && info.testDir && fs.stat.Fails?
    then (Error, info.(fd := INVALID, err := fs.stat.errno))
    else if info.fd == INVALID && info.testDir && fs.stat.stat.isDir then (Ok, info.(stat := fs.stat.stat))
    else if fs.open.Refuses? then (Error, info.(fd := INVALID, err := fs.open.errno))
    else if fs.fstat.Fails? then (Error, info.(fd := INVALID))
    else (Ok, info.(fd := if fs.fstat.stat.isDir then INVALID else fs.open.fd, stat := fs.fstat.stat))
  }

  /** Errors have a number, and a descriptor opened is a new one. */
  ghost predicate Sane(fs: Fs, open: map<int, Owner>) {
    && (fs.stat.Fails? ==> fs.stat.errno > 0)
    && (fs.open.Refuses? ==> fs.open.errno > 0)
    && (fs.open.Opens? ==> fs.open.fd >= 0 && fs.open.fd !in open)
  }

  /** The name of an open file leads elsewhere when it is looked at and to the file again when it
      is opened. */
  predicate Swapped(f: File, fs: Fs) {
    && Plain(f) && f.fd != INVALID && fs.stat.Says? && fs.stat.stat.uniq != f.stat.uniq
    && fs.open.Opens? && fs.fstat.Says? && !fs.fstat.stat.isDir && fs.fstat.stat.uniq == f.stat.uniq
  }

  /** The name of an open file leads to a directory of the same number. */
  predicate Turned(f: File, fs: Fs) {
    Plain(f) && f.fd != INVALID && fs.stat.Says? && fs.stat.stat.uniq == f.stat.uniq && fs.stat.stat.isDir
  }

  function Asking(want: Wanted): Info {
    Info(INVALID, 0, Stat(want.uniq, false, 0), false)
  }

  /** The question about a cached entry. */
  function AskingAgain(f: File): Info {
    Info(f.fd, 0, Stat(f.stat.uniq, false, 0), f.stat.isDir)
  }

  /** An answer that an entry can take: a plain file comes with its descriptor and nothing else
      comes with one. */
  ghost predicate Whole(info: Info) {
    (info.err == 0 && !info.stat.isDir) <==> info.fd != INVALID
  }

  /** A directory with the descriptor of the open file that was asked about. */
  ghost predicate Odd(f: File, info: Info) {
    Plain(f) && info.fd != INVALID && info.fd == f.fd && info.err == 0 && info.stat.isDir
  }

  /** The file of an entry under another descriptor. */
  ghost predicate Losing(f: File, info: Info) {
    Plain(f) && f.fd != INVALID && info.fd != INVALID && info.fd != f.fd && info.stat.uniq == f.stat.uniq
  }

  /** An answer not to be cached: an error that has no number or that the caller does not want
      cached. */
  predicate Unwanted(r: Rc, info: Info, want: Wanted) {
    r != Ok && (info.err == 0 || !want.errors)
  }

  /** An answer to a question without a descriptor. */
  lemma NewAnswer(info: Info, fs: Fs, open: map<int, Owner>)
    requires Sane(fs, open) && info.fd == INVALID && info.err == 0 && !info.stat.isDir && !info.testDir
    ensures var r := OpenAndStat(info, fs);
            && (Whole(r.1) || (r.0 != Ok && r.1.err == 0))
            && (r.0 == Error ==> r.1.fd == INVALID) && (r.0 == Ok ==> r.1.err == 0)
            && (r.1.fd != INVALID ==> r.1.fd !in open)
  {}

  /** An answer about a cached entry. */
  lemma SecondAnswer(f: File, fs: Fs, open: map<int, Owner>)
    requires Sane(fs, open) && (f.fd != INVALID ==> f.fd in open) && (Plain(f) <==> f.fd != INVALID)
    ensures var r := OpenAndStat(AskingAgain(f), fs);
            && (Whole(r.1) || (r.0 != Ok && r.1.err == 0) || Odd(f, r.1))
            && (r.0 == Error ==> r.1.fd == INVALID) && (r.0 == Ok ==> r.1.err == 0)
            && (r.1.fd != INVALID && r.1.fd != f.fd ==> r.1.fd !in open)
            && (r.1.fd != INVALID && r.1.fd == f.fd ==> r.1.stat.uniq == f.stat.uniq)
            && (Odd(f, r.1) <==> Turned(f, fs)) && (Losing(f, r.1) <==> Swapped(f, fs))
  {}

  // ---------- what stays

  /** What somebody holds stays in memory with its descriptor. */
  ghost predicate Firm(s: State, t: State) {
    forall y :: y in s.files && s.files[y].count > 0 ==> y in t.files && t.files[y].fd == s.files[y].fd
  }

  /** What somebody holds stays in memory, and the descriptor they know stays open. */
  ghost predicate Usable(s: State, t: State) {
    forall y :: y in s.files && s.files[y].count > 0 ==> y in t.files && s.files[y].fd in t.open
  }

  /** And what somebody holds after `x` was let go of. */
  ghost predicate FirmBut(s: State, t: State, x: nat) {
    forall y :: y in s.files && s.files[y].count > (if y == x then 1 else 0) ==>
                  y in t.files && t.files[y].fd == s.files[y].fd && t.files[y].count > 0
  }

  lemma FirmUsable(s: State, a: set<nat>, t: State, b: set<nat>)
    requires Inv(s, a) && Inv(t, b) && Firm(s, t)
    ensures Usable(s, t)
  {}

  /** After a step that keeps the holders. */
  lemma FirmAfter(s: State, t: State, u: State)
    requires Firm(s, t) && forall y :: y in s.files && s.files[y].count > 0 ==> y in t.files && t.files[y].count > 0
    ensures Firm(t, u) ==> Firm(s, u)
    ensures Usable(t, u) ==> Usable(s, u)
  {}

  // ---------- what the invariant says of one entry

  lemma Facts(s: State, away: set<nat>, x: nat)
    requires Inv(s, away) && x in s.files
    ensures s.current == |s.tree|
    ensures s.files[x].fd != INVALID ==> s.files[x].fd in s.open && s.open[s.files[x].fd] == Entry(x)
    ensures InTree(s, x) ==> s.current > 0
    ensures FileOk(s, x) && s.files[x].count == s.refs[x] && INVALID !in s.open
  {
    if InTree(s, x) { TreeLess(s, x, away); }
  }

  lemma Named(s: State, away: set<nat>, x: nat)
    requires Inv(s, away) && x in s.files && InTree(s, x)
    ensures s.files[x].name in s.tree && s.tree[s.files[x].name] == x
  {}

  lemma Cached(s: State, name: string)
    requires Inv(s, {}) && name in s.tree
    ensures s.tree[name] in s.files && InTree(s, s.tree[name]) && s.files[s.tree[name]].name == name
  {}

  lemma HeldFacts(s: State, x: nat)
    requires Inv(s, {}) && x in s.refs
    ensures x in s.files && s.files[x].count > 0 && (InTree(s, x) <==> !s.files[x].close)
    ensures s.files[x].fd in s.open && s.open[s.files[x].fd] == Entry(x)
  {}

  lemma Cardinal(s: State)
    requires Inv(s, {})
    ensures s.current == |s.tree|
  {}

  lemma OutsideHeld(s: State, x: nat)
    requires Inv(s, {}) && x in s.files && !InTree(s, x)
    ensures x in s.refs
  {}

  lemma EachOwn(s: State, away: set<nat>)
    requires Inv(s, away)
    ensures Descriptors(s)
  {}

  lemma SameTrees(s: State, t: State)
    requires t.files == s.files && t.tree == s.tree
    ensures forall y :: InTree(t, y) <==> InTree(s, y)
  {}

  lemma SameIndexed(s: State, t: State, away: set<nat>)
    requires Indexed(s, away) && t.files == s.files && t.tree == s.tree && t.queue == s.queue && t.current == s.current
    ensures Indexed(t, away)
  {
    assert forall y :: InTree(t, y) <==> InTree(s, y);
  }

  lemma NoneQueued(s: State)
    requires Inv(s, {}) && s.queue == []
    ensures s.current == 0
  {
    assert forall n :: n in s.tree ==> InTree(s, s.tree[n]) && s.tree[n] in s.queue;
    assert s.tree == map[];
  }

  lemma LastQueued(s: State, x: nat)
    requires Inv(s, {}) && x in s.queue
    ensures InTree(s, x) && x in s.files
  {}

  lemma AwayInTree(s: State, x: nat)
    requires InTree(s, x)
    ensures InTree(s.(queue := Without(s.queue, x)), x)
  {}

  lemma ClosedInTree(s: State, x: nat)
    requires x in s.files && InTree(s, x)
    ensures InTree(FdClosed(s, x), x)
  {}

  lemma HeldInTree(s: State, x: nat)
    requires x in s.files && InTree(s, x)
    ensures InTree(Held(s, x), x)
  {}

  lemma AdoptInTree(s: State, x: nat, fd: int)
    requires InTree(s, x)
    ensures InTree(s.(open := s.open[fd := Caller]), x)
  {}

  lemma NothingOwned(s: State)
    requires Descriptors(s) && Settled(s) && s.files == map[]
    ensures s.open.Keys == Leaked(s)
  {
    assert forall fd :: fd in s.open ==> !s.open[fd].Entry?;
    forall fd | fd in s.open ensures s.open[fd] == Nobody {
      assert s.open[fd] != Caller && !s.open[fd].Entry?;
    }
  }

  /** With nothing cached and nothing held no entry is left, and only lost descriptors are open. */
  lemma NothingLeft(s: State)
    requires Inv(s, {}) && Settled(s) && s.refs == multiset{} && s.current == 0
    ensures s.files == map[] && s.open.Keys == Leaked(s)
  {
    hide Inv;
    Cardinal(s);
    assert s.tree == map[];
    forall x | x in s.files ensures x in s.refs { OutsideHeld(s, x); }
    assert s.files == map[];
    assert Descriptors(s) by { EachOwn(s, {}); }
    NothingOwned(s);
  }

  // ---------- leaving the cache

  /** Entries other than `x` stay as they are, and `x` only goes if nobody holds it. */
  ghost predicate Kept(s: State, t: State, x: nat) {
    && (forall y :: y in s.files && y != x ==> y in t.files && t.files[y] == s.files[y])
    && (forall y :: y in t.files ==> y in s.files)
    && (x in s.files && s.files[x].count > 0 ==> x in t.files && t.files[x] == s.files[x].(close := true))
  }

  /** Leaving the tree and being closed and freed. */
  lemma DropFree(s: State, x: nat)
    requires x in s.files && Inv(s, {x}) && InTree(s, x) && s.files[x].count == 0
    ensures s.current > 0
    ensures s.files[x].fd == INVALID ==> Inv(Erased(s, x), {})
    ensures s.files[x].fd != INVALID ==> Inv(Erased(FdClosed(s, x), x), {})
  {
    hide Inv, InTree;
    Facts(s, {x}, x);
    if s.files[x].fd == INVALID {
      EraseInv(s, x);
    } else {
      CloseInv(s, {x}, x);
      ClosedInTree(s, x);
      EraseInv(FdClosed(s, x), x);
    }
  }

  /** Only entries that nobody holds are gone, nothing is new, and no name came into the tree. */
  ghost predicate Shrunk(s: State, t: State) {
    && t.current <= s.current
    && (forall n :: n in t.tree ==> n in s.tree && t.tree[n] == s.tree[n])
    && (forall y :: y in t.files ==> y in s.files)
    && (forall y :: y in s.files && s.files[y].count > 0 ==>
                      y in t.files && t.files[y].(close := false) == s.files[y].(close := false))
    && (forall fd :: fd in t.open ==> fd in s.open && t.open[fd] == s.open[fd])
    && (forall fd :: fd in s.open && !s.open[fd].Entry? ==> fd in t.open && t.open[fd] == s.open[fd])
  }

  lemma ShrunkFirm(s: State, t: State)
    requires Shrunk(s, t)
    ensures Firm(s, t)
  {}

  lemma ShrunkLeaked(s: State, t: State)
    requires Shrunk(s, t)
    ensures Leaked(t) == Leaked(s)
  {
    forall fd | fd in Leaked(s) ensures fd in Leaked(t) {
      assert !s.open[fd].Entry?;
    }
    forall fd | fd in Leaked(t) ensures fd in Leaked(s) {
      assert t.open[fd] == s.open[fd];
    }
  }

  lemma ShrunkSelf(s: State)
    ensures Shrunk(s, s)
  {}

  /** One entry less. */
  lemma ShrunkStep(first: State, s: State, t: State, u: State, x: nat)
    requires Shrunk(first, s) && t == s.(queue := t.queue) && x in t.files && Kept(t, u, x)
    requires u.current <= t.current && u.tree == t.tree - {t.files[x].name}
    requires forall fd :: fd in u.open ==> fd in t.open && u.open[fd] == t.open[fd]
    requires forall fd :: fd in t.open && !t.open[fd].Entry? ==> fd in u.open && u.open[fd] == t.open[fd]
    ensures Shrunk(first, u)
  {
    forall y | y in first.files && first.files[y].count > 0
      ensures y in u.files && u.files[y].(close := false) == first.files[y].(close := false)
    {
      assert y in s.files && s.files[y].(close := false) == first.files[y].(close := false);
      assert s.files[y].count == s.files[y].(close := false).count;
    }
  }

  /** `n - first` entries are off the end of the queue; but for one taken by force, they were not
      used for long. The others are as before. */
  ghost predicate Expiring(s: State, t: State, first: nat, n: nat, now: int, inactive: int) {
    && first <= n && |s.queue| - |t.queue| == n - first && t.queue <= s.queue
    && (forall y :: y in t.queue ==> y in s.files && y in t.files && t.files[y] == s.files[y])
    && (forall i :: |t.queue| <= i < |s.queue| - (if first == 0 then 1 else 0) ==>
                      s.queue[i] in s.files && now - s.files[s.queue[i]].accessed > inactive)
  }

  /** The end of the queue is gone as far as it was not used for long, up to two entries, and one
      more with force. */
  ghost predicate Oldest(s: State, t: State, first: nat, now: int, inactive: int) {
    && t.queue <= s.queue && |s.queue| - |t.queue| <= 3 - first
    && (forall i :: |t.queue| <= i < |s.queue| - (if first == 0 then 1 else 0) ==>
                      s.queue[i] in s.files && now - s.files[s.queue[i]].accessed > inactive)
    && (|s.queue| - |t.queue| < 3 - first && t.queue != [] ==>
          var y := t.queue[|t.queue| - 1];
          y in s.files && now - s.files[y].accessed <= inactive && (first == 0 ==> |t.queue| < |s.queue|))
  }

  lemma OldestNone(s: State, first: nat, now: int, inactive: int)
    requires Inv(s, {})
    ensures Expiring(s, s, first, first, now, inactive)
  {}

  lemma OldestEmpty(s: State, t: State, first: nat, n: nat, now: int, inactive: int)
    requires Expiring(s, t, first, n, now, inactive) && n <= 3 && first <= 1
    requires n == 3 || t.queue == []
             || (n != 0 && t.queue[|t.queue| - 1] in t.files
                 && now - t.files[t.queue[|t.queue| - 1]].accessed <= inactive)
    ensures Oldest(s, t, first, now, inactive)
  {}

  lemma {:induction false} WithoutLast(q: seq<nat>)
    requires NoDup(q) && q != []
    ensures Without(q, q[|q| - 1]) == q[..|q| - 1]
  {
    var x := q[|q| - 1];
    if |q| == 1 {
      assert q[1..] == [];
    } else {
      WithoutLast(q[1..]);
      assert q[1..][|q| - 2] == x && q[0] != x;
      assert q[..|q| - 1] == [q[0]] + q[1..][..|q| - 2];
    }
  }

  lemma LastOut(s: State)
    requires Inv(s, {}) && s.queue != []
    ensures NoDup(s.queue)
    ensures Without(s.queue, s.queue[|s.queue| - 1]) == s.queue[..|s.queue| - 1]
  {
    WithoutLast(s.queue);
  }

  lemma ExpiringNext(first: State, s: State, t: State, u: State, k: nat, n: nat, now: int, inactive: int)
    requires Expiring(first, s, k, n, now, inactive) && s.queue != [] && NoDup(s.queue)
    requires t == s.(queue := s.queue[..|s.queue| - 1]) && u.queue == t.queue
    requires var x := s.queue[|s.queue| - 1];
             Kept(t, u, x) && x in s.files && (n == 0 || now - s.files[x].accessed > inactive)
    ensures Expiring(first, u, k, n + 1, now, inactive)
  {
    var x := s.queue[|s.queue| - 1];
    forall y | y in u.queue ensures y in s.queue && y != x {
      var i :| 0 <= i < |u.queue| && u.queue[i] == y;
      assert s.queue[i] == y;
    }
    assert x in s.queue;
  }

  // ---------- taking an answer

  /** A call opens a new descriptor. */
  lemma AdoptInv(s: State, away: set<nat>, fd: int)
    requires Inv(s, away) && fd != INVALID && fd !in s.open
    ensures Inv(s.(open := s.open[fd := Caller]), away)
  {
    hide Indexed, Counted, InTree;
    var t := s.(open := s.open[fd := Caller]);
    SameTrees(s, t);
    SameIndexed(s, t, away);
    SameCounts(s, t);
    OtherFile(s, t);
  }

  /** A cached entry is used and taken off the queue. */
  lemma UsedInv(s: State, x: nat, u: nat)
    requires Inv(s, {}) && x in s.files && InTree(s, x)
    ensures var t := s.(files := s.files[x := s.files[x].(uses := u)], queue := Without(s.queue, x));
            Inv(t, {x}) && InTree(t, x)
  {
    hide Inv;
    AwayInv(s, x);
    TouchInv(s.(queue := Without(s.queue, x)), {x}, x, s.files[x].(uses := u));
  }

  ghost function Taking(f: File, info: Info, now: int): File {
    var g := f.(fd := info.fd, err := info.err, created := now, accessed := now);
    if info.err == 0 then g.(stat := info.stat, close := false) else g
  }

  /** Who owns what after entry `x` with descriptor `was` took over `fd`: the old descriptor, if
      it was another one and still open, is lost. */
  ghost function Passed(open: map<int, Owner>, x: nat, was: int, fd: int): map<int, Owner> {
    var rest := if was != fd && was in open && open[was] == Entry(x) then open[was := Nobody] else open;
    if fd in rest && rest[fd] == Caller then rest[fd := Entry(x)] else rest
  }

  ghost function Answered(s: State, x: nat, info: Info, now: int): State
    requires x in s.files
  {
    var g := Taking(s.files[x], info, now);
    var held := info.err == 0 && !info.stat.isDir;
    State(s.files[x := if held then g.(count := g.count + 1) else g], s.tree, [x] + s.queue, s.current,
          Passed(s.open, x, s.files[x].fd, info.fd),
          if held then s.refs + multiset{x} else s.refs)
  }

  /** The answer is cached under its name, as the entry used last. */
  ghost predicate Answers(s: State, name: string, x: nat, info: Info, now: int) {
    && name in s.tree && s.tree[name] == x && x in s.files && s.files[x].name == name && s.queue != []
    && s.queue[0] == x
    && s.files[x].fd == info.fd && s.files[x].err == info.err && (info.err == 0 ==> s.files[x].stat == info.stat)
    && s.files[x].accessed == now
  }

  /** An entry that can take an answer: it has no descriptor and no holder, or it is an open file
      and the answer is one. */
  ghost predicate Takes(s: State, x: nat, info: Info)
    requires x in s.files
  {
    var f := s.files[x];
    && Whole(info) && (forall fd :: fd in s.open && s.open[fd] == Caller ==> fd == info.fd)
    && (f.fd == INVALID ==> f.count == 0)
    && (f.fd != INVALID ==> Plain(f) && info.fd != INVALID)
    && (info.fd != INVALID && info.fd != f.fd ==> info.fd in s.open && s.open[info.fd] == Caller)
  }

  /** What an entry is after an answer, before the caller holds it. */
  ghost function Told(s: State, x: nat, info: Info, now: int): State
    requires x in s.files
  {
    s.(files := s.files[x := Taking(s.files[x], info, now)], open := Passed(s.open, x, s.files[x].fd, info.fd))
  }

  lemma ToldInTree(s: State, x: nat, info: Info, now: int)
    requires x in s.files && InTree(s, x)
    ensures InTree(Told(s, x, info, now), x)
  {}

  lemma ToldInv(s: State, x: nat, info: Info, now: int)
    requires x in s.files && Inv(s, {x}) && InTree(s, x) && Takes(s, x, info)
    ensures var t := Told(s, x, info, now);
            && Inv(t, {x}) && InTree(t, x) && Settled(t)
            && (info.fd != INVALID ==> info.fd in t.open && t.open[info.fd] == Entry(x))
  {
    hide Inv, InTree;
    Facts(s, {x}, x);
    var f, g := s.files[x], Taking(s.files[x], info, now);
    ToldInTree(s, x, info, now);
    if info.fd == f.fd && info.fd != INVALID {
      TouchInv(s, {x}, x, g);
    } else if f.fd == INVALID {
      StoreInv(s, {x}, x, g);
      assert Told(s, x, info, now) == Stored(s, x, g);
    } else {
      SwapInv(s, {x}, x, g);
      assert Told(s, x, info, now) == Swapping(s, x, g);
    }
  }

  lemma TakesWhole(s: State, x: nat, info: Info)
    requires x in s.files && Takes(s, x, info)
    ensures Whole(info)
  {}

  lemma SettledSame(s: State, t: State)
    requires Settled(s) && t.open == s.open
    ensures Settled(t)
  {}

  /** An entry that can take an answer takes it, is first in the queue and is held by the caller if
      it is an open file. Only an open file that is replaced loses its descriptor. */
  lemma AnswerInv(s: State, x: nat, info: Info, now: int)
    requires x in s.files && Inv(s, {x}) && InTree(s, x) && Takes(s, x, info)
    ensures var t := Answered(s, x, info, now);
            && Inv(t, {}) && Settled(t) && (info.fd != INVALID ==> info.fd in t.open)
            && Answers(t, s.files[x].name, x, info, now)
  {
    hide Inv, InTree, Takes, Settled;
    ToldInv(s, x, info, now);
    Named(s, {x}, x);
    var t := Told(s, x, info, now);
    assert Whole(info) by { TakesWhole(s, x, info); }
    if info.err == 0 && !info.stat.isDir {
      HoldInv(t, {x}, x);
      HeldInTree(t, x);
      FrontInv(Held(t, x), x);
      assert Answered(s, x, info, now) == Held(t, x).(queue := [x] + s.queue);
    } else {
      FrontInv(t, x);
      assert Answered(s, x, info, now) == t.(queue := [x] + s.queue);
    }
    SettledSame(t, Answered(s, x, info, now));
  }

  /** Only an open file that is replaced loses its descriptor. */
  lemma AnswerLeaks(s: State, x: nat, info: Info, now: int)
    requires x in s.files && Descriptors(s) && Takes(s, x, info)
    ensures var f := s.files[x];
            Leaked(Answered(s, x, info, now)) == Leaked(s) + if f.fd != INVALID && info.fd != f.fd then {f.fd} else {}
  {}

  /** Nobody who holds an entry sees their descriptor closed, and only the holders of an open file
      that is replaced have another one than the entry. */
  lemma AnswerKeeps(s: State, x: nat, info: Info, now: int)
    requires x in s.files && Inv(s, {x}) && Takes(s, x, info)
    ensures var f, t := s.files[x], Answered(s, x, info, now);
            && (f.fd == INVALID || info.fd == f.fd ==> Firm(s, t)) && Usable(s, t)
  {
    hide InTree, Indexed;
    var f, t := s.files[x], Answered(s, x, info, now);
    forall y | y in s.files && s.files[y].count > 0 ensures y in t.files && s.files[y].fd in t.open {
      assert FileOk(s, y);
    }
  }

  /** The loss on the state: testing an open file again leaves its descriptor open and with no
      entry exactly if the name was swapped meanwhile. */
  lemma LostDescriptor(s: State, x: nat, fs: Fs, now: int)
    requires x in s.files && Inv(s, {x}) && Plain(s.files[x]) && s.files[x].fd != INVALID && Sane(fs, s.open)
    ensures var f, r := s.files[x], OpenAndStat(AskingAgain(s.files[x]), fs);
            var t := if r.1.fd != INVALID && r.1.fd != f.fd then s.(open := s.open[r.1.fd := Caller]) else s;
            var u := Answered(t, x, r.1, now);
            (r.0 == Ok && !r.1.stat.isDir && r.1.stat.uniq == f.stat.uniq
             && f.fd in u.open && forall y :: y in u.files ==> u.files[y].fd != f.fd) <==> Swapped(f, fs)
  {
    hide Indexed, Counted, FileOk;
    var f, r := s.files[x], OpenAndStat(AskingAgain(s.files[x]), fs);
    assert f.fd in s.open && s.open[f.fd] == Entry(x);
    SecondAnswer(f, fs, s.open);
    var t := if r.1.fd != INVALID && r.1.fd != f.fd then s.(open := s.open[r.1.fd := Caller]) else s;
    var u := Answered(t, x, r.1, now);
    assert u.files[x].fd == r.1.fd;
  }

  // ---------- a new entry

  ghost function Blank(junk: File, name: string): File {
    junk.(name := name, uses := 1, count := 0, fd := INVALID, err := 1)
  }

  /** A new entry in the tree, before it takes its answer: its fields are those of memory not
      yet written, for which an error without descriptor stands. */
  ghost function Entered(s: State, x: nat, junk: File, name: string): State {
    Added(s, x, Blank(junk, name))
  }

  ghost function Forgotten(s: State, fd: int): State {
    s.(open := s.open - {fd})
  }

  lemma LessOpen(s: State, fd: int)
    requires Descriptors(s) && fd in s.open && s.open[fd] == Caller
    ensures Descriptors(s.(open := s.open - {fd}))
  {}

  lemma NoInvalid(s: State)
    requires Descriptors(s)
    ensures INVALID !in s.open
  {}

  /** A descriptor that no entry took is closed. */
  lemma ForgetInv(s: State, fd: int)
    requires Inv(s, {}) && (fd != INVALID ==> fd in s.open && s.open[fd] == Caller)
    requires forall f :: f in s.open && s.open[f] == Caller ==> f == fd
    ensures var t := Forgotten(s, fd); Inv(t, {}) && Settled(t) && Leaked(t) == Leaked(s) && Firm(s, t)
  {
    hide Indexed, Descriptors, Counted, InTree;
    var t := Forgotten(s, fd);
    assert INVALID !in s.open by { EachOwn(s, {}); NoInvalid(s); }
    if fd == INVALID {
      assert t == s;
    } else {
      SameTrees(s, t);
      SameIndexed(s, t, {});
      SameCounts(s, t);
      LessOpen(s, fd);
      OtherFile(s, t);
    }
  }

  lemma SameLeaked(s: State, t: State)
    requires t.open == s.open
    ensures Leaked(t) == Leaked(s)
  {}

  lemma CreateInv(s: State, x: nat, junk: File, name: string, info: Info, now: int)
    requires Inv(s, {}) && x !in s.files && name !in s.tree && Whole(info)
    requires info.fd != INVALID ==> info.fd in s.open && s.open[info.fd] == Caller
    requires forall fd :: fd in s.open && s.open[fd] == Caller ==> fd == info.fd
    ensures var e := Entered(s, x, junk, name); var t := Answered(e, x, info, now);
            && Inv(t, {}) && Settled(t) && (info.fd != INVALID ==> info.fd in t.open) && Answers(t, name, x, info, now)
            && Leaked(t) == Leaked(s) && Firm(s, t)
  {
    hide Inv, InTree, Answers, Leaked, Settled;
    var e := Entered(s, x, junk, name);
    AddInv(s, x, Blank(junk, name));
    assert e.open == s.open;
    AnswerInv(e, x, info, now);
    AnswerKeeps(e, x, info, now);
    assert Descriptors(e) by { EachOwn(e, {x}); }
    AnswerLeaks(e, x, info, now);
    assert Leaked(e) == Leaked(s) by { SameLeaked(s, e); }
    assert forall y :: y in s.files ==> y != x && y in e.files && e.files[y] == s.files[y];
    FirmAfter(s, e, Answered(e, x, info, now));
  }

  // ---------- a file that became a directory of the same number

  /** The entry is left with a descriptor that was closed. */
  lemma TurnClosed(s: State, x: nat, info: Info, now: int)
    requires x in s.files && Inv(s, {x}) && Odd(s.files[x], info)
    ensures var t := Answered(FdClosed(s, x), x, info, now); Dangling(t) && Leaked(t) == Leaked(s)
  {
    var t := Answered(FdClosed(s, x), x, info, now);
    assert x in t.files && t.files[x].fd == info.fd && info.fd !in t.open;
  }

  /** The new entry is left with the descriptor of the old one. */
  lemma TurnStored(s: State, x: nat, y: nat, junk: File, name: string, info: Info, now: int)
    requires Inv(s, {}) && x in s.files && y !in s.files && info.fd != INVALID && s.files[x].fd == info.fd
    ensures var t := Answered(Entered(s, y, junk, name), y, info, now); Dangling(t) && Leaked(t) == Leaked(s)
  {
    var t := Answered(Entered(s, y, junk, name), y, info, now);
    assert s.open[info.fd] == Entry(x);
    assert y in t.files && t.files[y].fd == info.fd && t.open[info.fd] == Entry(x);
  }

  /** The old entry is left with a descriptor that was closed. */
  lemma TurnForgotten(s: State, x: nat, fd: int)
    requires Inv(s, {}) && x in s.files && fd != INVALID && s.files[x].fd == fd
    ensures Dangling(Forgotten(s, fd)) && Leaked(Forgotten(s, fd)) == Leaked(s)
  {
    assert s.open[fd] == Entry(x);
    assert x in Forgotten(s, fd).files;
  }

  // ---------- testing a cached entry again

  /** What a call leaves that answers `info`: on success the answer is cached, a file is open, and
      the caller holds it. */
  ghost predicate Served(s: State, t: State, rc: Rc, info: Info, file: nat, name: string, now: int) {
    && (rc == Ok ==> info.err == 0 && Answers(t, name, file, info, now))
    && (rc == Ok && !info.stat.isDir ==> info.fd in t.open)
    && t.refs == s.refs + if rc == Ok && !info.stat.isDir then multiset{file} else multiset{}
  }

  /** What may be found about a cached entry. */
  ghost predicate Found(s: State, x: nat, want: Wanted, r: Rc, found: Info)
    requires x in s.files
  {
    && (Whole(found) || Unwanted(r, found, want) || Odd(s.files[x], found))
    && (r == Error ==> found.fd == INVALID) && (r == Ok ==> found.err == 0)
    && (found.fd != INVALID && found.fd != s.files[x].fd ==> found.fd !in s.open)
    && (found.fd != INVALID && found.fd == s.files[x].fd ==> found.stat.uniq == s.files[x].stat.uniq)
  }

  /** Testing entry `f` again goes wrong exactly with a directory that has its descriptor. Otherwise
      the cache is valid, and nobody's descriptor is closed. Its own is lost exactly if the same
      file was found under another one. */
  ghost predicate Retold(s: State, t: State, f: File, rc: Rc, found: Info, file: nat, name: string, now: int) {
    && (Dangling(t) <==> Odd(f, found))
    && (!Odd(f, found) ==> Inv(t, {}) && Settled(t) && Usable(s, t) && Served(s, t, rc, found, file, name, now))
    && (!Odd(f, found) && !Losing(f, found) ==> Firm(s, t))
    && Leaked(t) == Leaked(s) + if Losing(f, found) then {f.fd} else {}
  }

  /** The call has a new descriptor in hand. */
  ghost function Adopted(s: State, x: nat, found: Info): State
    requires x in s.files
  {
    if found.fd != INVALID && found.fd != s.files[x].fd then s.(open := s.open[found.fd := Caller]) else s
  }

  /** Whether the entry itself takes the answer: it was not a file, or the file is the same. */
  predicate Stays(f: File, found: Info) {
    f.stat.isDir || f.err != 0 || (!found.stat.isDir && found.err == 0 && found.stat.uniq == f.stat.uniq)
  }

  /** A cached entry off the queue that is not a closed file, and what was found about it. */
  ghost predicate Retesting(s: State, x: nat, want: Wanted, r: Rc, found: Info, name: string) {
    && x in s.files && Inv(s, {x}) && InTree(s, x) && Settled(s) && s.files[x].name == name
    && !(Plain(s.files[x]) && s.files[x].fd == INVALID) && Found(s, x, want, r, found)
  }

  lemma AdoptedInv(s: State, x: nat, want: Wanted, r: Rc, found: Info, name: string)
    requires Retesting(s, x, want, r, found, name)
    ensures var t := Adopted(s, x, found);
            && Inv(t, {x}) && InTree(t, x) && Leaked(t) == Leaked(s) && FileOk(t, x)
            && (t.files[x].fd != INVALID ==> t.files[x].fd in t.open && t.open[t.files[x].fd] == Entry(x))
            && (found.fd != INVALID && found.fd != s.files[x].fd ==> found.fd in t.open && t.open[found.fd] == Caller)
            && forall fd :: fd in t.open && t.open[fd] == Caller ==> fd == found.fd && fd != s.files[x].fd
  {
    hide Inv, InTree;
    Facts(s, {x}, x);
    if found.fd != INVALID && found.fd != s.files[x].fd {
      AdoptInv(s, {x}, found.fd);
      AdoptInTree(s, x, found.fd);
    }
    Facts(Adopted(s, x, found), {x}, x);
  }

  lemma SameHolders(s: State, a: State, t: State)
    requires a.files == s.files
    ensures Firm(a, t) ==> Firm(s, t)
    ensures Usable(a, t) ==> Usable(s, t)
  {}

  /** The entry itself takes the answer. */
  lemma UpdateRetold(s: State, x: nat, want: Wanted, r: Rc, found: Info, name: string, now: int)
    requires Retesting(s, x, want, r, found, name) && !Unwanted(r, found, want) && Stays(s.files[x], found)
    ensures Retold(s, Answered(Adopted(s, x, found), x, found, now), s.files[x],
                   if found.err == 0 then Ok else Error, found,
                   x, name, now)
  {
    hide Inv, InTree, Answers, Usable, Firm, Leaked, Dangling, Settled;
    AdoptedInv(s, x, want, r, found, name);
    var f, a := s.files[x], Adopted(s, x, found);
    var t := Answered(a, x, found, now);
    assert Takes(a, x, found);
    AnswerInv(a, x, found, now);
    AnswerKeeps(a, x, found, now);
    assert Descriptors(a) by { EachOwn(a, {x}); }
    AnswerLeaks(a, x, found, now);
    NotDangling(t, {});
    SameHolders(s, a, t);
  }

  lemma UnheldFirm(s: State, t: State, x: nat)
    requires x in s.files && s.files[x].count == 0
    requires forall y :: y in s.files && y != x ==> y in t.files && t.files[y] == s.files[y]
    ensures Firm(s, t)
  {}

  lemma ClosedLeaked(s: State, x: nat)
    requires x in s.files && (s.files[x].fd in s.open ==> s.open[s.files[x].fd] == Entry(x))
    ensures Leaked(FdClosed(s, x)) == Leaked(s)
  {}

  /** A file that nobody holds is closed, and the entry takes the answer. */
  lemma ReplaceRetold(s: State, x: nat, want: Wanted, r: Rc, found: Info, name: string, now: int)
    requires Retesting(s, x, want, r, found, name) && !Unwanted(r, found, want) && !Stays(s.files[x], found)
    requires s.files[x].count == 0
    ensures Retold(s, Answered(FdClosed(Adopted(s, x, found), x), x, found, now), s.files[x],
                   if found.err == 0 then Ok else Error, found, x, name, now)
  {
    hide Inv, InTree, Answers, Usable, Firm, Leaked, Dangling, Settled;
    AdoptedInv(s, x, want, r, found, name);
    var a := Adopted(s, x, found);
    var c := FdClosed(a, x);
    var t := Answered(c, x, found, now);
    if Odd(s.files[x], found) {
      TurnClosed(s, x, found, now);
    } else {
      CloseInv(a, {x}, x);
      ClosedInTree(a, x);
      assert Takes(c, x, found);
      AnswerInv(c, x, found, now);
      AnswerKeeps(c, x, found, now);
      assert Descriptors(c) by { EachOwn(c, {x}); }
      AnswerLeaks(c, x, found, now);
      ClosedLeaked(a, x);
      NotDangling(t, {});
      assert Firm(s, c) by { UnheldFirm(s, c, x); }
      FirmAfter(s, c, t);
    }
  }

  /** What `d` keeps of `a` when entry `x`, which somebody holds, leaves the cache and room is made. */
  ghost predicate Roomier(a: State, d: State, x: nat) {
    && Inv(d, {}) && d.refs == a.refs && Leaked(d) == Leaked(a)
    && (forall y :: y in a.files && a.files[y].count > 0 ==>
                      y in d.files && d.files[y].fd == a.files[y].fd && d.files[y].count > 0)
    && (forall fd :: fd in d.open ==> fd in a.open && d.open[fd] == a.open[fd])
    && (forall fd :: fd in a.open && a.open[fd] == Caller ==> fd in d.open)
  }

  lemma DroppedRoomier(a: State, d: State, e: State, x: nat)
    requires Inv(d, {}) && Inv(e, {}) && Kept(a, d, x) && Shrunk(d, e) && d.refs == a.refs && e.refs == a.refs
    requires Leaked(d) == Leaked(a)
    requires x in a.files && a.files[x].count > 0
    requires forall fd :: fd in d.open ==> fd in a.open && d.open[fd] == a.open[fd]
    requires forall fd :: fd in a.open && !a.open[fd].Entry? ==> fd in d.open && d.open[fd] == a.open[fd]
    ensures Roomier(a, e, x)
  {
    hide Inv;
    ShrunkLeaked(d, e);
    forall y | y in a.files && a.files[y].count > 0
      ensures y in e.files && e.files[y].fd == a.files[y].fd && e.files[y].count > 0
    {
      assert y in d.files && d.files[y].fd == a.files[y].fd && d.files[y].count == a.files[y].count;
      assert e.files[y].(close := false) == d.files[y].(close := false);
      assert e.files[y].fd == e.files[y].(close := false).fd && e.files[y].count == e.files[y].(close := false).count;
    }
  }

  lemma SameFirm(s: State, t: State)
    requires forall y :: y in s.files && s.files[y].count > 0 ==> y in t.files && t.files[y].fd == s.files[y].fd
    ensures Firm(s, t)
  {}

  /** A file that somebody holds leaves the cache, and a new entry takes the answer or, without
      memory for one, its descriptor is closed. */
  lemma RenewRetold(s: State, x: nat, want: Wanted, r: Rc, found: Info, name: string, now: int, d: State, mem: Memory)
    requires Retesting(s, x, want, r, found, name) && !Unwanted(r, found, want) && !Stays(s.files[x], found)
    requires s.files[x].count > 0 && Roomier(Adopted(s, x, found), d, x) && mem.at !in d.files && name !in d.tree
    ensures var t := if mem.entry && mem.name then Answered(Entered(d, mem.at, mem.junk, name), mem.at, found, now)
                     else Forgotten(d, found.fd);
            Retold(s, t, s.files[x], if mem.entry && mem.name && found.err == 0 then Ok else Error, found, mem.at, name,
                   now)
  {
    hide Inv, InTree, Answers, Usable, Firm, Leaked, Dangling, Settled;
    AdoptedInv(s, x, want, r, found, name);
    var a := Adopted(s, x, found);
    var t := if mem.entry && mem.name then Answered(Entered(d, mem.at, mem.junk, name), mem.at, found, now)
             else Forgotten(d, found.fd);
    if Odd(s.files[x], found) {
      if mem.entry && mem.name {
        TurnStored(d, x, mem.at, mem.junk, name, found, now);
      } else {
        TurnForgotten(d, x, found.fd);
      }
    } else {
      if mem.entry && mem.name {
        CreateInv(d, mem.at, mem.junk, name, found, now);
      } else {
        ForgetInv(d, found.fd);
      }
      NotDangling(t, {});
      assert Firm(s, d) by { SameFirm(s, d); }
      FirmAfter(s, d, t);
      assert Usable(s, t) by { FirmUsable(s, {x}, t, {}); }
    }
  }

  /** An answer not to be cached: the entry leaves the cache. */
  lemma DropRetold(s: State, t: State, x: nat, want: Wanted, r: Rc, found: Info, name: string, now: int)
    requires Retesting(s, x, want, r, found, name) && Unwanted(r, found, want)
    requires Inv(t, {}) && Settled(t) && Firm(s, t) && t.refs == s.refs && Leaked(t) == Leaked(s)
    ensures Retold(s, t, s.files[x], Error, found, x, name, now)
  {
    hide Inv, InTree, Leaked, Settled, Dangling;
    NotDangling(t, {});
    FirmUsable(s, {x}, t, {});
  }

  // ---------- using an answer and letting go

  ghost function HitState(s: State, x: nat, now: int): State
    requires x in s.files
  {
    var f := s.files[x];
    if Plain(f) then
      s.(files := s.files[x := f.(count := f.count + 1, accessed := now)], refs := s.refs + multiset{x},
         queue := [x] + s.queue)
    else s.(files := s.files[x := f.(accessed := now)], queue := [x] + s.queue)
  }

  lemma HitInv(s: State, x: nat, now: int)
    requires x in s.files && Inv(s, {x}) && InTree(s, x) && !(Plain(s.files[x]) && s.files[x].fd == INVALID)
    ensures Inv(HitState(s, x, now), {})
  {
    hide Inv;
    var g := s.files[x].(accessed := now);
    TouchInv(s, {x}, x, g);
    var t := s.(files := s.files[x := g]);
    assert InTree(t, x);
    if Plain(g) {
      HoldInv(t, {x}, x);
      FrontInv(Held(t, x), x);
      assert HitState(s, x, now) == Held(t, x).(queue := [x] + s.queue);
    } else {
      FrontInv(t, x);
    }
  }

  lemma FrontAgain(s: State, x: nat, now: int)
    requires Inv(s, {}) && x in s.files && s.files[x].count > 0 && InTree(s, x)
    ensures var t := s.(files := s.files[x := s.files[x].(count := s.files[x].count - 1, accessed := now)],
                        refs := s.refs - multiset{x}, queue := [x] + Without(s.queue, x));
            Inv(t, {}) && InTree(t, x)
  {
    hide Inv;
    var r := Released(s, x);
    ReleaseInv(s, x);
    AwayInv(r, x);
    var q := r.(queue := Without(s.queue, x));
    var g := r.files[x].(accessed := now);
    TouchInv(q, {x}, x, g);
    var u := q.(files := q.files[x := g]);
    FrontInv(u, x);
    assert u.(queue := [x] + u.queue) ==
           s.(files := s.files[x := s.files[x].(count := s.files[x].count - 1, accessed := now)],
              refs := s.refs - multiset{x}, queue := [x] + Without(s.queue, x));
  }

  // ---------- what the methods need of the states between

  lemma Untouched(s: State)
    requires Inv(s, {})
    ensures !Dangling(s) && Firm(s, s) && Usable(s, s)
  {
    hide Inv;
    NotDangling(s, {});
    FirmUsable(s, {}, s, {});
  }

  lemma DroppedLeaked(s: State, t: State)
    requires forall fd :: fd in t.open ==> fd in s.open && t.open[fd] == s.open[fd]
    requires forall fd :: fd in s.open && !s.open[fd].Entry? ==> fd in t.open && t.open[fd] == s.open[fd]
    ensures Leaked(t) == Leaked(s) && (Settled(s) ==> Settled(t))
  {
    forall fd | fd in Leaked(s) ensures fd in Leaked(t) {
      assert !s.open[fd].Entry?;
    }
    forall fd | fd in Leaked(t) ensures fd in Leaked(s) {
      assert t.open[fd] == s.open[fd];
    }
  }

  lemma Dropped(s: State, t: State, x: nat)
    requires Inv(s, {x}) && Inv(t, {}) && Firm(s, t) && Settled(s)
    requires forall fd :: fd in t.open ==> fd in s.open && t.open[fd] == s.open[fd]
    requires forall fd :: fd in s.open && !s.open[fd].Entry? ==> fd in t.open && t.open[fd] == s.open[fd]
    ensures Leaked(t) == Leaked(s) && Settled(t) && !Dangling(t) && Usable(s, t)
  {
    hide Inv, Leaked, Dangling;
    DroppedLeaked(s, t);
    NotDangling(t, {});
    FirmUsable(s, {x}, t, {});
  }

  /** Nothing is new but the descriptor `fd` and the entry `at`. */
  ghost predicate NewOnly(s: State, t: State, fd: int, at: nat) {
    && (forall f :: f in t.open ==> f in s.open || (f == fd && f != INVALID))
    && (forall y :: y in t.files ==> y in s.files || y == at)
  }

  lemma AnsweredNew(s: State, x: nat, info: Info, now: int, at: nat)
    requires x in s.files
    ensures var t := Answered(s, x, info, now); t.current == s.current && NewOnly(s, t, info.fd, at)
  {}

  lemma ShrunkNew(s: State, t: State, fd: int, at: nat)
    requires Shrunk(s, t)
    ensures NewOnly(s, t, fd, at)
  {}

  lemma CreatedNew(s: State, mem: Memory, name: string, info: Info, now: int)
    ensures var t := Answered(Entered(s, mem.at, mem.junk, name), mem.at, info, now);
            t.current == s.current + 1 && NewOnly(s, t, info.fd, mem.at)
    ensures Forgotten(s, info.fd).current == s.current && NewOnly(s, Forgotten(s, info.fd), info.fd, mem.at)
  {}

  lemma AdoptedLeaked(s: State, fd: int)
    requires fd != INVALID ==> fd !in s.open
    ensures Leaked(if fd != INVALID then s.(open := s.open[fd := Caller]) else s) == Leaked(s)
  {}

  lemma ShrunkHolders(s: State, t: State)
    requires Shrunk(s, t)
    ensures forall y :: y in s.files && s.files[y].count > 0 ==> y in t.files && t.files[y].count > 0
  {
    forall y | y in s.files && s.files[y].count > 0 ensures y in t.files && t.files[y].count > 0 {
      assert t.files[y].(close := false).count == s.files[y].(close := false).count;
    }
  }

  /** A name that was not cached: a new entry answers for it, or its descriptor is closed. */
  lemma CreateServed(s: State, a: State, mid: State, mem: Memory, name: string, info: Info, now: int)
    requires Inv(s, {}) && Settled(s) && Whole(info) && (info.fd != INVALID ==> info.fd !in s.open)
    requires a == if info.fd != INVALID then s.(open := s.open[info.fd := Caller]) else s
    requires Inv(mid, {}) && Shrunk(a, mid) && mid.refs == s.refs && mem.at !in mid.files && name !in mid.tree
    ensures var t := if mem.entry && mem.name then Answered(Entered(mid, mem.at, mem.junk, name), mem.at, info, now)
                     else Forgotten(mid, info.fd);
            && Inv(t, {}) && Settled(t) && !Dangling(t) && Firm(s, t) && Usable(s, t) && Leaked(t) == Leaked(s)
            && Served(s, t, if mem.entry && mem.name && info.err == 0 then Ok else Error, info, mem.at, name, now)
            && t.current <= mid.current + 1
  {
    hide Inv, InTree, Answers, Leaked, Dangling, Usable;
    var t := if mem.entry && mem.name then Answered(Entered(mid, mem.at, mem.junk, name), mem.at, info, now)
             else Forgotten(mid, info.fd);
    ShrunkLeaked(a, mid);
    assert Leaked(a) == Leaked(s) by { AdoptedLeaked(s, info.fd); }
    if mem.entry && mem.name {
      CreateInv(mid, mem.at, mem.junk, name, info, now);
    } else {
      ForgetInv(mid, info.fd);
    }
    NotDangling(t, {});
    ShrunkFirm(a, mid);
    assert Firm(s, mid) && forall y :: y in s.files && s.files[y].count > 0 ==> mid.files[y].count > 0 by {
      ShrunkHolders(a, mid);
    }
    FirmAfter(s, mid, t);
    FirmUsable(s, {}, t, {});
  }

  /** A file that was closed is opened again in its entry. */
  lemma ReopenServed(s: State, x: nat, info: Info, now: int)
    requires x in s.files && Inv(s, {x}) && InTree(s, x) && Settled(s) && s.files[x].fd == INVALID
    requires s.files[x].count == 0
    requires Whole(info) && (info.fd != INVALID ==> info.fd !in s.open)
    ensures var a := if info.fd != INVALID then s.(open := s.open[info.fd := Caller]) else s;
            var t := Answered(a, x, info, now);
            && Inv(t, {}) && Settled(t) && !Dangling(t) && Firm(s, t) && Usable(s, t) && Leaked(t) == Leaked(s)
            && Served(s, t, if info.err == 0 then Ok else Error, info, x, s.files[x].name, now)
            && t.current == s.current
  {
    hide Inv, InTree, Answers, Leaked, Dangling, Usable;
    var a := if info.fd != INVALID then s.(open := s.open[info.fd := Caller]) else s;
    if info.fd != INVALID {
      AdoptInv(s, {x}, info.fd);
      AdoptInTree(s, x, info.fd);
    }
    AdoptedLeaked(s, info.fd);
    var t := Answered(a, x, info, now);
    AnswerInv(a, x, info, now);
    AnswerKeeps(a, x, info, now);
    assert Descriptors(a) by { EachOwn(a, {x}); }
    AnswerLeaks(a, x, info, now);
    NotDangling(t, {});
    SameHolders(s, a, t);
  }

  // ---------- the end of the cache

  /** Cached entries are gone, and all others are as they were. */
  ghost predicate Ending(s: State, t: State) {
    && (forall y :: y in t.files ==> y in s.files && t.files[y] == s.files[y] && t.refs[y] == s.refs[y])
    && (forall y :: y in t.files ==> (InTree(t, y) <==> InTree(s, y)))
    && (forall y :: y in s.files && !InTree(s, y) ==> y in t.files)
    && Leaked(t) == Leaked(s)
  }

  lemma EndingSelf(s: State)
    ensures Ending(s, s)
  {}

  lemma UnheldInTree(s: State, x: nat)
    requires InTree(s, x)
    ensures InTree(Unheld(s, x), x)
  {}

  /** One cached entry less. */
  lemma EndingNext(s: State, a: State, c: State, d: State, x: nat)
    requires Ending(s, a) && x in a.files && InTree(a, x) && c.files == a.files[x := a.files[x].(count := 0)]
    requires Kept(c, d, x) && x !in d.files && d.tree == a.tree - {a.files[x].name} && d.refs == a.refs[x := 0]
    requires Leaked(d) == Leaked(a)
    ensures Ending(s, d)
  {
    hide Leaked;
    forall y | y in d.files ensures y in a.files && d.files[y] == a.files[y] && (InTree(d, y) <==> InTree(a, y)) {}
    forall y | y in s.files && !InTree(s, y) ensures y in d.files {
      assert y in a.files && !InTree(a, y);
    }
  }

  lemma EndedRefs(s: State, t: State)
    requires Counted(s) && Counted(t) && (forall y :: y in t.files <==> y in s.files && !InTree(s, y))
    requires forall y :: y in t.files ==> t.refs[y] == s.refs[y]
    ensures (exists y :: y in s.refs && y !in t.files) <==> exists y :: InTree(s, y) && s.files[y].count > 0
    ensures (forall y :: InTree(s, y) ==> s.files[y].count == 0) ==> t.refs == s.refs
    ensures (exists y :: InTree(s, y) && s.files[y].count > 0) ==> !Counted(t.(refs := s.refs))
  {
    if y :| InTree(s, y) && s.files[y].count > 0 {
      assert y in s.refs && y !in t.files;
    }
    if y :| y in s.refs && y !in t.files {
      assert InTree(s, y) && s.files[y].count > 0;
    }
    if forall y :: InTree(s, y) ==> s.files[y].count == 0 {
      forall y ensures t.refs[y] == s.refs[y] {
        if y !in t.files {
          assert y !in t.refs;
          assert y !in s.refs;
        }
      }
    }
  }

  /** What is left when nothing is cached any more, and whether it is valid with the references
      that there were. */
  lemma Ended(s: State, t: State)
    requires Inv(s, {}) && Inv(t, {}) && Settled(t) && Ending(s, t) && t.current == 0
    ensures var u := t.(refs := s.refs);
            && u.tree == map[] && (forall y :: y in u.files <==> y in s.files && !InTree(s, y))
            && (forall y :: y in u.files ==> u.files[y] == s.files[y])
            && ((exists y :: y in u.refs && y !in u.files) <==> exists y :: InTree(s, y) && s.files[y].count > 0)
            && (Inv(u, {}) <==> forall y :: InTree(s, y) ==> s.files[y].count == 0)
  {
    assert t.tree == map[];
    var u := t.(refs := s.refs);
    assert forall y :: !InTree(t, y);
    EndedRefs(s, t);
    if forall y :: InTree(s, y) ==> s.files[y].count == 0 {
      assert u == t;
    }
  }

  /** Which descriptors are left open: those of the entries that are left, and lost ones. */
  lemma EndedOpen(s: State, t: State)
    requires Descriptors(s) && Descriptors(t) && Settled(s) && Settled(t) && Ending(s, t)
    ensures forall fd :: fd in t.open <==> fd in s.open && (s.open[fd].Entry? ==> s.open[fd].x in t.files)
  {
    hide InTree;
    forall fd | fd in t.open ensures fd in s.open && (s.open[fd].Entry? ==> s.open[fd].x in t.files) {
      assert fd in Leaked(t) || t.open[fd].x in t.files;
    }
    forall fd | fd in s.open && (s.open[fd].Entry? ==> s.open[fd].x in t.files) ensures fd in t.open {
      assert fd in Leaked(s) || s.open[fd].x in s.files;
    }
  }
}
