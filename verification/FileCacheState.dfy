/** The state of nginx's open file cache: entries in memory, the tree that finds them by name,
    the queue in order of use, the descriptors of the process and the references of requests;
    and what its steps keep.
 */
module FileCacheState {

  import opened Common

  const INVALID: int := -1

  datatype Stat = Stat(uniq: nat, isDir: bool, info: nat)

  /** A cached file, directory or error. */
  datatype File = File(name: string, fd: int, stat: Stat, err: nat, uses: nat, count: nat, close: bool,
                       created: int, accessed: int)

  /** An entry for a file rather than for a directory or an error. */
  predicate Plain(f: File) { f.err == 0 && !f.stat.isDir }

  /** Who has to close a descriptor: an entry, the call that opened it, or nobody any more. */
  datatype Owner = Entry(x: nat) | Caller | Nobody

  /** `refs` counts the requests that hold an entry. */
  datatype State = State(files: map<nat, File>, tree: map<string, nat>, queue: seq<nat>, current: nat,
                         open: map<int, Owner>, refs: multiset<nat>)

  ghost predicate InTree(s: State, x: nat) {
    x in s.files && s.files[x].name in s.tree && s.tree[s.files[x].name] == x
  }

  /** The tree holds entries under their names, as many as `current` says; the queue holds the
      same entries but for those of `away`. */
  ghost predicate Indexed(s: State, away: set<nat>) {
    && (forall n :: n in s.tree ==> s.tree[n] in s.files && s.files[s.tree[n]].name == n)
    && s.current == |s.tree|
    && NoDup(s.queue)
    && (forall x :: x in s.queue <==> InTree(s, x) && x !in away)
  }

  /** A cached entry that is not a plain file is held by nobody and has no descriptor. An entry
      that left the cache is a plain open file that somebody holds. */
  ghost predicate FileOk(s: State, x: nat)
    requires x in s.files
  {
    var f := s.files[x];
    if InTree(s, x) then
      if Plain(f) then !f.close && (f.fd == INVALID ==> f.count == 0)
      else f.count == 0 && f.fd == INVALID
    else f.close && f.count > 0 && f.fd != INVALID && Plain(f)
  }

  /** Each entry owns its descriptor. What else is open a call is about to store, or it is lost. */
  ghost predicate Descriptors(s: State) {
    && INVALID !in s.open
    && (forall x :: x in s.files && s.files[x].fd != INVALID ==>
          s.files[x].fd in s.open && s.open[s.files[x].fd] == Entry(x))
    && (forall fd :: fd in s.open && s.open[fd].Entry? ==> s.open[fd].x in s.files && s.files[s.open[fd].x].fd == fd)
  }

  /** The count of an entry is the number of its holders. */
  ghost predicate Counted(s: State) {
    && (forall x :: x in s.files ==> s.files[x].count == s.refs[x])
    && (forall x :: x in s.refs ==> x in s.files)
  }

  ghost predicate Inv(s: State, away: set<nat>) {
    Indexed(s, away) && Descriptors(s) && Counted(s) && forall x :: x in s.files ==> FileOk(s, x)
  }

  /** No descriptor is in the hands of a call. */
  ghost predicate Settled(s: State) {
    forall fd :: fd in s.open ==> s.open[fd] != Caller
  }

  /** The descriptors that stay open and that nobody will close. */
  ghost function Leaked(s: State): set<int> {
    set fd | fd in s.open && s.open[fd] == Nobody
  }

  /** Some entry has a descriptor that is closed or that belongs to another one. */
  ghost predicate Dangling(s: State) {
    exists y :: y in s.files && s.files[y].fd != INVALID
                && (s.files[y].fd in s.open ==> s.open[s.files[y].fd] != Entry(y))
  }

  // ---------- the queue

  function Without(q: seq<nat>, x: nat): (r: seq<nat>)
    ensures forall y :: y in r <==> y in q && y != x
    ensures NoDup(q) ==> NoDup(r)
  {
    if q == [] then []
    else if q[0] == x then Without(q[1..], x)
    else
      var r := Without(q[1..], x);
      assert NoDup(q) ==> NoDup(q[1..]) && q[0] !in q[1..];
      [q[0]] + r
  }

  // ---------- what a step at one entry leaves alone

  lemma SameDescriptors(s: State, t: State)
    requires Descriptors(s) && t.open == s.open
    requires forall y :: y in t.files <==> y in s.files
    requires forall y :: y in s.files ==> t.files[y].fd == s.files[y].fd
    ensures Descriptors(t)
  {}

  lemma SameCounts(s: State, t: State)
    requires Counted(s) && t.refs == s.refs
    requires forall y :: y in t.files <==> y in s.files
    requires forall y :: y in s.files ==> t.files[y].count == s.files[y].count
    ensures Counted(t)
  {}

  lemma OtherFiles(s: State, t: State, x: nat)
    requires forall y :: y in s.files ==> FileOk(s, y)
    requires forall y :: y in t.files && y != x ==>
               y in s.files && t.files[y] == s.files[y] && (InTree(t, y) <==> InTree(s, y))
    requires x in t.files ==> FileOk(t, x)
    ensures forall y :: y in t.files ==> FileOk(t, y)
  {
    hide InTree;
    forall y | y in t.files ensures FileOk(t, y) {
      if y != x { assert FileOk(s, y); }
    }
  }

  /** The index is the same while the name of an entry is. */
  lemma SameIndex(s: State, t: State, x: nat, away: set<nat>)
    requires Indexed(s, away) && t.tree == s.tree && t.queue == s.queue && t.current == s.current
    requires x in s.files && x in t.files && t.files == s.files[x := t.files[x]] && t.files[x].name == s.files[x].name
    ensures Indexed(t, away) && forall y :: InTree(t, y) <==> InTree(s, y)
  {
    assert forall y :: InTree(t, y) <==> InTree(s, y);
  }

  lemma Queued(s: State, t: State, away: set<nat>, away': set<nat>)
    requires Indexed(s, away) && t == s.(queue := t.queue) && NoDup(t.queue)
    requires forall y :: y in t.queue <==> InTree(s, y) && y !in away'
    ensures Indexed(t, away') && forall y :: InTree(t, y) <==> InTree(s, y)
  {
    assert forall y :: InTree(t, y) <==> InTree(s, y);
  }

  // ---------- on and off the queue

  lemma OtherFile(s: State, t: State)
    requires (forall y :: y in s.files ==> FileOk(s, y)) && t.files == s.files
    requires forall y :: InTree(t, y) <==> InTree(s, y)
    ensures forall y :: y in t.files ==> FileOk(t, y)
  {
    hide InTree;
    forall y | y in t.files ensures FileOk(t, y) { assert FileOk(s, y); }
  }

  /** Taking a cached entry off the queue. */
  lemma AwayInv(s: State, x: nat)
    requires Inv(s, {}) && InTree(s, x)
    ensures Inv(s.(queue := Without(s.queue, x)), {x})
  {
    hide Descriptors, Counted, FileOk, InTree, NoDup;
    var t := s.(queue := Without(s.queue, x));
    Queued(s, t, {}, {x});
    SameDescriptors(s, t);
    SameCounts(s, t);
    OtherFile(s, t);
  }

  /** And putting it first. */
  lemma FrontInv(s: State, x: nat)
    requires Inv(s, {x}) && InTree(s, x)
    ensures Inv(s.(queue := [x] + s.queue), {})
  {
    hide Descriptors, Counted, FileOk, InTree;
    var t := s.(queue := [x] + s.queue);
    forall y ensures y in t.queue <==> InTree(s, y) && y !in {} {
      assert y in s.queue <==> InTree(s, y) && y !in {x};
    }
    Queued(s, t, {x}, {});
    SameDescriptors(s, t);
    SameCounts(s, t);
    OtherFile(s, t);
  }

  // ---------- one entry

  ghost predicate Alike(f: File, g: File) {
    g.name == f.name && g.fd == f.fd && Plain(g) == Plain(f) && g.count == f.count && g.close == f.close
  }

  /** What an entry is may be written without consequence where it says the same. */
  lemma TouchInv(s: State, away: set<nat>, x: nat, g: File)
    requires Inv(s, away) && x in s.files && Alike(s.files[x], g)
    ensures Inv(s.(files := s.files[x := g]), away)
  {
    hide Indexed, Descriptors, Counted, InTree;
    var t := s.(files := s.files[x := g]);
    SameIndex(s, t, x, away);
    SameDescriptors(s, t);
    SameCounts(s, t);
    assert FileOk(s, x);
    OtherFiles(s, t, x);
  }

  function Held(s: State, x: nat): State
    requires x in s.files
  {
    s.(files := s.files[x := s.files[x].(count := s.files[x].count + 1)], refs := s.refs + multiset{x})
  }

  lemma HeldCounts(s: State, x: nat)
    requires Counted(s) && x in s.files
    ensures Counted(Held(s, x))
  {}

  /** A request takes hold of an open file. */
  lemma HoldInv(s: State, away: set<nat>, x: nat)
    requires Inv(s, away) && x in s.files && InTree(s, x) && Plain(s.files[x]) && s.files[x].fd != INVALID
    ensures Inv(Held(s, x), away)
  {
    hide Indexed, Descriptors, Counted, InTree;
    var t := Held(s, x);
    SameIndex(s, t, x, away);
    SameDescriptors(s, t);
    HeldCounts(s, x);
    assert FileOk(s, x);
    OtherFiles(s, t, x);
  }

  function FdClosed(s: State, x: nat): State
    requires x in s.files
  {
    s.(files := s.files[x := s.files[x].(fd := INVALID)], open := s.open - {s.files[x].fd})
  }

  lemma ClosedDescriptors(s: State, x: nat)
    requires Descriptors(s) && x in s.files
    ensures Descriptors(FdClosed(s, x))
  {}

  /** The descriptor of a cached entry that nobody holds may be closed. */
  lemma CloseInv(s: State, away: set<nat>, x: nat)
    requires Inv(s, away) && x in s.files && InTree(s, x) && s.files[x].count == 0
    ensures Inv(FdClosed(s, x), away)
  {
    hide Indexed, Descriptors, Counted, InTree;
    var t := FdClosed(s, x);
    SameIndex(s, t, x, away);
    ClosedDescriptors(s, x);
    SameCounts(s, t);
    assert FileOk(s, x);
    OtherFiles(s, t, x);
  }

  function Stored(s: State, x: nat, g: File): State
    requires x in s.files
  {
    s.(files := s.files[x := g], open := if g.fd != INVALID then s.open[g.fd := Entry(x)] else s.open)
  }

  lemma StoredDescriptors(s: State, x: nat, g: File)
    requires Descriptors(s) && x in s.files && s.files[x].fd == INVALID
    requires g.fd != INVALID ==> g.fd in s.open && s.open[g.fd] == Caller
    ensures Descriptors(Stored(s, x, g))
  {}

  /** An entry without descriptor and holder takes what a call found, with the descriptor that
      the call opened. */
  lemma StoreInv(s: State, away: set<nat>, x: nat, g: File)
    requires Inv(s, away) && x in s.files && InTree(s, x) && s.files[x].fd == INVALID && s.files[x].count == 0
    requires g.name == s.files[x].name && g.count == 0 && (if Plain(g) then !g.close else g.fd == INVALID)
    requires g.fd != INVALID ==> g.fd in s.open && s.open[g.fd] == Caller
    ensures Inv(Stored(s, x, g), away)
  {
    hide Indexed, Descriptors, Counted, InTree;
    var t := Stored(s, x, g);
    SameIndex(s, t, x, away);
    StoredDescriptors(s, x, g);
    SameCounts(s, t);
    OtherFiles(s, t, x);
  }

  /** The open file of an entry is replaced by another one, and its descriptor is lost. */
  function Swapping(s: State, x: nat, g: File): State
    requires x in s.files
  {
    s.(files := s.files[x := g], open := s.open[s.files[x].fd := Nobody][g.fd := Entry(x)])
  }

  lemma SwappedDescriptors(s: State, x: nat, g: File)
    requires Descriptors(s) && x in s.files && s.files[x].fd != INVALID && g.fd != INVALID && g.fd != s.files[x].fd
    requires g.fd in s.open && s.open[g.fd] == Caller
    ensures Descriptors(Swapping(s, x, g))
  {}

  lemma SwapInv(s: State, away: set<nat>, x: nat, g: File)
    requires Inv(s, away) && x in s.files && InTree(s, x) && Plain(s.files[x]) && s.files[x].fd != INVALID
    requires g.name == s.files[x].name && g.count == s.files[x].count && Plain(g) && !g.close && g.fd != s.files[x].fd
    requires g.fd != INVALID && g.fd in s.open && s.open[g.fd] == Caller
    ensures Inv(Swapping(s, x, g), away)
  {
    hide Indexed, Descriptors, Counted, InTree;
    var t := Swapping(s, x, g);
    SameIndex(s, t, x, away);
    SwappedDescriptors(s, x, g);
    SameCounts(s, t);
    OtherFiles(s, t, x);
  }

  /** The count of a cached entry is set to 0 as if nobody held it. */
  function Unheld(s: State, x: nat): State
    requires x in s.files
  {
    s.(files := s.files[x := s.files[x].(count := 0)], refs := s.refs[x := 0])
  }

  lemma UnheldInv(s: State, x: nat)
    requires Inv(s, {}) && x in s.files && InTree(s, x)
    ensures Inv(Unheld(s, x), {})
  {
    hide Indexed, Descriptors, InTree;
    var t := Unheld(s, x);
    SameIndex(s, t, x, {});
    SameDescriptors(s, t);
    assert FileOk(s, x);
    OtherFiles(s, t, x);
  }

  lemma NotDangling(s: State, away: set<nat>)
    requires Inv(s, away)
    ensures !Dangling(s)
  {}

  // ---------- into and out of the tree

  function Added(s: State, x: nat, g: File): State {
    s.(files := s.files[x := g], tree := s.tree[g.name := x], current := s.current + 1,
       open := if g.fd != INVALID then s.open[g.fd := Entry(x)] else s.open)
  }

  lemma AddIndexed(s: State, t: State, x: nat, g: File)
    requires Indexed(s, {}) && x !in s.files && g.name !in s.tree
    requires t.files == s.files[x := g] && t.tree == s.tree[g.name := x] && t.current == s.current + 1
    requires t.queue == s.queue
    ensures Indexed(t, {x}) && forall y :: InTree(t, y) <==> InTree(s, y) || y == x
  {
    assert forall y :: InTree(t, y) <==> InTree(s, y) || y == x;
    hide InTree;
    forall y ensures y in t.queue <==> InTree(t, y) && y !in {x} {
      assert y in s.queue <==> InTree(s, y) && y !in {};
    }
  }

  lemma AddParts(s: State, x: nat, g: File)
    requires Descriptors(s) && Counted(s) && x !in s.files && g.count == 0
    requires g.fd != INVALID ==> g.fd in s.open && s.open[g.fd] == Caller
    ensures Descriptors(Added(s, x, g)) && Counted(Added(s, x, g))
  {
    assert x !in s.refs;
  }

  /** A new entry, not yet on the queue. */
  lemma AddInv(s: State, x: nat, g: File)
    requires Inv(s, {}) && x !in s.files && g.name !in s.tree && g.count == 0
    requires if Plain(g) then !g.close else g.fd == INVALID
    requires g.fd != INVALID ==> g.fd in s.open && s.open[g.fd] == Caller
    ensures Inv(Added(s, x, g), {x}) && InTree(Added(s, x, g), x)
  {
    hide Indexed, Descriptors, Counted, InTree;
    var t := Added(s, x, g);
    AddIndexed(s, t, x, g);
    AddParts(s, x, g);
    OtherFiles(s, t, x);
  }

  function Detached(s: State, x: nat): State
    requires x in s.files && s.current > 0
  {
    s.(files := s.files[x := s.files[x].(close := true)], tree := s.tree - {s.files[x].name}, current := s.current - 1)
  }

  lemma TreeLess(s: State, x: nat, away: set<nat>)
    requires InTree(s, x) && Indexed(s, away)
    ensures s.current > 0 && |s.tree - {s.files[x].name}| == s.current - 1
  {
    var n := s.files[x].name;
    assert (s.tree - {n})[n := x] == s.tree;
  }

  lemma OutOfTree(s: State, t: State, x: nat)
    requires Indexed(s, {x}) && x in s.files && InTree(s, x) && t.tree == s.tree - {s.files[x].name}
    requires forall y :: y in t.files && y != x ==> y in s.files && t.files[y] == s.files[y]
    requires forall y :: y in s.files && y != x ==> y in t.files
    requires x in t.files ==> t.files[x].name == s.files[x].name
    requires t.queue == s.queue && t.current == |t.tree|
    ensures Indexed(t, {}) && forall y :: InTree(t, y) <==> InTree(s, y) && y != x
  {
    forall y ensures InTree(t, y) <==> InTree(s, y) && y != x {}
    forall y ensures y in t.queue <==> InTree(t, y) && y !in {} {
      assert y in s.queue <==> InTree(s, y) && y !in {x};
    }
  }

  /** An entry that somebody holds leaves the cache and stays in memory. */
  lemma DetachInv(s: State, x: nat)
    requires Inv(s, {x}) && x in s.files && InTree(s, x) && s.files[x].count > 0
    ensures s.current > 0 && Inv(Detached(s, x), {})
  {
    hide Indexed, Descriptors, Counted, InTree;
    TreeLess(s, x, {x});
    var t := Detached(s, x);
    OutOfTree(s, t, x);
    SameDescriptors(s, t);
    SameCounts(s, t);
    assert FileOk(s, x);
    OtherFiles(s, t, x);
  }

  function Erased(s: State, x: nat): State
    requires x in s.files && s.current > 0
  {
    s.(files := s.files - {x}, tree := s.tree - {s.files[x].name}, current := s.current - 1)
  }

  lemma ErasedParts(s: State, t: State, x: nat)
    requires Descriptors(s) && Counted(s) && x in s.files && s.files[x].count == 0 && s.files[x].fd == INVALID
    requires t.files == s.files - {x} && t.open == s.open && t.refs == s.refs
    ensures Descriptors(t) && Counted(t)
  {
    assert x !in s.refs;
  }

  /** An entry that nobody holds and that has no descriptor is freed. */
  lemma EraseInv(s: State, x: nat)
    requires Inv(s, {x}) && x in s.files && InTree(s, x) && s.files[x].count == 0 && s.files[x].fd == INVALID
    ensures s.current > 0 && Inv(Erased(s, x), {})
  {
    hide Indexed, Descriptors, Counted, InTree;
    TreeLess(s, x, {x});
    var t := Erased(s, x);
    OutOfTree(s, t, x);
    ErasedParts(s, t, x);
    OtherFiles(s, t, x);
  }

  // ---------- letting go

  function Released(s: State, x: nat): State
    requires x in s.files && s.files[x].count > 0
  {
    s.(files := s.files[x := s.files[x].(count := s.files[x].count - 1)], refs := s.refs - multiset{x})
  }

  lemma ReleasedCounts(s: State, x: nat)
    requires Counted(s) && x in s.files && s.files[x].count > 0
    ensures Counted(Released(s, x))
  {}

  /** A request lets go of an entry that is cached or held by another one. */
  lemma ReleaseInv(s: State, x: nat)
    requires Inv(s, {}) && x in s.files && s.files[x].count > 0 && (InTree(s, x) || s.files[x].count > 1)
    ensures Inv(Released(s, x), {})
  {
    hide Indexed, Descriptors, Counted, InTree;
    var t := Released(s, x);
    SameIndex(s, t, x, {});
    SameDescriptors(s, t);
    ReleasedCounts(s, x);
    assert FileOk(s, x);
    OtherFiles(s, t, x);
  }

  function Gone(s: State, x: nat): State
    requires x in s.files
  {
    s.(files := s.files - {x}, refs := s.refs - multiset{x}, open := s.open - {s.files[x].fd})
  }

  lemma GoneIndexed(s: State, t: State, x: nat)
    requires Indexed(s, {}) && !InTree(s, x) && t.files == s.files - {x}
    requires t.tree == s.tree && t.queue == s.queue && t.current == s.current
    ensures Indexed(t, {}) && forall y :: InTree(t, y) <==> InTree(s, y)
  {
    assert forall y :: InTree(t, y) <==> InTree(s, y);
  }

  lemma GoneDescriptors(s: State, x: nat)
    requires Descriptors(s) && x in s.files && s.files[x].fd != INVALID
    ensures Descriptors(Gone(s, x)) && s.files[x].fd in s.open
  {}

  lemma GoneCounts(s: State, x: nat)
    requires Counted(s) && x in s.files && s.files[x].count == 1
    ensures Counted(Gone(s, x))
  {}

  /** The last holder of an entry that left the cache closes and frees it. */
  lemma GoneInv(s: State, x: nat)
    requires Inv(s, {}) && x in s.files && s.files[x].count == 1 && !InTree(s, x)
    ensures Inv(Gone(s, x), {}) && s.files[x].fd in s.open
  {
    hide Indexed, Descriptors, Counted, InTree;
    var t := Gone(s, x);
    assert FileOk(s, x);
    GoneIndexed(s, t, x);
    GoneCounts(s, x);
    GoneDescriptors(s, x);
    OtherFiles(s, t, x);
  }
}
