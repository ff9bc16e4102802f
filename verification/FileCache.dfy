/** nginx's open file cache: looking a name up, testing again what is cached, reference
    counting and expiry. What the file system answers to a call is a parameter of it, and
    events on files are off.
 */
module FileCache {

  import opened Common
  import opened FileCacheState
  import opened FileCacheAnswers

  class Cache {
    const max: nat
    const inactive: int
    var files: map<nat, File>
    var tree: map<string, nat>
    var queue: seq<nat>
    var current: nat
    ghost var open: map<int, Owner>
    ghost var refs: multiset<nat>

    ghost function St(): State
      reads this
    {
      State(files, tree, queue, current, open, refs)
    }

    ghost predicate Valid()
      reads this
    {
      1 <= max && current <= max && Inv(St(), {}) && Settled(St())
    }

    constructor (max: nat, inactive: int)
      requires max >= 1
      ensures Valid() && files == map[] && tree == map[] && open == map[] && refs == multiset{} && this.max == max
    {
      this.max, this.inactive := max, inactive;
      files, tree, queue, current, open, refs := map[], map[], [], 0, map[], multiset{};
    }

    // ---------- leaving the cache

    /** The descriptor of an entry is closed. */
    method CloseFd(x: nat)
      requires x in files && files[x].fd in open && open[files[x].fd] == Entry(x) && files[x].count == 0
      modifies `files, `open
      ensures St() == FdClosed(old(St()), x)
    {
      open := open - {files[x].fd};
      files := files[x := files[x].(fd := INVALID)];
    }

    /** An entry taken off the queue leaves the tree; it is closed and freed unless it is held. */
    method Drop(x: nat)
      requires x in files && Inv(St(), {x}) && InTree(St(), x)
      modifies this
      ensures Firm(old(St()), St())
      ensures Inv(St(), {}) && current == old(current) - 1 && refs == old(refs)
      ensures tree == old(tree) - {old(files[x].name)} && queue == old(queue)
      ensures forall fd :: fd in open ==> fd in old(open) && open[fd] == old(open[fd])
      ensures forall fd :: fd in old(open) && !old(open[fd]).Entry? ==> fd in open && open[fd] == old(open[fd])
      ensures Kept(old(St()), St(), x) && (x in files <==> old(files[x].count) > 0)
    {
      hide Inv, InTree;
      Facts(St(), {x}, x);
      tree := tree - {files[x].name};
      current := current - 1;
      if files[x].count == 0 {
        DropFree(old(St()), x);
        if files[x].fd != INVALID {
          CloseFd(x);
        }
        files := files - {x};
      } else {
        DetachInv(old(St()), x);
        files := files[x := files[x].(close := true)];
      }
    }

    /** Drops what was used least recently: with 0 one entry by force, and then one or two that
        were not used for long. */
    method Expire(first: nat, now: int)
      requires Inv(St(), {}) && first <= 1
      modifies this
      ensures Firm(old(St()), St())
      ensures Inv(St(), {}) && refs == old(refs) && Shrunk(old(St()), St())
      ensures first == 0 && old(current) > 0 ==> current < old(current)
      ensures Oldest(old(St()), St(), first, now, inactive)
    {
      hide Inv, InTree, Oldest, Expiring, Shrunk, Without, NoDup, Kept, Firm;
      var n := first;
      ShrunkSelf(St());
      OldestNone(St(), first, now, inactive);
      while n < 3
        invariant Inv(St(), {}) && refs == old(refs) && Shrunk(old(St()), St()) && n >= first
        invariant n > first == 0 && old(current) > 0 ==> current < old(current)
        invariant n == first ==> St() == old(St())
        invariant Expiring(old(St()), St(), first, n, now, inactive) && n <= 3
        decreases 3 - n
      {
        if queue == [] {
          NoneQueued(St());
          OldestEmpty(old(St()), St(), first, n, now, inactive);
          ShrunkFirm(old(St()), St());
          return;
        }
        var x := queue[|queue| - 1];
        LastQueued(St(), x);
        if n != 0 && now - files[x].accessed <= inactive {
          OldestEmpty(old(St()), St(), first, n, now, inactive);
          ShrunkFirm(old(St()), St());
          return;
        }
        ghost var s := St();
        AwayInv(s, x);
        LastOut(s);
        queue := Without(queue, x);
        AwayInTree(s, x);
        ghost var t := St();
        Drop(x);
        ShrunkStep(old(St()), s, t, St(), x);
        ExpiringNext(old(St()), s, t, St(), first, n, now, inactive);
        n := n + 1;
      }
      OldestEmpty(old(St()), St(), first, n, now, inactive);
      ShrunkFirm(old(St()), St());
    }

    // ---------- an answer

    /** An entry taken off the queue takes a new answer and goes first; a file is held by the
        caller. */
    method Update(x: nat, info: Info, now: int)
      requires x in files
      modifies this
      ensures St() == Answered(old(St()), x, info, now)
    {
      var f := files[x].(fd := info.fd, err := info.err);
      if info.err == 0 {
        f := f.(stat := info.stat, close := false);
        if !info.stat.isDir {
          f := f.(count := f.count + 1);
          refs := refs + multiset{x};
        }
      }
      open := Passed(open, x, files[x].fd, info.fd);
      files := files[x := f.(created := now, accessed := now)];
      queue := [x] + queue;
    }

    /** A full cache drops an entry. */
    method MakeRoom(now: int)
      requires Inv(St(), {}) && 1 <= max && current <= max
      modifies this
      ensures Inv(St(), {}) && current < max && refs == old(refs) && Shrunk(old(St()), St())
    {
      hide Inv, InTree;
      if current >= max {
        Expire(0, now);
      } else {
        ShrunkSelf(St());
      }
    }

    /** A descriptor that no entry took is closed by the call that opened it. */
    method Forget(fd: int)
      requires INVALID !in open
      modifies `open
      ensures St() == Forgotten(old(St()), fd)
    {
      if fd != INVALID {
        open := open - {fd};
      }
      assert open == old(open) - {fd};
    }

    /** A new entry for an answer, after making room for it; without memory for the entry its
        descriptor is closed. */
    method Create(name: string, info: Info, now: int, mem: Memory) returns (rc: Rc, ghost mid: State)
      requires Inv(St(), {}) && name !in tree && 1 <= max && current <= max && mem.at !in files
      modifies this
      ensures Inv(mid, {}) && mid.current < max && Shrunk(old(St()), mid) && mid.refs == old(refs)
      ensures name !in mid.tree && mem.at !in mid.files
      ensures rc == if mem.entry && mem.name && info.err == 0 then Ok else Error
      ensures St() == if mem.entry && mem.name then Answered(Entered(mid, mem.at, mem.junk, name), mem.at, info, now)
                      else Forgotten(mid, info.fd)
    {
      hide Inv, InTree, Answered;
      MakeRoom(now);
      mid := St();
      if !mem.entry || !mem.name {
        EachOwn(mid, {});
        Forget(info.fd);
        return Error, mid;
      }
      var x := mem.at;
      files := files[x := mem.junk.(name := name, uses := 1, count := 0, fd := INVALID, err := 1)];
      tree := tree[name := x];
      current := current + 1;
      assert St() == Entered(mid, mem.at, mem.junk, name);
      Update(x, info, now);
      return if info.err == 0 then Ok else Error, mid;
    }

    // ---------- ngx_open_cached_file

    /** What is cached under a name if it may be used without asking the file system: young
        enough, the file that was asked for, and not a file that was closed. */
    ghost predicate Fresh(name: string, want: Wanted, now: int)
      reads this
    {
      && name in tree && tree[name] in files
      && var f := files[tree[name]];
      && !(Plain(f) && f.fd == INVALID)
      && (want.uniq == 0 || want.uniq == f.stat.uniq) && now - f.created < want.valid
    }

    /** What is asked of the file system: the descriptor of the cached entry and the kind of
        file go with the question. */
    ghost function Question(name: string, want: Wanted): Info
      reads this
    {
      if name !in tree || tree[name] !in files || (Plain(files[tree[name]]) && files[tree[name]].fd == INVALID)
      then Asking(want)
      else AskingAgain(files[tree[name]])
    }

    /** Whether a call tests an open file again. */
    ghost predicate Retested(name: string, want: Wanted, now: int, mem: Memory)
      reads this
    {
      && mem.cleanup && name in tree && tree[name] in files && !Fresh(name, want, now)
      && Plain(files[tree[name]]) && files[tree[name]].fd != INVALID
    }

    /** Whether an answer needs a new entry: nothing is cached, or a file that somebody holds is
        another one now. */
    ghost predicate NeedsEntry(name: string, found: Info)
      reads this
    {
      name in tree && tree[name] in files ==>
        var f := files[tree[name]]; !(Plain(f) && f.fd == INVALID) && !Stays(f, found) && f.count > 0
    }

    /** A cached entry is used once more and taken off the queue. */
    method TakeOff(x: nat, ghost name: string, ghost want: Wanted, ghost now: int)
      requires Valid() && x in files && InTree(St(), x)
      modifies `files, `queue
      ensures Inv(St(), {x}) && InTree(St(), x) && Settled(St()) && x in files
      ensures files == old(files)[x := old(files[x]).(uses := files[x].uses)]
      ensures Fresh(name, want, now) == old(Fresh(name, want, now)) && Question(name, want) == old(Question(name, want))
      ensures Firm(old(St()), St())
      ensures forall y :: y in old(files) ==> y in files && files[y].count == old(files[y].count)
    {
      hide Inv, InTree;
      UsedInv(St(), x, (files[x].uses + 1) % 0x1_0000_0000);
      files := files[x := files[x].(uses := (files[x].uses + 1) % 0x1_0000_0000)];
      queue := Without(queue, x);
    }

    /** A file that was closed because it was not used often enough. */
    method Reopen(x: nat, want: Wanted, r: Rc, info: Info, now: int) returns (rc: Rc)
      requires x in files && Inv(St(), {x}) && InTree(St(), x) && 1 <= max && current <= max && Settled(St())
      requires files[x].fd == INVALID && files[x].count == 0
      requires Whole(info) || Unwanted(r, info, want)
      requires r == Error ==> info.fd == INVALID
      requires info.fd != INVALID ==> info.fd !in open
      requires r == Ok ==> info.err == 0
      modifies this
      ensures !Dangling(St()) && Firm(old(St()), St()) && Usable(old(St()), St()) && Leaked(St()) == old(Leaked(St()))
      ensures Valid() && (rc == Ok <==> r == Ok)
      ensures Served(old(St()), St(), rc, info, x, old(files[x].name), now) && NewOnly(old(St()), St(), info.fd, x)
    {
      hide Inv, InTree, Dangling, Leaked, Answers, Answered, Settled;
      if Unwanted(r, info, want) {
        Drop(x);
        Dropped(old(St()), St(), x);
        return Error;
      }
      ghost var s := St();
      if info.fd != INVALID {
        open := open[info.fd := Caller];
      }
      ReopenServed(s, x, info, now);
      AnsweredNew(St(), x, info, now, x);
      Update(x, info, now);
      return if info.err == 0 then Ok else Error;
    }

    /** A cached answer is used. */
    method Hit(x: nat, info: Info, now: int)
      requires x in files && Inv(St(), {x}) && InTree(St(), x) && 1 <= max && current <= max && Settled(St())
      requires !(Plain(files[x]) && files[x].fd == INVALID)
      requires info.err == files[x].err && (info.err == 0 ==> info.fd == files[x].fd && info.stat == files[x].stat)
      modifies this
      ensures !Dangling(St()) && Firm(old(St()), St()) && Usable(old(St()), St())
      ensures Valid() && open == old(open) && tree == old(tree) && queue == [x] + old(queue)
      ensures x in files && files[x] == old(files[x]).(count := files[x].count, accessed := now)
      ensures Served(old(St()), St(), if info.err == 0 then Ok else Error, info, x, old(files[x].name), now)
      ensures files.Keys == old(files.Keys)
    {
      hide Inv, InTree, Dangling, Settled;
      Facts(St(), {x}, x);
      Named(St(), {x}, x);
      HitInv(St(), x, now);
      var f := files[x];
      if Plain(f) {
        f := f.(count := f.count + 1);
        refs := refs + multiset{x};
      }
      files := files[x := f.(accessed := now)];
      queue := [x] + queue;
      SettledSame(old(St()), St());
      NotDangling(St(), {});
      FirmUsable(old(St()), {x}, St(), {});
    }

    /** A file that nobody holds is closed and its entry takes a new answer. */
    method Replace(x: nat, info: Info, now: int)
      requires x in files && files[x].fd in open && open[files[x].fd] == Entry(x) && files[x].count == 0
      modifies this
      ensures St() == Answered(FdClosed(old(St()), x), x, info, now)
    {
      hide Answered;
      CloseFd(x);
      Update(x, info, now);
    }

    /** A file that somebody holds leaves the cache, and another entry takes the answer. */
    method Renew(x: nat, name: string, ghost want: Wanted, ghost r: Rc, found: Info, now: int, mem: Memory,
                 ghost s: State)
      returns (rc: Rc)
      requires Retesting(s, x, want, r, found, name) && 1 <= max && current <= max && mem.at !in files
      requires St() == Adopted(s, x, found) && !Unwanted(r, found, want) && !Stays(s.files[x], found)
      requires s.files[x].count > 0
      modifies this
      ensures Retold(s, St(), s.files[x], rc, found, mem.at, name, now) && current <= max
      ensures NewOnly(s, St(), found.fd, mem.at)
      ensures rc == if mem.entry && mem.name && found.err == 0 then Ok else Error
    {
      hide Inv, InTree, Retold, Settled, Leaked, Answered, Entered, Forgotten, Shrunk, Firm;
      AdoptedInv(s, x, want, r, found, name);
      ghost var a := St();
      Drop(x);
      ghost var d := St();
      DroppedLeaked(a, d);
      ghost var mid;
      rc, mid := Create(name, found, now, mem);
      DroppedRoomier(a, d, mid, x);
      RenewRetold(s, x, want, r, found, name, now, mid, mem);
      CreatedNew(mid, mem, name, found, now);
      assert NewOnly(d, mid, found.fd, mem.at) by { ShrunkNew(d, mid, found.fd, mem.at); }
    }

    /** A cached entry is tested again. */
    method Retest(x: nat, name: string, want: Wanted, r: Rc, found: Info, now: int, mem: Memory)
      returns (rc: Rc, info: Info, file: nat)
      requires Retesting(St(), x, want, r, found, name) && 1 <= max && current <= max && mem.at !in files
      modifies this
      ensures Retold(old(St()), St(), old(files[x]), rc, found, file, name, now) && info == found && current <= max
      ensures NewOnly(old(St()), St(), found.fd, mem.at)
      ensures rc == Ok <==>
                r == Ok && (!Stays(old(files[x]), found) && old(files[x].count) > 0 ==> mem.entry && mem.name)
    {
      hide Inv, InTree, Retold, Settled, Leaked, Answered, Entered, Forgotten, Whole, Firm;
      info, file := found, x;
      AdoptedInv(St(), x, want, r, found, name);
      Facts(St(), {x}, x);
      ghost var s := St();
      if Unwanted(r, info, want) {
        Drop(x);
        Dropped(s, St(), x);
        DropRetold(s, St(), x, want, r, found, name, now);
        return Error, info, file;
      }
      var f := files[x];
      if info.fd != INVALID && info.fd != f.fd {
        open := open[info.fd := Caller];
      }
      assert St() == Adopted(s, x, found);
      if Stays(f, info) {
        UpdateRetold(s, x, want, r, found, name, now);
        Update(x, info, now);
        AnsweredNew(Adopted(s, x, found), x, info, now, mem.at);
        return if info.err == 0 then Ok else Error, info, file;
      }
      if f.count == 0 {
        ReplaceRetold(s, x, want, r, found, name, now);
        Replace(x, info, now);
        AnsweredNew(FdClosed(Adopted(s, x, found), x), x, info, now, mem.at);
        return if info.err == 0 then Ok else Error, info, file;
      }
      file := mem.at;
      rc := Renew(x, name, want, r, found, now, mem, s);
    }

    /** A name that is cached; its entry is off the queue. */
    method OpenFound(x: nat, name: string, want: Wanted, fs: Fs, now: int, mem: Memory)
      returns (rc: Rc, info: Info, file: nat)
      requires x in files && Inv(St(), {x}) && InTree(St(), x) && 1 <= max && current <= max && Settled(St())
      requires files[x].name == name && name in tree && tree[name] == x && Sane(fs, open) && mem.at !in files
      modifies this
      ensures Dangling(St()) <==> !old(Fresh(name, want, now)) && Turned(old(files[x]), fs)
      ensures !Dangling(St()) ==>
                Valid() && Usable(old(St()), St()) && Served(old(St()), St(), rc, info, file, name, now)
      ensures !Dangling(St()) && !(!old(Fresh(name, want, now)) && Swapped(old(files[x]), fs)) ==> Firm(old(St()), St())
      ensures Leaked(St()) == old(Leaked(St()))
              + if !old(Fresh(name, want, now)) && Swapped(old(files[x]), fs) then {old(files[x].fd)} else {}
      ensures NewOnly(old(St()), St(), if fs.open.Opens? then fs.open.fd else INVALID, mem.at)
      ensures old(Fresh(name, want, now)) ==>
                var f := old(files[x]);
                (rc == Ok <==> f.err == 0) && info.err == f.err
                && (f.err == 0 ==> info.fd == f.fd && info.stat == f.stat)
      ensures !old(Fresh(name, want, now)) ==>
                var r := OpenAndStat(old(Question(name, want)), fs);
                info == r.1 && (rc == Ok <==> r.0 == Ok && (old(NeedsEntry(name, info)) ==> mem.entry && mem.name))
    {
      hide Inv, InTree, OpenAndStat, Dangling, Firm, Usable, Leaked, Served, Settled, Whole;
      Facts(St(), {x}, x);
      info, file := Asking(want), x;
      var f := files[x];
      if f.fd == INVALID && f.err == 0 && !f.stat.isDir {
        NewAnswer(info, fs, open);
        var found := OpenAndStat(info, fs);
        info := found.1;
        rc := Reopen(x, want, found.0, info, now);
        return;
      }
      if (want.uniq == 0 || want.uniq == f.stat.uniq) && now - f.created < want.valid {
        if f.err == 0 {
          info := info.(fd := f.fd, stat := f.stat);
        } else {
          info := info.(err := f.err);
        }
        Hit(x, info, now);
        SameLeaked(old(St()), St());
        return if info.err == 0 then Ok else Error, info, x;
      }
      info := info.(testDir := f.stat.isDir, fd := f.fd, stat := Stat(f.stat.uniq, false, 0));
      SecondAnswer(f, fs, open);
      var found := OpenAndStat(info, fs);
      rc, info, file := Retest(x, name, want, found.0, found.1, now, mem);
    }

    /** A name that is not cached. */
    method OpenNew(name: string, want: Wanted, r: Rc, found: Info, now: int, mem: Memory)
      returns (rc: Rc, info: Info, file: nat)
      requires Valid() && name !in tree && mem.at !in files
      requires Whole(found) || Unwanted(r, found, want)
      requires r == Error ==> found.fd == INVALID
      requires found.fd != INVALID ==> found.fd !in open
      requires r == Ok ==> found.err == 0
      modifies this
      ensures !Dangling(St()) && Firm(old(St()), St()) && Usable(old(St()), St()) && Leaked(St()) == old(Leaked(St()))
      ensures Valid() && info == found && (rc == Ok <==> r == Ok && mem.entry && mem.name)
      ensures Served(old(St()), St(), rc, info, file, name, now) && NewOnly(old(St()), St(), info.fd, mem.at)
    {
      hide Inv, InTree, Dangling, Leaked, Answers, Answered, Entered, Forgotten, Settled, Shrunk;
      info, file := found, mem.at;
      Untouched(St());
      if Unwanted(r, info, want) { return Error, info, file; }
      ghost var s := St();
      ghost var a := if info.fd != INVALID then s.(open := s.open[info.fd := Caller]) else s;
      if info.fd != INVALID {
        AdoptInv(St(), {}, info.fd);
        open := open[info.fd := Caller];
      }
      ghost var mid;
      rc, mid := Create(name, info, now, mem);
      CreateServed(s, a, mid, mem, name, info, now);
      CreatedNew(mid, mem, name, info, now);
      ShrunkNew(a, mid, info.fd, mem.at);
    }

    /** The file, directory or error under a name, from the cache or from the file system. The
        caller holds the entry of a file until it lets go of it. A descriptor is lost exactly if
        the name of an open file was swapped while it was tested again, and an entry gets a
        descriptor that is not its own exactly if the file became a directory of the same
        number. */
    method Open(name: string, want: Wanted, fs: Fs, now: int, mem: Memory) returns (rc: Rc, info: Info, file: nat)
      requires Valid() && Sane(fs, open) && mem.at !in files
      modifies this
      ensures Dangling(St()) <==> old(Retested(name, want, now, mem)) && Turned(old(files[tree[name]]), fs)
      ensures !Dangling(St()) ==>
                Valid() && Usable(old(St()), St()) && Served(old(St()), St(), rc, info, file, name, now)
      ensures !Dangling(St()) && !(old(Retested(name, want, now, mem)) && Swapped(old(files[tree[name]]), fs)) ==>
                Firm(old(St()), St())
      ensures Leaked(St()) == old(Leaked(St()))
              + if old(Retested(name, want, now, mem)) && Swapped(old(files[tree[name]]), fs)
                then {old(files[tree[name]].fd)} else {}
      ensures NewOnly(old(St()), St(), if fs.open.Opens? then fs.open.fd else INVALID, mem.at)
      ensures !mem.cleanup ==> rc == Error && St() == old(St())
      ensures mem.cleanup && old(Fresh(name, want, now)) ==>
                var f := old(files[tree[name]]);
                (rc == Ok <==> f.err == 0) && info.err == f.err
                && (f.err == 0 ==> info.fd == f.fd && info.stat == f.stat)
      ensures mem.cleanup && !old(Fresh(name, want, now)) ==>
                var r := OpenAndStat(old(Question(name, want)), fs);
                info == r.1 && (rc == Ok <==> r.0 == Ok && (old(NeedsEntry(name, info)) ==> mem.entry && mem.name))
    {
      hide Inv, InTree, OpenAndStat, Sane, Whole, Dangling, Firm, Usable, Leaked, Answers;
      file := 0;
      info := Asking(want);
      if !mem.cleanup {
        Untouched(St());
        return Error, info, file;
      }
      if name !in tree {
        var found := OpenAndStat(info, fs);
        NewAnswer(info, fs, open);
        rc, info, file := OpenNew(name, want, found.0, found.1, now, mem);
        return;
      }
      var x := tree[name];
      Cached(St(), name);
      TakeOff(x, name, want, now);
      ghost var s := St();
      rc, info, file := OpenFound(x, name, want, fs, now, mem);
      FirmAfter(old(St()), s, St());
      SameLeaked(old(St()), s);
    }

    // ---------- ngx_open_file_cleanup

    /** A request lets go of a file that left the cache. */
    method LetGoGone(x: nat)
      requires Valid() && x in refs && x in files && files[x].count > 0 && !InTree(St(), x)
      requires files[x].fd in open && open[files[x].fd] == Entry(x)
      modifies this
      ensures FirmBut(old(St()), St(), x) && Leaked(St()) == old(Leaked(St()))
      ensures Valid() && refs == old(refs) - multiset{x}
      ensures (x in files <==> old(files[x].count) > 1) && queue == old(queue) && tree == old(tree)
      ensures old(files[x].count) == 1 ==> old(files[x].fd) !in open
    {
      hide Inv, InTree;
      ghost var s := St();
      if files[x].count == 1 {
        GoneInv(s, x);
        open := open - {files[x].fd};
        files := files - {x};
      } else {
        ReleaseInv(s, x);
        files := files[x := files[x].(count := files[x].count - 1)];
      }
      refs := refs - multiset{x};
    }

    /** A request lets go of a cached file. */
    method LetGoCached(x: nat, minUses: nat, now: int)
      requires Valid() && x in refs && x in files && files[x].count > 0 && InTree(St(), x)
      requires files[x].fd in open && open[files[x].fd] == Entry(x)
      modifies this
      ensures FirmBut(old(St()), St(), x) && Leaked(St()) == old(Leaked(St()))
      ensures Valid() && refs == old(refs) - multiset{x}
      ensures queue == [x] + Without(old(queue), x) && x in files && files[x].accessed == now
      ensures files[x].count == old(files[x].count) - 1
      ensures files[x].fd == if old(files[x].uses) < minUses && old(files[x].count) == 1 then INVALID
                             else old(files[x].fd)
    {
      hide Inv, InTree;
      FrontAgain(St(), x, now);
      files := files[x := files[x].(count := files[x].count - 1, accessed := now)];
      refs := refs - multiset{x};
      queue := [x] + Without(queue, x);
      if files[x].uses >= minUses || files[x].count > 0 { return; }
      CloseInv(St(), {}, x);
      CloseFd(x);
    }

    /** A request lets go of a file. A cached one goes first on the queue, and is closed when it
        is not used often enough; one that left the cache is closed and freed by its last
        holder. */
    method Release(x: nat, minUses: nat, now: int)
      requires Valid() && x in refs
      modifies this
      ensures FirmBut(old(St()), St(), x) && Leaked(St()) == old(Leaked(St()))
      ensures Valid() && refs == old(refs) - multiset{x}
    {
      hide Inv, InTree;
      HeldFacts(St(), x);
      if files[x].close {
        LetGoGone(x);
      } else {
        LetGoCached(x, minUses, now);
      }
      ghost var s := St();
      Expire(1, now);
      ShrunkLeaked(s, St());
    }

    // ---------- ngx_open_file_cache_cleanup

    /** The end of the cache: every cached entry is closed and freed, whoever holds it. What is left
        are the entries that left the cache before. A request is left with an entry that was freed
        exactly if somebody held a cached file. */
    method Destroy()
      requires Valid()
      modifies this
      ensures tree == map[] && queue == [] && current == 0 && refs == old(refs)
      ensures forall y :: y in files <==> y in old(files) && !InTree(old(St()), y)
      ensures forall y :: y in files ==> files[y] == old(files[y])
      ensures forall fd :: fd in open <==> fd in old(open) && (old(open[fd]).Entry? ==> old(open[fd]).x in files)
      ensures (exists y :: y in refs && y !in files) <==> exists y :: InTree(old(St()), y) && old(files)[y].count > 0
      ensures Valid() <==> forall y :: InTree(old(St()), y) ==> old(files)[y].count == 0
    {
      hide Inv, InTree, Ending, Settled, Leaked, Kept;
      ghost var s := St();
      EndingSelf(s);
      while queue != []
        invariant Inv(St(), {}) && Settled(St()) && Ending(s, St()) && current <= max
        decreases current
      {
        var x := queue[|queue| - 1];
        ghost var a := St();
        LastQueued(a, x);
        Facts(a, {}, x);
        UnheldInv(a, x);
        if Plain(files[x]) {
          files := files[x := files[x].(count := 0)];
        }
        refs := refs[x := 0];
        ghost var b := St();
        assert b == Unheld(a, x);
        UnheldInTree(a, x);
        AwayInv(b, x);
        AwayInTree(b, x);
        queue := Without(queue, x);
        ghost var c := St();
        SettledSame(a, c);
        SameLeaked(a, c);
        Drop(x);
        Dropped(c, St(), x);
        EndingNext(s, a, c, St(), x);
      }
      NoneQueued(St());
      Ended(s, St());
      EachOwn(s, {});
      EachOwn(St(), {});
      EndedOpen(s, St());
      ghost var t := St();
      refs := s.refs;
      SettledSame(t, St());
    }
  }

  // ---------- runs in which the code goes wrong

  const JUNK := File("", INVALID, Stat(0, false, 0), 0, 0, 0, false, 0, 0)

  /** A cache with one open file, number 7 under descriptor 3, that a request holds. */
  method OneFile() returns (c: Cache)
    ensures fresh(c) && c.Valid() && Leaked(c.St()) == {} && (forall fd :: fd in c.open ==> fd == 3)
    ensures forall y :: y in c.files ==> y == 0
    ensures InTree(c.St(), 0) && c.files[0].name == "a" && 0 in c.refs
    ensures Plain(c.files[0]) && c.files[0].fd == 3 && c.files[0].stat.uniq == 7
  {
    hide Inv, Settled;
    c := new Cache(1, 60);
    var file := Stat(7, false, 0);
    var rc, info, x := c.Open("a", Wanted(0, 60, true), Fs(Says(file), Opens(3), Says(file)), 0,
                              Memory(true, true, true, 0, JUNK));
    assert x in c.files && x == 0;
  }

  /** The name leads to file 8 when it is looked at and to file 7 again when it is opened: descriptor
      3 stays open, and no entry has it. */
  method LoseOne() returns (c: Cache)
    ensures c.Valid() && 3 in c.open && forall y :: y in c.files ==> c.files[y].fd != 3
  {
    hide Inv, Settled;
    c := OneFile();
    var rc, info, x := c.Open("a", Wanted(8, 60, true),
                              Fs(Says(Stat(8, false, 0)), Opens(4), Says(Stat(7, false, 0))), 1,
                              Memory(true, true, true, 1, JUNK));
    assert 3 in Leaked(c.St());
    EachOwn(c.St(), {});
  }

  /** The name leads to a directory of number 7: an entry is left with a descriptor that is not its
      own. */
  method TurnOne() returns (c: Cache)
    ensures Dangling(c.St())
  {
    hide Inv, Settled;
    c := OneFile();
    var rc, info, x := c.Open("a", Wanted(8, 60, true), Fs(Says(Stat(7, true, 0)), Opens(4), Says(Stat(7, true, 0))), 1,
                              Memory(true, true, true, 1, JUNK));
  }

  /** The cache ends while a request holds the file: its entry is freed and its descriptor closed. */
  method EndHeld() returns (c: Cache)
    ensures 0 in c.refs && 0 !in c.files && 3 !in c.open && !c.Valid()
  {
    hide Inv, Settled;
    c := OneFile();
    HeldFacts(c.St(), 0);
    c.Destroy();
  }
}
