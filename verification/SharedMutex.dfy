/** nginx's mutex in shared memory: an atomic word, whose top bit is the lock and
    whose other bits count waiters, and a POSIX semaphore. Any number of processes
    run ngx_shmtx_lock, ngx_shmtx_trylock and ngx_shmtx_unlock; a step is one load,
    one compare-and-set, one semaphore call or one local branch of one process.
 */
module SharedMutex {

  import opened Common

  type Pid = nat

  const LOCK := 0x8000_0000

  /** ngx_uint_t wraps around here. */
  const WORD_SIZE := 0x1_0000_0000_0000_0000

  /** ngx_ncpu > 1, mtx->spin and mtx->semaphore */
  datatype Config = Config(multiCpu: bool, spin: nat, semaphore: bool)

  /** Where a process stands, with the local value it has loaded. */
  datatype PC =
    | Idle
    // ngx_shmtx_trylock
    | TryLoad
    | TryCas(val: nat)
    // ngx_shmtx_lock
    | LockLoad
    | LockCas(val: nat)
    | SpinTest(n: nat)
    | SpinLoad(n: nat)
    | SpinCas(n: nat, val: nat)
    | WaitLoad
    | WaitCas(val: nat)
    | SemWait
    // the mutex is held
    | Held
    // ngx_shmtx_unlock
    | UnlockLoad
    | UnlockCas(val: nat)
    | SemPost

  datatype State = State(word: nat, sem: nat, procs: map<Pid, PC>)

  /** What a process does next: call a function, go on, or be interrupted in sem_wait. */
  datatype Action = CallLock | CallTryLock | CallUnlock | Go | Interrupt

  predicate BitSet(word: nat) { word / LOCK % 2 == 1 }

  function Waiters(word: nat): nat { word % LOCK }

  function At(s: State, p: Pid, pc: PC): State
    requires p in s.procs
  {
    s.(procs := s.procs[p := pc])
  }

  /** The compare-and-set that takes the lock, tried after loading `val`. */
  function TakeLock(s: State, p: Pid, val: nat, otherwise: PC): State
    requires p in s.procs
  {
    if !BitSet(val) && s.word == val
    then At(s, p, Held).(word := val + LOCK)
    else At(s, p, otherwise)
  }

  /** One step of process `p`; None when it cannot take this action now. */
  function Step(cfg: Config, s: State, p: Pid, a: Action): Option<State> {
    if p !in s.procs then None
    else match (s.procs[p], a)
      case (Idle, CallLock) => Some(At(s, p, LockLoad))
      case (Idle, CallTryLock) => Some(At(s, p, TryLoad))
      case (Held, CallUnlock) => Some(At(s, p, UnlockLoad))

      case (TryLoad, Go) => Some(At(s, p, TryCas(s.word)))
      case (TryCas(val), Go) => Some(TakeLock(s, p, val, Idle))

      case (LockLoad, Go) => Some(At(s, p, LockCas(s.word)))
      case (LockCas(val), Go) =>
        Some(TakeLock(s, p, val, if cfg.multiCpu then SpinTest(1) else WaitLoad))
      case (SpinTest(n), Go) => Some(At(s, p, if n < cfg.spin then SpinLoad(n) else WaitLoad))
      case (SpinLoad(n), Go) => Some(At(s, p, SpinCas(n, s.word)))
      case (SpinCas(n, val), Go) => Some(TakeLock(s, p, val, SpinTest(2 * n % WORD_SIZE)))
      case (WaitLoad, Go) => Some(At(s, p, if cfg.semaphore then WaitCas(s.word) else LockLoad))
      case (WaitCas(val), Go) =>
        Some(if BitSet(val) && s.word == val
             then At(s, p, SemWait).(word := val + 1)
             else At(s, p, LockLoad))
      case (SemWait, Go) =>
        if s.sem > 0 then Some(At(s, p, LockLoad).(sem := s.sem - 1)) else None
      case (SemWait, Interrupt) => Some(s)

      case (UnlockLoad, Go) => Some(At(s, p, UnlockCas(s.word)))
      case (UnlockCas(val), Go) =>
        var wait := Waiters(val);
        Some(if s.word == val
             then At(s, p, if wait == 0 || !cfg.semaphore then Idle else SemPost)
                  .(word := if wait > 0 then wait - 1 else 0)
             else At(s, p, UnlockLoad))
      case (SemPost, Go) => Some(At(s, p, Idle).(sem := s.sem + 1))

      case _ => None
  }

  /** A run: which process took which action, one step after another. */
  function Run(cfg: Config, s: State, trace: seq<(Pid, Action)>): Option<State>
    decreases |trace|
  {
    if trace == [] then Some(s)
    else match Step(cfg, s, trace[0].0, trace[0].1)
      case None => None
      case Some(s') => Run(cfg, s', trace[1..])
  }

  predicate Init(s: State) {
    s.word == 0 && s.sem == 0 && forall p :: p in s.procs ==> s.procs[p] == Idle
  }

  predicate Holds(pc: PC) { pc.Held? || pc.UnlockLoad? || pc.UnlockCas? }

  predicate Waits(pc: PC) { pc.SemWait? }

  predicate Posts(pc: PC) { pc.SemPost? }

  /** In the loop of ngx_shmtx_lock, and not blocked. */
  predicate Retries(pc: PC) {
    pc.LockLoad? || pc.LockCas? || pc.SpinTest? || pc.SpinLoad? || pc.SpinCas? || pc.WaitLoad? || pc.WaitCas?
  }

  ghost function Those(procs: map<Pid, PC>, P: PC -> bool): set<Pid> {
    set p | p in procs && P(procs[p])
  }

  ghost function Count(procs: map<Pid, PC>, P: PC -> bool): nat {
    |Those(procs, P)|
  }

  lemma CountMoved(procs: map<Pid, PC>, p: Pid, pc: PC, P: PC -> bool)
    requires p in procs
    ensures Count(procs[p := pc], P) ==
      Count(procs, P) - (if P(procs[p]) then 1 else 0) + (if P(pc) then 1 else 0)
    ensures P(procs[p]) ==> Count(procs, P) >= 1
  {
    var before := Those(procs, P);
    assert P(procs[p]) ==> p in before;
    var after := Those(procs[p := pc], P);
    assert after == if P(pc) then before + {p} else before - {p};
    if p in before {
      assert before == (before - {p}) + {p};
    }
  }

  lemma {:induction false} Subset<T>(a: set<T>, b: set<T>)
    requires a <= b
    ensures |a| <= |b|
    decreases a
  {
    if x :| x in a { Subset(a - {x}, b - {x}); }
  }

  lemma CountBound(procs: map<Pid, PC>, P: PC -> bool, Q: PC -> bool)
    requires forall pc :: !(P(pc) && Q(pc))
    ensures Count(procs, P) + Count(procs, Q) <= |procs|
  {
    assert Those(procs, P) !! Those(procs, Q);
    assert Those(procs, P) + Those(procs, Q) <= procs.Keys;
    Subset(Those(procs, P) + Those(procs, Q), procs.Keys);
  }

  /** The invariant on the numbers: one holder and the lock bit agree; the waiters counted in the
      word, those posted and those about to be are all that wait; and a free mutex with counted
      waiters has somebody on the way to it. */
  predicate Balance(semaphore: bool, n: nat, word: nat, sem: nat, holds: nat, waits: nat, posts: nat, retries: nat) {
    && n < LOCK && holds <= 1 && waits + retries <= n
    && word == LOCK * holds + Waiters(word)
    && Waiters(word) + sem + posts == waits
    && (!semaphore ==> waits == 0)
    && (holds == 0 && Waiters(word) > 0 ==> sem + posts + retries > 0)
  }

  /** The word and the semaphore account for every process that holds, waits or posts. */
  ghost predicate Inv(cfg: Config, s: State) {
    && Balance(cfg.semaphore, |s.procs|, s.word, s.sem, Count(s.procs, Holds), Count(s.procs, Waits),
               Count(s.procs, Posts), Count(s.procs, Retries))
    && (!cfg.semaphore ==> forall p :: p in s.procs ==> !s.procs[p].WaitCas?)
  }

  lemma CountNone(procs: map<Pid, PC>, P: PC -> bool)
    requires forall p :: p in procs ==> !P(procs[p])
    ensures Count(procs, P) == 0
  {
    assert Those(procs, P) == {};
  }

  lemma InitInv(cfg: Config, s: State)
    requires Init(s) && |s.procs| < LOCK
    ensures Inv(cfg, s)
  {
    CountNone(s.procs, Holds);
    CountNone(s.procs, Waits);
    CountNone(s.procs, Posts);
    CountNone(s.procs, Retries);
  }

  lemma WordParts(h: nat, w: nat)
    requires h <= 1 && w < LOCK
    ensures Waiters(LOCK * h + w) == w && (BitSet(LOCK * h + w) <==> h == 1)
  {
  }

  ghost predicate Moved(s: State, s': State, pc: PC, pc': PC, P: PC -> bool) {
    && Count(s'.procs, P) == Count(s.procs, P) - (if P(pc) then 1 else 0) + (if P(pc') then 1 else 0)
    && (P(pc) ==> Count(s.procs, P) >= 1)
  }

  /** How one step changes the numbers the invariant speaks of. */
  lemma StepCounts(cfg: Config, s: State, p: Pid, a: Action)
    requires Step(cfg, s, p, a).Some?
    ensures var s' := Step(cfg, s, p, a).value; var pc, pc' := s.procs[p], s'.procs[p];
      && s'.procs == s.procs[p := pc'] && |s'.procs| == |s.procs|
      && Moved(s, s', pc, pc', Holds) && Moved(s, s', pc, pc', Waits)
      && Moved(s, s', pc, pc', Posts) && Moved(s, s', pc, pc', Retries)
      && Count(s'.procs, Waits) + Count(s'.procs, Retries) <= |s'.procs|
  {
    var s' := Step(cfg, s, p, a).value;
    var pc' := s'.procs[p];
    assert s'.procs == s.procs[p := pc'] && s'.procs.Keys == s.procs.Keys;
    CountMoved(s.procs, p, pc', Holds);
    CountMoved(s.procs, p, pc', Waits);
    CountMoved(s.procs, p, pc', Posts);
    CountMoved(s.procs, p, pc', Retries);
    CountBound(s'.procs, Waits, Retries);
  }

  lemma TakeLockInv(cfg: Config, s: State, p: Pid, a: Action)
    requires Inv(cfg, s) && Step(cfg, s, p, a).Some?
    requires var pc := s.procs[p]; pc.TryCas? || pc.LockCas? || pc.SpinCas?
    ensures Inv(cfg, Step(cfg, s, p, a).value)
  {
    hide Count; hide Those;
    StepCounts(cfg, s, p, a);
    var h, w := Count(s.procs, Holds), Waiters(s.word);
    WordParts(h, w);
    WordParts(1, w);
  }

  lemma WaitInv(cfg: Config, s: State, p: Pid, a: Action)
    requires Inv(cfg, s) && Step(cfg, s, p, a).Some?
    requires var pc := s.procs[p]; pc.WaitCas? || pc.SemWait?
    ensures Inv(cfg, Step(cfg, s, p, a).value)
  {
    hide Count; hide Those;
    StepCounts(cfg, s, p, a);
    var h, w := Count(s.procs, Holds), Waiters(s.word);
    WordParts(h, w);
    if h == 1 && w + 1 < LOCK { WordParts(1, w + 1); }
  }

  lemma ReleaseInv(cfg: Config, s: State, p: Pid, a: Action)
    requires Inv(cfg, s) && Step(cfg, s, p, a).Some?
    requires var pc := s.procs[p]; pc.UnlockCas? || pc.SemPost?
    ensures Inv(cfg, Step(cfg, s, p, a).value)
  {
    hide Count; hide Those;
    StepCounts(cfg, s, p, a);
    var h, w := Count(s.procs, Holds), Waiters(s.word);
    WordParts(h, w);
    WordParts(0, if w > 0 then w - 1 else 0);
  }

  lemma LocalInv(cfg: Config, s: State, p: Pid, a: Action)
    requires Inv(cfg, s) && Step(cfg, s, p, a).Some?
    requires var pc := s.procs[p];
             !(pc.TryCas? || pc.LockCas? || pc.SpinCas? || pc.WaitCas? || pc.SemWait? || pc.UnlockCas? || pc.SemPost?)
    ensures Inv(cfg, Step(cfg, s, p, a).value)
  {
    hide Count; hide Those;
    StepCounts(cfg, s, p, a);
    var h, w := Count(s.procs, Holds), Waiters(s.word);
    WordParts(h, w);
  }

  lemma StepInv(cfg: Config, s: State, p: Pid, a: Action)
    requires Inv(cfg, s) && Step(cfg, s, p, a).Some?
    ensures Inv(cfg, Step(cfg, s, p, a).value)
  {
    assert p in s.procs;
    hide Inv; hide Step;
    var pc := s.procs[p];
    if pc.TryCas? || pc.LockCas? || pc.SpinCas? {
      TakeLockInv(cfg, s, p, a);
    } else if pc.WaitCas? || pc.SemWait? {
      WaitInv(cfg, s, p, a);
    } else if pc.UnlockCas? || pc.SemPost? {
      ReleaseInv(cfg, s, p, a);
    } else {
      LocalInv(cfg, s, p, a);
    }
  }

  /** The invariant of every state that any interleaving can reach. */
  lemma {:induction false} RunInv(cfg: Config, s: State, trace: seq<(Pid, Action)>)
    requires Inv(cfg, s) && Run(cfg, s, trace).Some?
    ensures Inv(cfg, Run(cfg, s, trace).value)
    decreases |trace|
  {
    if trace != [] {
      StepInv(cfg, s, trace[0].0, trace[0].1);
      RunInv(cfg, Step(cfg, s, trace[0].0, trace[0].1).value, trace[1..]);
    }
  }

  ghost predicate Reachable(cfg: Config, s: State) {
    exists s0, trace :: Init(s0) && |s0.procs| < LOCK && Run(cfg, s0, trace) == Some(s)
  }

  lemma ReachableInv(cfg: Config, s: State)
    requires Reachable(cfg, s)
    ensures Inv(cfg, s)
  {
    var s0, trace :| Init(s0) && |s0.procs| < LOCK && Run(cfg, s0, trace) == Some(s);
    InitInv(cfg, s0);
    RunInv(cfg, s0, trace);
  }

  /** At most one process holds the mutex, and the lock bit says whether one does. */
  lemma MutualExclusion(cfg: Config, s: State)
    requires Reachable(cfg, s)
    ensures forall p, q :: p in s.procs && q in s.procs && Holds(s.procs[p]) && Holds(s.procs[q]) ==> p == q
    ensures BitSet(s.word) <==> exists p :: p in s.procs && Holds(s.procs[p])
    ensures s.word < 2 * LOCK
  {
    ReachableInv(cfg, s);
    var holders := Those(s.procs, Holds);
    WordParts(|holders|, Waiters(s.word));
    forall p, q | p in s.procs && q in s.procs && Holds(s.procs[p]) && Holds(s.procs[q]) ensures p == q {
      if p != q {
        Subset({p, q}, holders);
      }
    }
    if |holders| == 1 {
      var p :| p in holders;
      assert p in s.procs && Holds(s.procs[p]);
    } else {
      assert holders == {};
      assert forall p :: p in s.procs && Holds(s.procs[p]) ==> p in holders;
    }
  }

  /** Every process committed to sem_wait is still counted in the word, or has been
      posted, or is about to be. */
  lemma WaitersAccounted(cfg: Config, s: State)
    requires Reachable(cfg, s)
    ensures Waiters(s.word) + s.sem + Count(s.procs, Posts) == Count(s.procs, Waits)
  {
    ReachableInv(cfg, s);
  }

  /** No wake-up is lost: while a process sleeps in sem_wait, some process holds the
      mutex, or is retrying, or is about to post, or the sleeper can already be woken. */
  lemma NoLostWakeup(cfg: Config, s: State, p: Pid)
    requires Reachable(cfg, s) && p in s.procs && s.procs[p].SemWait?
    ensures Step(cfg, s, p, Go).Some? ||
      exists q :: q in s.procs && (Holds(s.procs[q]) || Retries(s.procs[q]) || Posts(s.procs[q]))
  {
    ReachableInv(cfg, s);
    CountMoved(s.procs, p, SemWait, Waits);
    if s.sem == 0 {
      if Count(s.procs, Holds) > 0 {
        var q :| q in Those(s.procs, Holds);
      } else if Count(s.procs, Posts) > 0 {
        var q :| q in Those(s.procs, Posts);
      } else {
        assert Count(s.procs, Retries) > 0;
        var q :| q in Those(s.procs, Retries);
      }
    }
  }

  /** While a process sleeps, some process inside the mutex code can go on. */
  lemma NoDeadlock(cfg: Config, s: State, p: Pid)
    requires Reachable(cfg, s) && p in s.procs && s.procs[p].SemWait?
    ensures exists q, a :: q in s.procs && !s.procs[q].Idle? && a != Interrupt && Step(cfg, s, q, a).Some?
  {
    NoLostWakeup(cfg, s, p);
    if Step(cfg, s, p, Go).None? {
      var q :| q in s.procs && (Holds(s.procs[q]) || Retries(s.procs[q]) || Posts(s.procs[q]));
      assert Step(cfg, s, q, if s.procs[q].Held? then CallUnlock else Go).Some?;
    }
  }

  /** A step changes one process, and takes the lock only when its bit is clear. */
  lemma OneMoves(cfg: Config, s: State, p: Pid, a: Action)
    requires Step(cfg, s, p, a).Some?
    ensures var s' := Step(cfg, s, p, a).value;
      && p in s.procs && p in s'.procs && s'.procs == s.procs[p := s'.procs[p]]
      && (Holds(s'.procs[p]) && !Holds(s.procs[p]) ==> !BitSet(s.word))
  {
    hide BitSet, Waiters;
  }

  /** A successful trylock or lock step takes the mutex at a moment when nobody has it, and
      an unlock leaves it free. */
  lemma Handover(cfg: Config, s: State, p: Pid, a: Action)
    requires Reachable(cfg, s) && Step(cfg, s, p, a).Some?
    ensures var s' := Step(cfg, s, p, a).value;
      && (Holds(s'.procs[p]) && !Holds(s.procs[p]) ==>
            forall q :: q in s.procs ==> !Holds(s.procs[q]))
      && (Holds(s.procs[p]) && !Holds(s'.procs[p]) ==>
            forall q :: q in s'.procs ==> !Holds(s'.procs[q]))
  {
    hide Step, BitSet, Reachable;
    OneMoves(cfg, s, p, a);
    MutualExclusion(cfg, s);
  }
}
