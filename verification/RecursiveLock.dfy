/**
 The recursive locks: an owner and a nesting count around an inner lock.  No
 thread ever acquires an inner lock it holds, so it does not matter whether that
 one is recursive.  Any number of threads run in any order, one read or write of
 shared memory at a time; the owner is read without holding anything.
 */
module RecursiveLock {
  import opened CompletionQueue

  type Thread = nat

  datatype Call = Lock | TryLock | Unlock | AskMine

  /** What a thread does next.  `++` and `--` on the count are a read and a write. */
  datatype Pc =
    | Idle
    | ReadOwner(once: bool)       // `once`: the call gives up rather than wait
    | NestLoad
    | NestStore(v: int)
    | Acquire(once: bool)
    | FirstLoad
    | FirstStore(v: int)
    | SetOwner
    | LeaveLoad
    | LeaveStore(v: int)
    | LeaveTest(v: int)
    | ClearOwner
    | Release
    | AskOwner
    | AskTest
    | AskValue

  datatype State = State(
    nobody: Thread,               // marks an unowned lock
    owner: Thread,
    count: int,
    inner: Option<Thread>,        // holder of the inner lock
    pc: map<Thread, Pc>)

  /** What happens to the lock as a whole, as its callers see it. */
  datatype Act = Enter(t: Thread) | Nest(t: Thread) | Leave(t: Thread) | Fail(t: Thread) | Answer(t: Thread, r: int)

  // ---------- the code ----------

  /** The next read or write of thread `t`; an idle thread starts `call`. */
  function Next(s: State, t: Thread, call: Call): State
    requires t in s.pc
  {
    match s.pc[t]
    case Idle => Goto(s, t, match call
                            case Lock => ReadOwner(false)
                            case TryLock => ReadOwner(true)
                            case Unlock => LeaveLoad
                            case AskMine => AskOwner)
    case ReadOwner(once) => Goto(s, t, if s.owner == t then NestLoad else Acquire(once))
    case NestLoad => Goto(s, t, NestStore(s.count + 1))
    case NestStore(v) => Goto(s.(count := v), t, Idle)
    case Acquire(once) =>
      if s.inner.None? then Goto(s.(inner := Some(t)), t, FirstLoad)
      else if once then Goto(s, t, Idle)
      else s
    case FirstLoad => Goto(s, t, FirstStore(s.count + 1))
    case FirstStore(v) => Goto(s.(count := v), t, SetOwner)
    case SetOwner => Goto(s.(owner := t), t, Idle)
    case LeaveLoad => Goto(s, t, LeaveStore(s.count - 1))
    case LeaveStore(v) => Goto(s.(count := v), t, LeaveTest(v))
    case LeaveTest(v) => Goto(s, t, if v == 0 then ClearOwner else Idle)
    case ClearOwner => Goto(s.(owner := s.nobody), t, Release)
    case Release => Goto(s.(inner := None), t, Idle)
    case AskOwner => Goto(s, t, if s.owner == t then AskTest else Idle)
    case AskTest => Goto(s, t, if s.count != 0 then AskValue else Idle)
    case AskValue => Goto(s, t, Idle)
  }

  function Goto(s: State, t: Thread, p: Pc): State
  {
    s.(pc := s.pc[t := p])
  }

  /** The step at which a call takes effect, with the result it then returns. */
  function Effect(s: State, t: Thread): Option<Act>
    requires t in s.pc
  {
    match s.pc[t]
    case NestStore(_) => Some(Nest(t))
    case Acquire(once) => if s.inner.None? then Some(Enter(t)) else if once then Some(Fail(t)) else None
    case LeaveStore(v) => if v == 0 then None else Some(Leave(t))
    case Release => Some(Leave(t))
    case AskOwner => if s.owner == t then None else Some(Answer(t, 0))
    case AskTest => if s.count != 0 then None else Some(Answer(t, 0))
    case AskValue => Some(Answer(t, s.count))
    case _ => None
  }

  /** The code asks one thing of its callers: only a holder unlocks. */
  ghost predicate Legal(s: State, t: Thread, call: Call)
  {
    t in s.pc && (s.pc[t] == Idle && call == Unlock ==> Depth(s, t) > 0)
  }

  // ---------- an atomic recursive lock ----------

  datatype Atomic = Free | Held(t: Thread, depth: int)

  ghost predicate Allowed(a: Atomic, e: Act)
  {
    match e
    case Enter(_) => a.Free?
    case Nest(t) => a.Held? && a.t == t
    case Leave(t) => a.Held? && a.t == t
    case Fail(t) => a.Held? && a.t != t
    case Answer(t, r) => r == if a.Held? && a.t == t then a.depth else 0
  }

  ghost function Do(a: Atomic, e: Act): Atomic
    requires Allowed(a, e)
  {
    match e
    case Enter(t) => Held(t, 1)
    case Nest(_) => a.(depth := a.depth + 1)
    case Leave(_) => if a.depth == 1 then Free else a.(depth := a.depth - 1)
    case Fail(_) => a
    case Answer(_, _) => a
  }

  // ---------- how the code represents it ----------

  /** Nesting depth of the thread that holds the inner lock; zero for the others. */
  ghost function Depth(s: State, t: Thread): int
    requires t in s.pc
  {
    if s.inner != Some(t) then 0
    else match s.pc[t]
      case FirstLoad => 1
      case FirstStore(_) => 1
      case SetOwner => 1
      case LeaveTest(v) => if v == 0 then 1 else s.count
      case ClearOwner => 1
      case Release => 1
      case _ => s.count
  }

  ghost function Abs(s: State): Atomic
    requires s.inner.Some? ==> s.inner.value in s.pc
  {
    if s.inner.None? then Free else Held(s.inner.value, Depth(s, s.inner.value))
  }

  /** What holds while the thread that has the inner lock is at a step. */
  ghost predicate Inside(s: State, t: Thread, p: Pc)
  {
    match p
    case Acquire(_) => false
    case FirstLoad => s.owner == s.nobody && s.count == 0
    case FirstStore(v) => s.owner == s.nobody && s.count == 0 && v == 1
    case SetOwner => s.owner == s.nobody && s.count == 1
    case NestStore(v) => s.owner == t && s.count >= 1 && v == s.count + 1
    case LeaveStore(v) => s.owner == t && s.count >= 1 && v == s.count - 1
    case LeaveTest(v) => s.owner == t && s.count == v >= 0
    case ClearOwner => s.owner == t && s.count == 0
    case Release => s.owner == s.nobody && s.count == 0
    case _ => s.owner == t && s.count >= 1
  }

  /** The steps at which every other thread is. */
  ghost predicate Outside(p: Pc)
  {
    p.Idle? || p.ReadOwner? || p.Acquire? || p.AskOwner?
  }

  ghost predicate Inv(s: State)
  {
    && s.nobody !in s.pc
    && (s.inner.None? ==> s.owner == s.nobody && s.count == 0)
    && (s.inner.Some? ==> s.inner.value in s.pc && Inside(s, s.inner.value, s.pc[s.inner.value]))
    && (forall t :: t in s.pc && s.inner != Some(t) ==> Outside(s.pc[t]))
  }

  /** At most one thread is inside, the owner is that thread, and an idle thread's depth can be read off. */
  lemma MutualExclusion(s: State, t: Thread, u: Thread)
    requires Inv(s) && t in s.pc && u in s.pc
    ensures Depth(s, t) > 0 && Depth(s, u) > 0 ==> t == u
    ensures s.owner == t ==> s.inner == Some(t)
    ensures s.pc[t] == Idle ==> (if s.owner == t then s.count else 0) == Depth(s, t)
    ensures s.pc[t].Acquire? ==> s.inner != Some(t)
  {
  }

  lemma NextKeeps(s: State, t: Thread, call: Call)
    requires Inv(s) && Legal(s, t, call)
    ensures Inv(Next(s, t, call))
  {
    if s.inner == Some(t) {
      HolderKeeps(s, t, call);
    } else {
      OthersKeep(s, t, call);
    }
  }

  lemma HolderKeeps(s: State, t: Thread, call: Call)
    requires Inv(s) && Legal(s, t, call) && s.inner == Some(t)
    ensures Inv(Next(s, t, call))
  {
    hide Outside;
    var r := Next(s, t, call);
    assert forall u :: u in s.pc && u != t ==> r.pc[u] == s.pc[u];
    if s.pc[t].Release? {
      IdleOutside();
    } else {
      assert Inside(r, t, r.pc[t]);
    }
  }

  lemma OthersKeep(s: State, t: Thread, call: Call)
    requires Inv(s) && Legal(s, t, call) && s.inner != Some(t)
    ensures Inv(Next(s, t, call))
  {
    hide Inside;
    var r := Next(s, t, call);
    assert forall u :: u in s.pc && u != t ==> r.pc[u] == s.pc[u];
    if s.inner.Some? {
      var h := s.inner.value;
      SameInside(s, r, h, s.pc[h]);
    } else if s.pc[t].Acquire? {
      StartsInside(r, t);
    }
  }

  lemma IdleOutside()
    ensures Outside(Idle)
  {
  }

  lemma SameInside(s: State, r: State, t: Thread, p: Pc)
    requires Inside(s, t, p) && r == s.(pc := r.pc)
    ensures Inside(r, t, p)
  {
  }

  lemma StartsInside(r: State, t: Thread)
    requires r.owner == r.nobody && r.count == 0
    ensures Inside(r, t, FirstLoad)
  {
  }

  ghost predicate Refines(s: State, t: Thread, call: Call)
    requires Inv(s) && t in s.pc && Inv(Next(s, t, call))
  {
    var e := Effect(s, t);
    if e.None? then Abs(Next(s, t, call)) == Abs(s)
    else Allowed(Abs(s), e.value) && Abs(Next(s, t, call)) == Do(Abs(s), e.value)
  }

  /** Each step changes the lock as its effect says, or not at all. */
  lemma NextRefines(s: State, t: Thread, call: Call)
    requires Inv(s) && Legal(s, t, call) && Inv(Next(s, t, call))
    ensures Refines(s, t, call)
  {
    if s.inner == Some(t) {
      HolderRefines(s, t, call);
    } else {
      OthersRefine(s, t, call);
    }
  }

  lemma HolderRefines(s: State, t: Thread, call: Call)
    requires Inv(s) && Legal(s, t, call) && Inv(Next(s, t, call)) && s.inner == Some(t)
    ensures Refines(s, t, call)
  {
    hide Outside;
    assert Inside(s, t, s.pc[t]);
  }

  lemma OthersRefine(s: State, t: Thread, call: Call)
    requires Inv(s) && Legal(s, t, call) && Inv(Next(s, t, call)) && s.inner != Some(t)
    ensures Refines(s, t, call)
  {
    hide Inside;
    assert Outside(s.pc[t]) && s.owner != t by { NotOwner(s, t); }
  }

  lemma NotOwner(s: State, t: Thread)
    requires Inv(s) && t in s.pc && s.inner != Some(t)
    ensures s.owner != t
  {
  }

  /** Steps of a call before, and after, it has taken effect. */
  ghost predicate Before(p: Pc)
  {
    !p.Idle? && !After(p)
  }

  ghost predicate After(p: Pc)
  {
    p.FirstLoad? || p.FirstStore? || p.SetOwner? || (p.LeaveTest? && p.v != 0)
  }

  /** Every call takes effect exactly once between its start and its return. */
  lemma OneEffect(s: State, t: Thread, call: Call)
    requires Inv(s) && Legal(s, t, call)
    ensures var p, q := s.pc[t], Next(s, t, call).pc[t];
            && (Effect(s, t).Some? <==> Before(p) && !Before(q))
            && (p.Idle? ==> Before(q))
            && (After(p) ==> After(q) || q.Idle?)
  {
  }

  // ---------- every run ----------

  datatype Step = Step(t: Thread, call: Call)

  ghost predicate Feasible(s: State, run: seq<Step>)
    decreases |run|
  {
    run == [] || (Legal(s, run[0].t, run[0].call) && Feasible(Next(s, run[0].t, run[0].call), run[1..]))
  }

  ghost function Run(s: State, run: seq<Step>): State
    requires Feasible(s, run)
    decreases |run|
  {
    if run == [] then s else Run(Next(s, run[0].t, run[0].call), run[1..])
  }

  ghost function Effects(s: State, run: seq<Step>): seq<Act>
    requires Feasible(s, run)
    decreases |run|
  {
    if run == [] then []
    else
      var e := Effect(s, run[0].t);
      (if e.None? then [] else [e.value]) + Effects(Next(s, run[0].t, run[0].call), run[1..])
  }

  ghost predicate AtomicRun(a: Atomic, es: seq<Act>, b: Atomic)
    decreases |es|
  {
    if es == [] then a == b else Allowed(a, es[0]) && AtomicRun(Do(a, es[0]), es[1..], b)
  }

  /** Every run of the threads is a run of the atomic lock, and keeps the invariant. */
  lemma {:induction false} RunRefines(s: State, run: seq<Step>)
    requires Inv(s) && Feasible(s, run)
    ensures Inv(Run(s, run)) && AtomicRun(Abs(s), Effects(s, run), Abs(Run(s, run)))
    decreases |run|
  {
    hide Inv, Next, Effect, Allowed, Do, Depth;
    if run != [] {
      var t, call := run[0].t, run[0].call;
      NextKeeps(s, t, call);
      NextRefines(s, t, call);
      RunRefines(Next(s, t, call), run[1..]);
      var e := Effect(s, t);
      var rest := Effects(Next(s, t, call), run[1..]);
      if e.Some? {
        assert ([e.value] + rest)[1..] == rest;
      } else {
        assert [] + rest == rest;
      }
    }
  }

  // ---------- what each call gets ----------

  /** What a call may end in. */
  predicate Suits(call: Call, e: Act)
  {
    match call
    case Lock => e.Enter? || e.Nest?
    case TryLock => e.Enter? || e.Nest? || e.Fail?
    case Unlock => e.Leave?
    case AskMine => e.Answer?
  }

  /** The steps that serve a call. */
  ghost predicate Serves(p: Pc, call: Call)
  {
    match p
    case Idle => true
    case ReadOwner(once) => call == if once then TryLock else Lock
    case Acquire(once) => call == if once then TryLock else Lock
    case LeaveLoad => call == Unlock
    case LeaveStore(_) => call == Unlock
    case LeaveTest(_) => call == Unlock
    case ClearOwner => call == Unlock
    case Release => call == Unlock
    case AskOwner => call == AskMine
    case AskTest => call == AskMine
    case AskValue => call == AskMine
    case _ => call == Lock || call == TryLock
  }

  /** `calls` gives the call that each thread started last. */
  ghost predicate Serving(s: State, calls: map<Thread, Call>)
  {
    forall t :: t in s.pc ==> t in calls && Serves(s.pc[t], calls[t])
  }

  /** An idle thread starts the call of its step. */
  function Started(s: State, calls: map<Thread, Call>, step: Step): map<Thread, Call>
    requires step.t in s.pc
  {
    if s.pc[step.t].Idle? then calls[step.t := step.call] else calls
  }

  /**
   In one step a thread's effect is one that its call may end in.  Only a lock call ever stays where it
   is, and only while another thread has the inner lock; it returns only with the lock held.
   */
  ghost predicate Honest(s: State, calls: map<Thread, Call>, step: Step)
    requires step.t in s.pc && step.t in calls
  {
    var t, call := step.t, calls[step.t];
    var e, r := Effect(s, t), Next(s, t, step.call);
    && (e.Some? ==> e.value.t == t && Suits(call, e.value))
    && (r.pc[t] == s.pc[t] ==> call == Lock && s.inner.Some? && s.inner.value != t)
    && (r.pc[t].Idle? && !s.pc[t].Idle? && call == Lock ==> Depth(r, t) > 0)
    && (r.pc[t].Idle? && !s.pc[t].Idle? && call == TryLock ==> Depth(r, t) > 0 || e == Some(Fail(t)))
  }

  ghost predicate AllHonest(s: State, calls: map<Thread, Call>, run: seq<Step>)
    requires Feasible(s, run)
    decreases |run|
  {
    run == [] ||
    (var now := Started(s, calls, run[0]);
     run[0].t in now && Honest(s, now, run[0]) && AllHonest(Next(s, run[0].t, run[0].call), now, run[1..]))
  }

  lemma NextHonest(s: State, calls: map<Thread, Call>, step: Step)
    requires Inv(s) && Legal(s, step.t, step.call) && Serving(s, calls)
    ensures var now := Started(s, calls, step);
            step.t in now && Honest(s, now, step) && Serving(Next(s, step.t, step.call), now)
  {
    hide Inv, Honest;
    StillServing(s, calls, step);
    if s.inner == Some(step.t) {
      HolderHonest(s, Started(s, calls, step), step);
    } else {
      OthersHonest(s, Started(s, calls, step), step);
    }
  }

  lemma StillServing(s: State, calls: map<Thread, Call>, step: Step)
    requires step.t in s.pc && Serving(s, calls)
    ensures var now := Started(s, calls, step);
            && step.t in now && Serving(Next(s, step.t, step.call), now)
            && (!s.pc[step.t].Idle? ==> Serves(s.pc[step.t], now[step.t]))
  {
    assert Serves(s.pc[step.t], calls[step.t]);
  }

  lemma HolderHonest(s: State, calls: map<Thread, Call>, step: Step)
    requires Inv(s) && Legal(s, step.t, step.call) && s.inner == Some(step.t) && step.t in calls
    requires !s.pc[step.t].Idle? ==> Serves(s.pc[step.t], calls[step.t])
    ensures Honest(s, calls, step)
  {
    hide Outside;
    assert Inside(s, step.t, s.pc[step.t]);
  }

  lemma OthersHonest(s: State, calls: map<Thread, Call>, step: Step)
    requires Inv(s) && Legal(s, step.t, step.call) && s.inner != Some(step.t) && step.t in calls
    requires !s.pc[step.t].Idle? ==> Serves(s.pc[step.t], calls[step.t])
    ensures Honest(s, calls, step)
  {
    hide Inside;
    NotOwner(s, step.t);
    assert Outside(s.pc[step.t]);
  }

  /** In every run a call ends only in what it asks for: a lock call never fails, and a try never waits. */
  lemma {:induction false} RunHonest(s: State, calls: map<Thread, Call>, run: seq<Step>)
    requires Inv(s) && Feasible(s, run) && Serving(s, calls)
    ensures AllHonest(s, calls, run)
    decreases |run|
  {
    hide Inv, Next, Honest, Serving;
    if run != [] {
      NextKeeps(s, run[0].t, run[0].call);
      NextHonest(s, calls, run[0]);
      RunHonest(Next(s, run[0].t, run[0].call), Started(s, calls, run[0]), run[1..]);
    }
  }

  /** The lock as constructed, for any set of threads. */
  ghost function Fresh(threads: set<Thread>, nobody: Thread): State
  {
    State(nobody, nobody, 0, None, map t | t in threads :: Idle)
  }

  lemma FreshInv(threads: set<Thread>, nobody: Thread)
    requires nobody !in threads
    ensures Inv(Fresh(threads, nobody)) && Abs(Fresh(threads, nobody)) == Free
    ensures forall calls: map<Thread, Call> :: threads <= calls.Keys ==> Serving(Fresh(threads, nobody), calls)
  {
  }

  /** That holds of every run from a new lock. */
  lemma FreshHonest(threads: set<Thread>, nobody: Thread, calls: map<Thread, Call>, run: seq<Step>)
    requires nobody !in threads && threads <= calls.Keys && Feasible(Fresh(threads, nobody), run)
    ensures AllHonest(Fresh(threads, nobody), calls, run)
  {
    hide Inv, AllHonest, Serving;
    FreshInv(threads, nobody);
    RunHonest(Fresh(threads, nobody), calls, run);
  }

  lemma {:induction false} RunThreads(s: State, run: seq<Step>)
    requires Feasible(s, run)
    ensures Run(s, run).pc.Keys == s.pc.Keys
    decreases |run|
  {
    if run != [] {
      RunThreads(Next(s, run[0].t, run[0].call), run[1..]);
      assert Next(s, run[0].t, run[0].call).pc.Keys == s.pc.Keys;
    }
  }

  /** In every state that any threads can bring a new lock to, at most one of them is inside. */
  lemma RunExcludes(threads: set<Thread>, nobody: Thread, run: seq<Step>, t: Thread, u: Thread)
    requires nobody !in threads && t in threads && u in threads && Feasible(Fresh(threads, nobody), run)
    ensures var s := Run(Fresh(threads, nobody), run);
            && t in s.pc && u in s.pc
            && (Depth(s, t) > 0 && Depth(s, u) > 0 ==> t == u)
            && (s.owner == t ==> s.inner == Some(t))
            && (s.pc[t] == Idle ==> (if s.owner == t then s.count else 0) == Depth(s, t))
            && (s.pc[t].Acquire? ==> s.inner != Some(t))
  {
    hide Depth;
    FreshInv(threads, nobody);
    RunRefines(Fresh(threads, nobody), run);
    RunThreads(Fresh(threads, nobody), run);
    MutualExclusion(Run(Fresh(threads, nobody), run), t, u);
  }
}
