/**
 Running a table-driven state machine.  Callbacks may post events while one is
 being handled; those wait in a queue and are handled by the outermost call.
 */
module StateMachine {
  import opened StateTable

  datatype Event = Event(id: int, data: nat)

  datatype Info = Info(oldState: int, newState: int, event: int, data: nat)

  datatype Call =
    | Notify(state: int, event: int)
    | Leave(cb: Callback, info: Info)
    | Act(cb: Callback, info: Info)
    | Entry(cb: Callback, info: Info)

  /** A machine as its short table describes it. */
  datatype Machine = Machine(c: Config, lines: seq<Line>, notify: bool)

  // ---------- the reference interpreter ----------

  predicate Known(m: Machine, e: Event)
  {
    0 <= e.id < m.c.events
  }

  predicate Moves(m: Machine, st: int, e: Event)
  {
    NextOf(m.lines, st, e.id) != st && NextOf(m.lines, st, e.id) != ST_STAY
  }

  /** The state after an event. */
  function After(m: Machine, st: int, e: Event): int
  {
    if Known(m, e) && Moves(m, st, e) then NextOf(m.lines, st, e.id) else st
  }

  /** The callbacks an event causes, in order, all with the same information. */
  function Calls(m: Machine, st: int, e: Event): seq<Call>
  {
    if !Known(m, e) then []
    else
      var to := NextOf(m.lines, st, e.id);
      var info := Info(st, to, e.id, e.data);
      var leave := ActionOf(m.lines, st, STATE_LEAVE, m.c.leave);
      var act := ActionOf(m.lines, st, e.id, m.c.trans);
      var entry := ActionOf(m.lines, to, STATE_ENTRY, m.c.entry);
      One(m.notify, Notify(st, e.id)) + One(Moves(m, st, e) && leave != 0, Leave(leave, info))
      + One(act != 0, Act(act, info)) + One(Moves(m, st, e) && entry != 0, Entry(entry, info))
  }

  function One(b: bool, call: Call): seq<Call>
  {
    if b then [call] else []
  }

  /** What `n` callbacks post, from the k-th of the run on; `posts` lists it callback by callback. */
  function Posted(posts: seq<seq<Event>>, k: nat, n: nat): seq<Event>
    decreases n
  {
    if n == 0 then [] else (if k < |posts| then posts[k] else []) + Posted(posts, k + 1, n - 1)
  }

  /** How many events are still to be posted. */
  function Weight(posts: seq<seq<Event>>, k: nat): nat
    decreases |posts| - k
  {
    if k >= |posts| then 0 else |posts[k]| + Weight(posts, k + 1)
  }

  lemma {:induction false} PostedWeight(posts: seq<seq<Event>>, k: nat, n: nat)
    ensures |Posted(posts, k, n)| + Weight(posts, k + n) == Weight(posts, k)
    decreases n
  {
    if n > 0 { PostedWeight(posts, k + 1, n - 1); }
  }

  lemma {:induction false} PostedAdd(posts: seq<seq<Event>>, k: nat, a: nat, b: nat)
    ensures Posted(posts, k, a) + Posted(posts, k + a, b) == Posted(posts, k, a + b)
    decreases a
  {
    if a > 0 { PostedAdd(posts, k + 1, a - 1, b); }
  }

  datatype Outcome = Outcome(state: int, trace: seq<Call>, handled: seq<Event>)

  /** Handle pending events one after the other; what callbacks post goes to the end. */
  function Interpret(m: Machine, st: int, pending: seq<Event>, k: nat, posts: seq<seq<Event>>): Outcome
    decreases |pending| + Weight(posts, k)
  {
    if pending == [] then Outcome(st, [], [])
    else
      var calls := Calls(m, st, pending[0]);
      PostedWeight(posts, k, |calls|);
      var o := Interpret(m, After(m, st, pending[0]), pending[1..] + Posted(posts, k, |calls|), k + |calls|, posts);
      Outcome(o.state, calls + o.trace, [pending[0]] + o.handled)
  }

  lemma InterpretNothing(m: Machine, st: int, k: nat, posts: seq<seq<Event>>)
    ensures Interpret(m, st, [], k, posts) == Outcome(st, [], [])
  {
  }

  lemma InterpretStep(m: Machine, st: int, pending: seq<Event>, k: nat, posts: seq<seq<Event>>)
    requires pending != []
    ensures var calls := Calls(m, st, pending[0]);
            var o := Interpret(m, After(m, st, pending[0]), pending[1..] + Posted(posts, k, |calls|), k + |calls|, posts);
            Interpret(m, st, pending, k, posts) == Outcome(o.state, calls + o.trace, [pending[0]] + o.handled)
  {
    hide Calls, After, Posted, Weight;
  }

  lemma NothingPosted(posts: seq<seq<Event>>, k: nat)
    ensures Posted(posts, k, 0) == []
  {
  }

  /** Every event, given or posted, is handled once, in the order of posting. */
  lemma {:induction false} HandledInOrder(m: Machine, st: int, pending: seq<Event>, k: nat, posts: seq<seq<Event>>)
    ensures var o := Interpret(m, st, pending, k, posts);
            o.handled == pending + Posted(posts, k, |o.trace|)
    decreases |pending| + Weight(posts, k)
  {
    hide Calls, Posted, Weight, After, Interpret;
    if pending == [] {
      InterpretNothing(m, st, k, posts);
      NothingPosted(posts, k);
    } else {
      InterpretStep(m, st, pending, k, posts);
      var n := |Calls(m, st, pending[0])|;
      var more := Posted(posts, k, n);
      PostedWeight(posts, k, n);
      HandledInOrder(m, After(m, st, pending[0]), pending[1..] + more, k + n, posts);
      var o := Interpret(m, After(m, st, pending[0]), pending[1..] + more, k + n, posts);
      PostedAdd(posts, k, n, |o.trace|);
      var rest := Posted(posts, k + n, |o.trace|);
      assert [pending[0]] + ((pending[1..] + more) + rest) == pending + (more + rest);
    }
  }

  // ---------- what happens to one event ----------

  /** Where an event leads: the target of the last line for it. */
  function Target(m: Machine, st: int, e: Event): int
  {
    var k := LastLine(m.lines, st, e.id);
    if k < 0 then ST_STAY else m.lines[k].next
  }

  /** The callback of the last line for a state and an event, or the default. */
  function CallbackOf(m: Machine, st: int, ev: int, otherwise: Callback): Callback
  {
    var k := LastLine(m.lines, st, ev);
    if k < 0 then otherwise else m.lines[k].action
  }

  function Rank(call: Call): nat
  {
    match call case Notify(_, _) => 0 case Leave(_, _) => 1 case Act(_, _) => 2 case Entry(_, _) => 3
  }

  /**
   The callbacks of a known event come in the order notify, leave, action, entry, at most one of each.
   The old state is left and the new one entered exactly when the event leads to another state, each
   with its own callback if it has one; the action is that of the event's line.
   */
  lemma CallsExact(m: Machine, st: int, e: Event, call: Call)
    requires 0 <= e.id < m.c.events
    ensures var trace, to := Calls(m, st, e), Target(m, st, e);
            var moves, info := to != st && to != ST_STAY, Info(st, to, e.id, e.data);
            && (forall i, j :: 0 <= i < j < |trace| ==> Rank(trace[i]) < Rank(trace[j]))
            && (call in trace <==>
                match call
                case Notify(s, ev) => m.notify && s == st && ev == e.id
                case Leave(cb, data) => moves && data == info && cb == CallbackOf(m, st, STATE_LEAVE, m.c.leave) != 0
                case Act(cb, data) => data == info && cb == CallbackOf(m, st, e.id, m.c.trans) != 0
                case Entry(cb, data) => moves && data == info && cb == CallbackOf(m, to, STATE_ENTRY, m.c.entry) != 0)
            && After(m, st, e) == if moves then to else st
  {
    hide LastLine;
    var to := Target(m, st, e);
    var moves, info := to != st && to != ST_STAY, Info(st, to, e.id, e.data);
    var leave, act := CallbackOf(m, st, STATE_LEAVE, m.c.leave), CallbackOf(m, st, e.id, m.c.trans);
    var entry := CallbackOf(m, to, STATE_ENTRY, m.c.entry);
    FourInOrder(m.notify, Notify(st, e.id), moves && leave != 0, Leave(leave, info),
                act != 0, Act(act, info), moves && entry != 0, Entry(entry, info), call);
  }

  lemma FourInOrder(b0: bool, c0: Call, b1: bool, c1: Call, b2: bool, c2: Call, b3: bool, c3: Call, call: Call)
    requires Rank(c0) == 0 && Rank(c1) == 1 && Rank(c2) == 2 && Rank(c3) == 3
    ensures var trace := One(b0, c0) + One(b1, c1) + One(b2, c2) + One(b3, c3);
            && (forall i, j :: 0 <= i < j < |trace| ==> Rank(trace[i]) < Rank(trace[j]))
            && (call in trace <==>
                (b0 && call == c0) || (b1 && call == c1) || (b2 && call == c2) || (b3 && call == c3))
  {
    hide Rank;
  }

  /** An event out of range does nothing. */
  lemma UnknownIgnored(m: Machine, st: int, e: Event)
    requires !(0 <= e.id < m.c.events)
    ensures Calls(m, st, e) == [] && After(m, st, e) == st
  {
  }

  /** Handling events one after the other, nothing being posted. */
  function Replay(m: Machine, st: int, es: seq<Event>): (int, seq<Call>)
    decreases |es|
  {
    if es == [] then (st, [])
    else
      var (r, trace) := Replay(m, After(m, st, es[0]), es[1..]);
      (r, Calls(m, st, es[0]) + trace)
  }

  /** However events are posted, each is handled completely before the next. */
  lemma {:induction false} InterpretReplays(m: Machine, st: int, pending: seq<Event>, k: nat, posts: seq<seq<Event>>)
    ensures var o := Interpret(m, st, pending, k, posts); (o.state, o.trace) == Replay(m, st, o.handled)
    decreases |pending| + Weight(posts, k)
  {
    hide Calls, Posted, Weight, After, Interpret;
    if pending == [] {
      InterpretNothing(m, st, k, posts);
    } else {
      InterpretStep(m, st, pending, k, posts);
      var n := |Calls(m, st, pending[0])|;
      PostedWeight(posts, k, n);
      InterpretReplays(m, After(m, st, pending[0]), pending[1..] + Posted(posts, k, n), k + n, posts);
      var o := Interpret(m, After(m, st, pending[0]), pending[1..] + Posted(posts, k, n), k + n, posts);
      assert ([pending[0]] + o.handled)[1..] == o.handled;
    }
  }

  // ---------- the machine ----------

  class Sm {
    const table: Table
    const notify: bool
    const posts: seq<seq<Event>>  // what the callbacks of this run post
    ghost const lines: seq<Line>
    var info: Info                // its old state is the current state
    var inProcess: bool
    var queue: seq<Event>
    var trace: seq<Call>          // callbacks so far

    ghost function M(): Machine
    {
      Machine(table.c, lines, notify)
    }

    /** The table is the expanded short table, whose targets are states; no event is the one past the last. */
    ghost predicate Valid()
      reads this, table.next, table.trans, table.entry, table.leave
    {
      && table.Means(lines) && 0 <= info.oldState < table.c.states
      && Targets(table.c, lines)
      && Safe(queue) && (forall i :: 0 <= i < |posts| ==> Safe(posts[i]))
    }

    ghost predicate Safe(es: seq<Event>)
    {
      forall i :: 0 <= i < |es| ==> es[i].id != table.c.events
    }

    constructor (table: Table, lines: seq<Line>, notify: bool, posts: seq<seq<Event>>, start: int)
      requires table.Means(lines) && 0 <= start < table.c.states && Targets(table.c, lines)
      requires forall i, j :: 0 <= i < |posts| && 0 <= j < |posts[i]| ==> posts[i][j].id != table.c.events
      ensures Valid() && !inProcess && queue == [] && trace == [] && info.oldState == start
      ensures this.table == table && this.lines == lines && this.notify == notify && this.posts == posts
    {
      this.table, this.lines, this.notify, this.posts := table, lines, notify, posts;
      info, inProcess, queue, trace := Info(start, -1, -1, 0), false, [], [];
    }

    /** A callback runs: it may post events, which can only wait, and it starts no other callback. */
    method Invoke(call: Call)
      requires Valid() && inProcess
      modifies this`info, this`inProcess, this`queue, this`trace
      ensures Valid() && inProcess && info == old(info) && trace == old(trace) + [call]
      ensures queue == old(queue) + Posted(posts, |old(trace)|, 1)
      decreases 0, 1
    {
      var k := |trace|;
      trace := trace + [call];
      if k < |posts| {
        var j := 0;
        while j < |posts[k]|
          invariant 0 <= j <= |posts[k]| && Valid() && inProcess && info == old(info)
          invariant trace == old(trace) + [call] && queue == old(queue) + posts[k][..j]
        {
          var ret := ProcessEvent(posts[k][j]);
          j := j + 1;
        }
        assert posts[k][..j] == posts[k] == Posted(posts, k, 1);
      }
    }

    /** One callback of an event that is being handled; `t0` and `q0` are from before it, `done` since. */
    method InvokeIf(b: bool, call: Call, ghost t0: seq<Call>, ghost q0: seq<Event>, ghost done: seq<Call>)
      requires Valid() && inProcess && trace == t0 + done && queue == q0 + Posted(posts, |t0|, |done|)
      modifies this`info, this`inProcess, this`queue, this`trace
      ensures Valid() && inProcess && info == old(info) && trace == t0 + (done + One(b, call))
      ensures queue == q0 + Posted(posts, |t0|, |done + One(b, call)|)
      decreases 0, 2
    {
      PostedAdd(posts, |t0|, |done|, 1);
      hide Posted;
      if b {
        Invoke(call);
      } else {
        assert done + [] == done;
      }
    }

    /** Run the callbacks of a known event. */
    method RunCallbacks(e: Event)
      requires Valid() && inProcess && Known(M(), e)
      requires info == Info(info.oldState, NextOf(lines, info.oldState, e.id), e.id, e.data)
      modifies this`info, this`inProcess, this`queue, this`trace
      ensures Valid() && inProcess && info == old(info) && trace == old(trace) + Calls(M(), info.oldState, e)
      ensures queue == old(queue) + Posted(posts, |old(trace)|, |Calls(M(), info.oldState, e)|)
      decreases 0, 3
    {
      hide NextOf, ActionOf, Posted;
      ghost var t0, q0 := trace, queue;
      var st, to := info.oldState, info.newState;
      var moves := to != st && to != ST_STAY;
      var leave, act, entry := table.leave[st], table.trans[st, e.id], 0;
      if moves {
        entry := table.entry[to];
      }
      assert t0 + [] == t0 && q0 + Posted(posts, |t0|, 0) == q0 by { NothingPosted(posts, |t0|); }
      ghost var c1 := One(notify, Notify(st, e.id));
      assert [] + c1 == c1;
      InvokeIf(notify, Notify(st, e.id), t0, q0, []);
      ghost var c2 := One(moves && leave != 0, Leave(leave, info));
      InvokeIf(moves && leave != 0, Leave(leave, info), t0, q0, c1);
      ghost var c3 := One(act != 0, Act(act, info));
      InvokeIf(act != 0, Act(act, info), t0, q0, c1 + c2);
      InvokeIf(moves && entry != 0, Entry(entry, info), t0, q0, c1 + c2 + c3);
    }

    /** Leave the critical section and go on with the first event that waits. */
    method UnlockInProcess()
      requires Valid() && inProcess
      modifies this`info, this`inProcess, this`queue, this`trace
      ensures Valid() && !inProcess && queue == []
      ensures var o := Interpret(M(), old(info.oldState), old(queue), |old(trace)|, posts);
              info.oldState == o.state && trace == old(trace) + o.trace
      decreases |queue| + Weight(posts, |trace|), 1
    {
      inProcess := false;
      if queue != [] {
        var e := queue[0];
        queue := queue[1..];
        assert [e] + queue == old(queue);
        var ret := ProcessEvent(e);
      }
    }

    /**
     Handle an event and everything posted meanwhile, as the reference interpreter does; or, called
     from a callback, only queue it.
     */
    method ProcessEvent(e: Event) returns (ret: int)
      requires Valid() && e.id != table.c.events
      modifies this`info, this`inProcess, this`queue, this`trace
      ensures Valid()
      ensures old(inProcess) ==>
                inProcess && queue == old(queue) + [e] && info == old(info) && trace == old(trace) && ret == 0
      ensures !old(inProcess) ==>
                var o := Interpret(M(), old(info.oldState), [e] + old(queue), |old(trace)|, posts);
                && !inProcess && queue == [] && info.oldState == o.state && trace == old(trace) + o.trace
                && ret == if Known(M(), e) then 0 else -1
      decreases if inProcess then 0 else |queue| + Weight(posts, |trace|) + 1, 0
    {
      hide Calls, NextOf, ActionOf, Table.Means, Interpret, Posted, Weight;
      if inProcess {
        queue := queue + [e];
        return 0;
      }
      inProcess := true;
      ghost var st, k, q := info.oldState, |trace|, queue;
      InterpretStep(M(), st, [e] + q, k, posts);
      assert ([e] + q)[1..] == q;
      if e.id > table.c.events || e.id < 0 {
        UnknownIgnored(M(), st, e);
        NothingPosted(posts, k);
        assert q + [] == q;
        UnlockInProcess();
        return -1;
      }
      var next := NextState(e);
      info := Info(info.oldState, next, e.id, e.data);
      RunCallbacks(e);
      PostedWeight(posts, k, |Calls(M(), st, e)|);
      if next != info.oldState && next != ST_STAY {
        info := info.(oldState := next);
      }
      UnlockInProcess();
      return 0;
    }

    method NextState(e: Event) returns (next: int)
      requires Valid() && Known(M(), e)
      ensures next == NextOf(lines, info.oldState, e.id) && (next == ST_STAY || 0 <= next < table.c.states)
    {
      next := table.next[info.oldState, e.id];
    }
  }

  ghost predicate Targets(c: Config, lines: seq<Line>)
  {
    forall st, ev :: 0 <= st < c.states && 0 <= ev < c.events ==>
      NextOf(lines, st, ev) == ST_STAY || 0 <= NextOf(lines, st, ev) < c.states
  }
}
