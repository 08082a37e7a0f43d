/**
 The transition table of a state machine: users write a short table of lines,
 which is expanded into one entry per state and event.
 */
module StateTable {

  const NO_ST: int := -2
  const ST_STAY: int := -3
  const STATE_ENTRY: int := -4
  const STATE_LEAVE: int := -5

  /** A callback; zero is none. */
  type Callback = nat

  datatype Line = Line(state: int, event: int, next: int, action: Callback)

  /** Sizes and the callbacks that states and events have unless a line says otherwise. */
  datatype Config = Config(states: nat, events: nat, entry: Callback, leave: Callback, trans: Callback)

  // ---------- what a short table means ----------

  /** The last line for a state and an event, if there is one. */
  function LastLine(lines: seq<Line>, st: int, ev: int): int
    ensures -1 <= LastLine(lines, st, ev) < |lines|
  {
    if lines == [] then -1
    else
      var n := |lines| - 1;
      if lines[n].state == st && lines[n].event == ev then n else LastLine(lines[..n], st, ev)
  }

  function NextOf(lines: seq<Line>, st: int, ev: int): int
  {
    var k := LastLine(lines, st, ev);
    if k < 0 then ST_STAY else lines[k].next
  }

  function ActionOf(lines: seq<Line>, st: int, ev: int, otherwise: Callback): Callback
  {
    var k := LastLine(lines, st, ev);
    if k < 0 then otherwise else lines[k].action
  }

  predicate FreeSlot(c: Config, before: seq<Line>, l: Line)
  {
    && 0 <= l.event < c.events && l.next < c.states
    && ActionOf(before, l.state, l.event, c.trans) == c.trans
  }

  /** A line that is accepted behind those before it. */
  predicate Acceptable(c: Config, before: seq<Line>, l: Line)
  {
    && 0 <= l.state < c.states
    && (l.event == STATE_ENTRY || l.event == STATE_LEAVE || FreeSlot(c, before, l))
  }

  /** How many lines take effect: up to the end mark, or the first that is not acceptable. */
  function Accepted(c: Config, lines: seq<Line>, from: nat): (n: nat)
    requires from <= |lines|
    ensures from <= n <= |lines|
    decreases |lines| - from
  {
    if from == |lines| || lines[from].state == NO_ST || !Acceptable(c, lines[..from], lines[from]) then from
    else Accepted(c, lines, from + 1)
  }

  /** The lines that take effect are those before the end mark or the first unacceptable line. */
  lemma {:induction false} AcceptedExact(c: Config, lines: seq<Line>, from: nat)
    requires from <= |lines|
    ensures var n := Accepted(c, lines, from);
            && (forall i :: from <= i < n ==> lines[i].state != NO_ST && Acceptable(c, lines[..i], lines[i]))
            && (n == |lines| || lines[n].state == NO_ST || !Acceptable(c, lines[..n], lines[n]))
    decreases |lines| - from
  {
    if from < |lines| && lines[from].state != NO_ST && Acceptable(c, lines[..from], lines[from]) {
      AcceptedExact(c, lines, from + 1);
    }
  }

  /**
   The same, spelled out.  A line in force names a state; unless it is for entering or leaving, it names
   an event and a target below the number of states, and no line before it gave that event an action
   other than the default.  The first line that is not in force ends the table or breaks one of these.
   */
  lemma LinesInForce(c: Config, lines: seq<Line>, i: nat)
    requires i <= Accepted(c, lines, 0) && i < |lines|
    ensures var l, k := lines[i], LastLine(lines[..i], lines[i].state, lines[i].event);
            i < Accepted(c, lines, 0) <==>
              && l.state != NO_ST && 0 <= l.state < c.states
              && (l.event == STATE_ENTRY || l.event == STATE_LEAVE ||
                  (0 <= l.event < c.events && l.next < c.states && (k < 0 || lines[k].action == c.trans)))
  {
    hide LastLine;
    AcceptedExact(c, lines, 0);
  }

  lemma LastLineStep(lines: seq<Line>, n: nat, st: int, ev: int)
    requires n < |lines|
    ensures var hit := lines[n].state == st && lines[n].event == ev;
            LastLine(lines[..n + 1], st, ev) == if hit then n else LastLine(lines[..n], st, ev)
  {
    assert lines[..n + 1][..n] == lines[..n];
  }

  /** Among the lines that take effect no event line of a state repeats, except over a default action. */
  lemma NoSilentReuse(c: Config, lines: seq<Line>, i: nat, j: nat)
    requires i < j < Accepted(c, lines, 0) && lines[i].state == lines[j].state && lines[i].event == lines[j].event
    requires lines[j].event != STATE_ENTRY && lines[j].event != STATE_LEAVE
    ensures LastLine(lines[..j], lines[j].state, lines[j].event) >= i
    ensures lines[LastLine(lines[..j], lines[j].state, lines[j].event)].action == c.trans
  {
    AcceptedExact(c, lines, 0);
    LastLineAtLeast(lines[..j], i, lines[j].state, lines[j].event);
  }

  lemma {:induction false} LastLineAtLeast(lines: seq<Line>, i: nat, st: int, ev: int)
    requires i < |lines| && lines[i].state == st && lines[i].event == ev
    ensures LastLine(lines, st, ev) >= i
  {
    var n := |lines| - 1;
    if i < n { LastLineAtLeast(lines[..n], i, st, ev); }
  }

  // ---------- the expanded table ----------

  class Table {
    const c: Config
    const next: array2<int>
    const trans: array2<Callback>
    const entry: array<Callback>
    const leave: array<Callback>

    ghost predicate Shaped()
    {
      && next.Length0 == trans.Length0 == entry.Length == leave.Length == c.states
      && next.Length1 == trans.Length1 == c.events
      && entry != leave
    }

    /** Every entry is what the lines say. */
    ghost predicate Means(lines: seq<Line>)
      reads next, trans, entry, leave
    {
      && Shaped()
      && (forall st, ev :: 0 <= st < c.states && 0 <= ev < c.events ==> next[st, ev] == NextOf(lines, st, ev))
      && (forall st, ev :: 0 <= st < c.states && 0 <= ev < c.events ==> trans[st, ev] == ActionOf(lines, st, ev, c.trans))
      && (forall st :: 0 <= st < c.states ==> entry[st] == ActionOf(lines, st, STATE_ENTRY, c.entry))
      && (forall st :: 0 <= st < c.states ==> leave[st] == ActionOf(lines, st, STATE_LEAVE, c.leave))
    }

    /** The table without any line. */
    constructor (c: Config)
      ensures this.c == c && Means([])
      ensures fresh(next) && fresh(trans) && fresh(entry) && fresh(leave)
    {
      this.c := c;
      next := new int[c.states, c.events]((_, _) => ST_STAY);
      trans := new Callback[c.states, c.events]((_, _) => c.trans);
      entry := new Callback[c.states](_ => c.entry);
      leave := new Callback[c.states](_ => c.leave);
    }

    /** Enter one acceptable line. */
    method Apply(lines: seq<Line>, n: nat)
      requires n < |lines| && Means(lines[..n]) && Acceptable(c, lines[..n], lines[n])
      modifies next, trans, entry, leave
      ensures Means(lines[..n + 1])
    {
      var l := lines[n];
      forall st, ev
        ensures NextOf(lines[..n + 1], st, ev) ==
                if l.state == st && l.event == ev then l.next else NextOf(lines[..n], st, ev)
      {
        LastLineStep(lines, n, st, ev);
      }
      forall st, ev, d
        ensures ActionOf(lines[..n + 1], st, ev, d) ==
                if l.state == st && l.event == ev then l.action else ActionOf(lines[..n], st, ev, d)
      {
        LastLineStep(lines, n, st, ev);
      }
      assert 0 <= l.state < c.states;
      hide NextOf, ActionOf;
      if l.event == STATE_ENTRY {
        entry[l.state] := l.action;
      } else if l.event == STATE_LEAVE {
        leave[l.state] := l.action;
      } else {
        next[l.state, l.event] := l.next;
        trans[l.state, l.event] := l.action;
      }
    }

    /** Expand a short table; it stops at the end mark, or fails at a bad line and keeps what came before. */
    method ProcessSparseTable(lines: seq<Line>) returns (ok: bool)
      requires Means([]) && exists i :: 0 <= i < |lines| && lines[i].state == NO_ST
      modifies next, trans, entry, leave
      ensures var n := Accepted(c, lines, 0);
              Means(lines[..n]) && n < |lines| && (ok <==> lines[n].state == NO_ST)
    {
      hide Means;
      var n := 0;
      ghost var end :| 0 <= end < |lines| && lines[end].state == NO_ST;
      assert lines[..0] == [];
      while lines[n].state != NO_ST
        invariant 0 <= n <= end && Means(lines[..n]) && Accepted(c, lines, 0) == Accepted(c, lines, n)
        decreases end - n
      {
        var good := Check(lines, n);
        if !good {
          return false;
        }
        Apply(lines, n);
        n := n + 1;
      }
      return true;
    }

    /** The checks on a line, made against the table as filled so far. */
    method Check(lines: seq<Line>, n: nat) returns (good: bool)
      requires n < |lines| && Means(lines[..n])
      ensures good <==> Acceptable(c, lines[..n], lines[n])
    {
      hide NextOf, ActionOf;
      var l := lines[n];
      if l.state < 0 || l.state >= c.states {
        return false;
      }
      if l.event == STATE_ENTRY || l.event == STATE_LEAVE {
        return true;
      }
      if l.event < 0 || l.event >= c.events || l.next >= c.states {
        return false;
      }
      return trans[l.state, l.event] == c.trans;
    }
  }
}
