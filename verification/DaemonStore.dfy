/**
 The daemon's record of processes and their sockets: a table of processes, each
 with a table of sockets, kept up to date by messages.  The tables behave as
 module HashTable proves: a full one refuses every put, and storing or removing
 frees the record that was there.
 */
module DaemonStore {
  import HashTable

  /** The address of an allocated record. */
  type Handle = nat

  /** What a message says about a socket. */
  datatype Sock = Sock(stream: bool, state: nat, src: nat, dst: nat)

  const CLOSED: nat := 0
  const ESTABLISHED: nat := 4

  /** A closed stream is not worth recording. */
  predicate Gone(sock: Sock)
  {
    sock.state == CLOSED && sock.stream
  }

  datatype ProcRec = ProcRec(pid: nat, fids: map<nat, Handle>)

  datatype SockRec = SockRec(fid: nat, sock: Sock, owner: Handle)

  datatype Store = Store(
    maxPids: nat,
    maxFids: nat,
    pids: map<nat, Handle>,           // the table of processes
    procs: map<Handle, ProcRec>,      // memory: process records
    socks: map<Handle, SockRec>,      // memory: socket records
    next: Handle,                     // addresses below have been handed out
    freed: multiset<Handle>)          // every call of free

  datatype Msg = Init(pid: nat) | State(pid: nat, fid: nat, sock: Sock) | Exit(pid: nat) | Clean(pid: nat)

  // ---------- the code ----------

  /** The process record at an address. */
  function Proc(s: Store, h: Handle): ProcRec
  {
    if h in s.procs then s.procs[h] else ProcRec(0, map[])
  }

  /** Free a process record and, through its table, every socket record in it. */
  function FreeProc(s: Store, h: Handle): Store
  {
    var mine := Proc(s, h).fids.Values;
    s.(procs := s.procs - {h}, socks := s.socks - mine, freed := s.freed + multiset(mine) + multiset{h})
  }

  /** Store a new process record, unless the table is full. */
  function DoInit(s: Store, pid: nat): Store
  {
    var h := s.next;
    if |s.pids| >= s.maxPids then s.(next := h + 1, freed := s.freed + multiset{h})
    else
      var t := if pid in s.pids then FreeProc(s, s.pids[pid]) else s;
      t.(pids := t.pids[pid := h], procs := t.procs[h := ProcRec(pid, map[])], next := h + 1)
  }

  /** Remove a process. */
  function DoExit(s: Store, pid: nat): Store
  {
    if pid !in s.pids then s
    else
      var t := FreeProc(s, s.pids[pid]);
      t.(pids := t.pids - {pid})
  }

  /** The socket record of a descriptor is freed. */
  function FreeSock(s: Store, p: ProcRec, fid: nat): Store
  {
    if fid !in p.fids then s
    else s.(socks := s.socks - {p.fids[fid]}, freed := s.freed + multiset{p.fids[fid]})
  }

  /** Record a socket; a closed stream is forgotten instead, and an unknown process ignored. */
  function DoState(s: Store, pid: nat, fid: nat, sock: Sock): Store
  {
    if pid !in s.pids then s
    else
      var a := s.pids[pid];
      var p := Proc(s, a);
      if Gone(sock) then
        FreeSock(s, p, fid).(procs := s.procs[a := p.(fids := p.fids - {fid})])
      else
        var h := s.next;
        if |p.fids| >= s.maxFids then s.(next := h + 1, freed := s.freed + multiset{h})
        else
          var t := FreeSock(s, p, fid);
          t.(procs := t.procs[a := p.(fids := p.fids[fid := h])],
             socks := t.socks[h := SockRec(fid, sock, a)], next := h + 1)
  }

  function Step(s: Store, m: Msg): Store
  {
    match m
    case Init(pid) => DoInit(s, pid)
    case State(pid, fid, sock) => DoState(s, pid, fid, sock)
    case Exit(pid) => DoExit(s, pid)
    case Clean(pid) => DoExit(s, pid)
  }

  // ---------- what it is meant to record ----------

  type Record = map<nat, map<nat, Sock>>

  function WithSock(r: Record, pid: nat, fid: nat, sock: Sock): Record
    requires pid in r
  {
    var more: map<nat, Sock> := r[pid][fid := sock];
    r[pid := more]
  }

  function RefStep(maxPids: nat, maxFids: nat, r: Record, m: Msg): Record
  {
    match m
    case Init(pid) => if |r| >= maxPids then r else r[pid := map[]]
    case State(pid, fid, sock) =>
      if pid !in r then r
      else if Gone(sock) then r[pid := r[pid] - {fid}]
      else if |r[pid]| >= maxFids then r
      else WithSock(r, pid, fid, sock)
    case Exit(pid) => r - {pid}
    case Clean(pid) => r - {pid}
  }

  /** The table of processes and the process records refer to each other. */
  ghost predicate ProcsLinked(pids: map<nat, Handle>, procs: map<Handle, ProcRec>)
  {
    && (forall p :: p in pids ==> pids[p] in procs && procs[pids[p]].pid == p)
    && (forall h :: h in procs ==> procs[h].pid in pids && pids[procs[h].pid] == h)
  }

  /** So do the tables of sockets and the socket records. */
  ghost predicate SocksLinked(procs: map<Handle, ProcRec>, socks: map<Handle, SockRec>)
  {
    && (forall h, f :: h in procs && f in procs[h].fids ==> Owned(socks, procs[h].fids[f], h, f))
    && (forall x :: x in socks ==>
          && socks[x].owner in procs && socks[x].fid in procs[socks[x].owner].fids
          && procs[socks[x].owner].fids[socks[x].fid] == x)
  }

  ghost predicate Owned(socks: map<Handle, SockRec>, x: Handle, h: Handle, f: nat)
  {
    x in socks && socks[x].owner == h && socks[x].fid == f
  }

  ghost predicate Linked(s: Store)
  {
    ProcsLinked(s.pids, s.procs) && SocksLinked(s.procs, s.socks)
  }

  /** Addresses handed out. */
  function Allocated(n: Handle): set<Handle>
  {
    if n <= 1 then {} else Allocated(n - 1) + {n - 1}
  }

  /** Every record ever allocated is in memory, and reachable, or was freed once. */
  ghost predicate Balanced(s: Store)
  {
    s.next >= 1 && s.freed + multiset(s.procs.Keys) + multiset(s.socks.Keys) == multiset(Allocated(s.next))
  }

  ghost predicate Inv(s: Store)
  {
    Linked(s) && Balanced(s)
  }

  /** What the tables and records say, as a plain map of maps. */
  ghost function View(s: Store): (r: Record)
    ensures r.Keys == s.pids.Keys
  {
    map p | p in s.pids :: Socks(s.procs, s.socks, s.pids[p])
  }

  ghost function Socks(procs: map<Handle, ProcRec>, socks: map<Handle, SockRec>, h: Handle): (m: map<nat, Sock>)
    ensures h in procs ==> m.Keys == procs[h].fids.Keys
  {
    if h !in procs then map[] else map f | f in procs[h].fids :: SockAt(socks, procs[h].fids[f])
  }

  ghost function SockAt(socks: map<Handle, SockRec>, x: Handle): Sock
  {
    if x in socks then socks[x].sock else Sock(false, 0, 0, 0)
  }

  // ---------- memory is accounted for ----------

  lemma {:induction false} AllocatedIs(n: Handle, h: Handle)
    ensures h in Allocated(n) <==> 1 <= h < n
  {
    if n > 1 { AllocatedIs(n - 1, h); }
  }

  /** A new address is not in use. */
  lemma NewHandle(s: Store)
    requires Balanced(s)
    ensures s.next >= 1 && s.next !in s.procs && s.next !in s.socks
    ensures multiset(Allocated(s.next + 1)) == multiset(Allocated(s.next)) + multiset{s.next}
  {
    AllocatedIs(s.next, s.next);
    assert s.next in s.procs ==> s.next in multiset(s.procs.Keys);
    assert s.next in s.socks ==> s.next in multiset(s.socks.Keys);
    assert s.next !in multiset(Allocated(s.next));
  }

  lemma NewProc(s: Store, r: Store, p: ProcRec)
    requires Balanced(s) && r.procs == s.procs[s.next := p]
    requires r.socks == s.socks && r.freed == s.freed && r.next == s.next + 1
    ensures Balanced(r)
  {
    NewHandle(s);
    assert r.procs.Keys == s.procs.Keys + {s.next};
  }

  lemma NewSock(s: Store, r: Store, x: SockRec)
    requires Balanced(s) && r.socks == s.socks[s.next := x]
    requires r.procs.Keys == s.procs.Keys && r.freed == s.freed && r.next == s.next + 1
    ensures Balanced(r)
  {
    NewHandle(s);
    assert r.socks.Keys == s.socks.Keys + {s.next};
  }

  /** Taking keys out of a map takes them out of its keys. */
  lemma Removed<V>(m: map<Handle, V>, gone: set<Handle>)
    requires gone <= m.Keys
    ensures multiset((m - gone).Keys) + multiset(gone) == multiset(m.Keys)
  {
    assert (m - gone).Keys == m.Keys - gone;
  }

  lemma FreeProcBalanced(s: Store, h: Handle)
    requires Inv(s) && h in s.procs
    ensures Balanced(FreeProc(s, h)) && FreeProc(s, h).next == s.next
  {
    var mine := s.procs[h].fids.Values;
    assert mine <= s.socks.Keys;
    Removed(s.socks, mine);
    Removed(s.procs, {h});
  }

  lemma FreeSockBalanced(s: Store, a: Handle, fid: nat)
    requires Inv(s) && a in s.procs
    ensures Balanced(FreeSock(s, s.procs[a], fid))
  {
    var p := s.procs[a];
    if fid in p.fids {
      Removed(s.socks, {p.fids[fid]});
    }
  }

  /** A record that no table takes is freed at once. */
  lemma RefusedBalanced(s: Store)
    requires Balanced(s)
    ensures Balanced(s.(next := s.next + 1, freed := s.freed + multiset{s.next}))
  {
    NewHandle(s);
  }

  lemma InitBalanced(s: Store, pid: nat)
    requires Inv(s)
    ensures Balanced(DoInit(s, pid))
  {
    hide Linked, FreeProc, Balanced;
    if |s.pids| >= s.maxPids {
      RefusedBalanced(s);
    } else {
      if pid in s.pids {
        Present(s, pid);
        FreeProcBalanced(s, s.pids[pid]);
      }
      NewProc(if pid in s.pids then FreeProc(s, s.pids[pid]) else s, DoInit(s, pid), ProcRec(pid, map[]));
    }
  }

  /** A process in the table has its record in memory. */
  lemma Present(s: Store, pid: nat)
    requires Linked(s) && pid in s.pids
    ensures s.pids[pid] in s.procs && s.procs[s.pids[pid]].pid == pid
  {
  }

  lemma SameBalance(s: Store, r: Store)
    requires Balanced(s) && r.procs.Keys == s.procs.Keys
    requires r.socks == s.socks && r.freed == s.freed && r.next == s.next
    ensures Balanced(r)
  {
  }

  lemma StateBalanced(s: Store, pid: nat, fid: nat, sock: Sock)
    requires Inv(s)
    ensures Balanced(DoState(s, pid, fid, sock))
  {
    hide Linked, Balanced;
    if pid in s.pids {
      Present(s, pid);
      var a := s.pids[pid];
      var t, r := FreeSock(s, s.procs[a], fid), DoState(s, pid, fid, sock);
      FreeSockBalanced(s, a, fid);
      assert r.procs.Keys == s.procs.Keys;
      if Gone(sock) {
        SameBalance(t, r);
      } else if |s.procs[a].fids| >= s.maxFids {
        RefusedBalanced(s);
      } else {
        NewSock(t, r, SockRec(fid, sock, a));
      }
    }
  }

  lemma ExitBalanced(s: Store, pid: nat)
    requires Inv(s)
    ensures Balanced(DoExit(s, pid))
  {
    if pid in s.pids { FreeProcBalanced(s, s.pids[pid]); }
  }

  // ---------- tables and memory stay linked ----------

  lemma ExitProcs(s: Store, pid: nat)
    requires Linked(s)
    ensures var t := DoExit(s, pid); ProcsLinked(t.pids, t.procs)
  {
    hide SocksLinked;
  }

  /** The records in a process's table are those it owns. */
  lemma OwnRecords(s: Store, h: Handle, x: Handle)
    requires Linked(s) && h in s.procs
    ensures x in s.procs[h].fids.Values <==> x in s.socks && s.socks[x].owner == h
  {
    hide ProcsLinked;
    if x in s.procs[h].fids.Values {
      var f :| f in s.procs[h].fids && s.procs[h].fids[f] == x;
      assert Owned(s.socks, s.procs[h].fids[f], h, f);
    }
  }

  lemma ExitSocks(s: Store, pid: nat)
    requires Linked(s)
    ensures var t := DoExit(s, pid); SocksLinked(t.procs, t.socks)
  {
    hide ProcsLinked;
    if pid in s.pids {
      Present(s, pid);
      var h := s.pids[pid];
      var t := DoExit(s, pid);
      forall a, f | a in t.procs && f in t.procs[a].fids
        ensures Owned(t.socks, t.procs[a].fids[f], a, f)
      {
        assert Owned(s.socks, s.procs[a].fids[f], a, f);
        OwnRecords(s, h, s.procs[a].fids[f]);
      }
      forall x | x in t.socks
        ensures t.socks[x].owner in t.procs
      {
        OwnRecords(s, h, x);
      }
    }
  }

  /** A process record and its socket records that were not touched still say the same. */
  lemma SameSocks(s: Store, t: Store, h: Handle)
    requires Linked(s) && h in s.procs && h in t.procs && t.procs[h].fids == s.procs[h].fids
    requires forall x :: x in s.socks && s.socks[x].owner == h ==> x in t.socks && t.socks[x] == s.socks[x]
    ensures Socks(t.procs, t.socks, h) == Socks(s.procs, s.socks, h)
  {
    hide ProcsLinked;
    forall f | f in s.procs[h].fids
      ensures SockAt(t.socks, s.procs[h].fids[f]) == SockAt(s.socks, s.procs[h].fids[f])
    {
      assert Owned(s.socks, s.procs[h].fids[f], h, f);
    }
  }

  lemma ExitView(s: Store, pid: nat)
    requires Linked(s)
    ensures View(DoExit(s, pid)) == View(s) - {pid}
  {
    hide Socks, Linked;
    var t := DoExit(s, pid);
    forall p | p in t.pids
      ensures Socks(t.procs, t.socks, t.pids[p]) == Socks(s.procs, s.socks, s.pids[p])
    {
      OthersStay(s, pid, p);
    }
  }

  /** Removing one process leaves the records of another. */
  lemma OthersStay(s: Store, pid: nat, p: nat)
    requires Linked(s) && p in s.pids && p != pid
    ensures var t := DoExit(s, pid); Socks(t.procs, t.socks, s.pids[p]) == Socks(s.procs, s.socks, s.pids[p])
  {
    hide Socks;
    if pid in s.pids {
      var h, t := s.pids[p], DoExit(s, pid);
      assert h != s.pids[pid];
      forall x | x in s.socks && s.socks[x].owner == h
        ensures x in t.socks
      {
        OwnRecords(s, s.pids[pid], x);
      }
      SameSocks(s, t, h);
    }
  }

  /** A record for a process that the table does not have. */
  function Add(t: Store, pid: nat, h: Handle): Store
  {
    t.(pids := t.pids[pid := h], procs := t.procs[h := ProcRec(pid, map[])], next := h + 1)
  }

  /** A new process replaces the one with its number. */
  lemma InitIsExitThenAdd(s: Store, pid: nat)
    requires Linked(s) && |s.pids| < s.maxPids
    ensures DoInit(s, pid) == Add(DoExit(s, pid), pid, s.next)
  {
    if pid in s.pids {
      assert (s.pids - {pid})[pid := s.next] == s.pids[pid := s.next];
    }
  }

  lemma AddLinked(t: Store, pid: nat, h: Handle)
    requires Linked(t) && pid !in t.pids && h !in t.procs
    ensures Linked(Add(t, pid, h))
  {
  }

  lemma AddView(t: Store, pid: nat, h: Handle)
    requires Linked(t) && pid !in t.pids && h !in t.procs
    ensures View(Add(t, pid, h)) == View(t)[pid := map[]]
  {
    hide Linked, Socks;
    var r := Add(t, pid, h);
    assert Socks(r.procs, r.socks, h) == map[] by { NoSocks(r.procs, r.socks, h); }
    forall p | p in t.pids
      ensures Socks(r.procs, r.socks, t.pids[p]) == Socks(t.procs, t.socks, t.pids[p])
    {
      Present(t, p);
      SameSocks(t, r, t.pids[p]);
    }
  }

  lemma NoSocks(procs: map<Handle, ProcRec>, socks: map<Handle, SockRec>, h: Handle)
    requires h in procs && procs[h].fids == map[]
    ensures Socks(procs, socks, h) == map[]
  {
  }

  lemma SameView(s: Store, r: Store)
    requires r.pids == s.pids && r.procs == s.procs && r.socks == s.socks
    ensures View(r) == View(s)
  {
  }

  lemma Replaced(r: Record, pid: nat)
    ensures (r - {pid})[pid := map[]] == r[pid := map[]]
  {
  }

  lemma InitKeeps(s: Store, pid: nat)
    requires Inv(s)
    ensures Linked(DoInit(s, pid)) && View(DoInit(s, pid)) == RefStep(s.maxPids, s.maxFids, View(s), Init(pid))
  {
    if |s.pids| < s.maxPids {
      hide Linked, View, DoExit, DoInit, Balanced, Add;
      ExitKeeps(s, pid);
      NewHandle(s);
      InitIsExitThenAdd(s, pid);
      AddLinked(DoExit(s, pid), pid, s.next);
      AddView(DoExit(s, pid), pid, s.next);
      Replaced(View(s), pid);
    } else {
      hide ProcsLinked, SocksLinked, View;
      SameView(s, DoInit(s, pid));
    }
  }

  lemma ExitKeeps(s: Store, pid: nat)
    requires Linked(s)
    ensures Linked(DoExit(s, pid)) && View(DoExit(s, pid)) == View(s) - {pid}
    ensures DoExit(s, pid).procs.Keys <= s.procs.Keys && pid !in DoExit(s, pid).pids
  {
    ExitProcs(s, pid);
    ExitSocks(s, pid);
    hide SocksLinked, View;
    ExitView(s, pid);
  }

  /** Drop the socket `fid` of a process. */
  function Forget(s: Store, a: Handle, fid: nat): Store
  {
    var p := Proc(s, a);
    FreeSock(s, p, fid).(procs := s.procs[a := p.(fids := p.fids - {fid})])
  }

  /** Enter a socket record for `fid`, which the process does not have. */
  function Enter(t: Store, a: Handle, fid: nat, sock: Sock): Store
  {
    var p, h := Proc(t, a), t.next;
    t.(procs := t.procs[a := p.(fids := p.fids[fid := h])], socks := t.socks[h := SockRec(fid, sock, a)], next := h + 1)
  }

  /** An update drops what was recorded before and enters the new record. */
  lemma StateIs(s: Store, pid: nat, fid: nat, sock: Sock)
    requires pid in s.pids
    ensures var a := s.pids[pid];
            var p := Proc(s, a);
            DoState(s, pid, fid, sock) ==
              if Gone(sock) then Forget(s, a, fid)
              else if |p.fids| >= s.maxFids then s.(next := s.next + 1, freed := s.freed + multiset{s.next})
              else Enter(Forget(s, a, fid), a, fid, sock)
  {
    hide FreeSock, Proc;
    var a := s.pids[pid];
    var p, t := Proc(s, a), Forget(s, a, fid);
    FreeSockShape(s, p, fid);
    Rewritten(s.procs, a, p, fid, s.next);
    assert Proc(t, a) == p.(fids := p.fids - {fid}) by { ProcIs(t, a); }
  }

  lemma ProcIs(s: Store, a: Handle)
    requires a in s.procs
    ensures Proc(s, a) == s.procs[a]
  {
  }

  lemma FreeSockShape(s: Store, p: ProcRec, fid: nat)
    ensures var t := FreeSock(s, p, fid); t == s.(socks := t.socks, freed := t.freed)
  {
  }

  lemma Rewritten(procs: map<Handle, ProcRec>, a: Handle, p: ProcRec, fid: nat, h: Handle)
    ensures var less := p.(fids := p.fids - {fid});
            procs[a := less][a := less.(fids := less.fids[fid := h])] == procs[a := p.(fids := p.fids[fid := h])]
  {
    assert (p.fids - {fid})[fid := h] == p.fids[fid := h];
  }

  /** Changing the sockets in a process record does not concern the table of processes. */
  lemma SameProcs(pids: map<nat, Handle>, procs: map<Handle, ProcRec>, a: Handle, p: ProcRec)
    requires ProcsLinked(pids, procs) && a in procs && p.pid == procs[a].pid
    ensures ProcsLinked(pids, procs[a := p])
  {
  }

  lemma ForgetLinked(s: Store, a: Handle, fid: nat)
    requires Linked(s) && a in s.procs
    ensures Linked(Forget(s, a, fid))
  {
    hide ProcsLinked;
    var t := Forget(s, a, fid);
    SameProcs(s.pids, s.procs, a, t.procs[a]);
    forall h, f | h in t.procs && f in t.procs[h].fids
      ensures Owned(t.socks, t.procs[h].fids[f], h, f)
    {
      assert Owned(s.socks, s.procs[h].fids[f], h, f);
      assert fid in s.procs[a].fids ==> Owned(s.socks, s.procs[a].fids[fid], a, fid);
    }
  }

  lemma EnterLinked(t: Store, a: Handle, fid: nat, sock: Sock)
    requires Linked(t) && a in t.procs && fid !in t.procs[a].fids && t.next !in t.socks
    ensures Linked(Enter(t, a, fid, sock))
  {
    hide ProcsLinked;
    var r := Enter(t, a, fid, sock);
    SameProcs(t.pids, t.procs, a, r.procs[a]);
    forall h, f | h in r.procs && f in r.procs[h].fids
      ensures Owned(r.socks, r.procs[h].fids[f], h, f)
    {
      assert h in t.procs && f in t.procs[h].fids ==> Owned(t.socks, t.procs[h].fids[f], h, f);
    }
    forall x | x in r.socks
      ensures var o := r.socks[x].owner;
              o in r.procs && r.socks[x].fid in r.procs[o].fids && r.procs[o].fids[r.socks[x].fid] == x
    {
      assert x != t.next ==> x in t.socks;
    }
  }

  /** When only the sockets of one process change, the record changes at that process. */
  lemma ViewChange(s: Store, t: Store, pid: nat, m: map<nat, Sock>)
    requires Linked(s) && pid in s.pids && t.pids == s.pids && Socks(t.procs, t.socks, s.pids[pid]) == m
    requires forall h :: h in s.procs && h != s.pids[pid] ==> Socks(t.procs, t.socks, h) == Socks(s.procs, s.socks, h)
    ensures View(t) == View(s)[pid := m]
  {
    hide SocksLinked, Socks;
  }

  lemma ForgetView(s: Store, pid: nat, fid: nat)
    requires Linked(s) && pid in s.pids
    ensures View(Forget(s, s.pids[pid], fid)) == View(s)[pid := View(s)[pid] - {fid}]
  {
    hide ProcsLinked;
    Present(s, pid);
    var a := s.pids[pid];
    var t := Forget(s, a, fid);
    forall h | h in s.procs && h != a
      ensures Socks(t.procs, t.socks, h) == Socks(s.procs, s.socks, h)
    {
      assert fid in s.procs[a].fids ==> Owned(s.socks, s.procs[a].fids[fid], a, fid);
      SameSocks(s, t, h);
    }
    assert Socks(t.procs, t.socks, a) == View(s)[pid] - {fid} by { ForgetSocks(s, a, fid); }
    hide Socks, SocksLinked, Forget;
    ViewChange(s, t, pid, View(s)[pid] - {fid});
  }

  lemma ForgetSocks(s: Store, a: Handle, fid: nat)
    requires Linked(s) && a in s.procs
    ensures var t := Forget(s, a, fid); Socks(t.procs, t.socks, a) == Socks(s.procs, s.socks, a) - {fid}
  {
    hide ProcsLinked;
    var t, p := Forget(s, a, fid), s.procs[a];
    forall f | f in p.fids && f != fid
      ensures SockAt(t.socks, p.fids[f]) == SockAt(s.socks, p.fids[f])
    {
      assert Owned(s.socks, p.fids[f], a, f);
      assert fid in p.fids ==> Owned(s.socks, p.fids[fid], a, fid);
    }
  }

  lemma EnterView(t: Store, pid: nat, fid: nat, sock: Sock)
    requires Linked(t) && pid in t.pids && t.next !in t.socks
    ensures View(Enter(t, t.pids[pid], fid, sock)) == WithSock(View(t), pid, fid, sock)
  {
    hide ProcsLinked;
    Present(t, pid);
    var a := t.pids[pid];
    var r := Enter(t, a, fid, sock);
    var more: map<nat, Sock> := View(t)[pid][fid := sock];
    forall h | h in t.procs && h != a
      ensures Socks(r.procs, r.socks, h) == Socks(t.procs, t.socks, h)
    {
      SameSocks(t, r, h);
    }
    assert Socks(r.procs, r.socks, a) == more by { EnterSocks(t, a, fid, sock); }
    hide Socks, SocksLinked, Enter;
    ViewChange(t, r, pid, more);
  }

  lemma EnterSocks(t: Store, a: Handle, fid: nat, sock: Sock)
    requires Linked(t) && a in t.procs && t.next !in t.socks
    ensures var r := Enter(t, a, fid, sock);
            Socks(r.procs, r.socks, a) == Socks(t.procs, t.socks, a)[fid := sock]
  {
    hide ProcsLinked;
    var r, p := Enter(t, a, fid, sock), t.procs[a];
    forall f | f in p.fids && f != fid
      ensures SockAt(r.socks, p.fids[f]) == SockAt(t.socks, p.fids[f])
    {
      assert Owned(t.socks, p.fids[f], a, f);
    }
  }

  lemma StateKeeps(s: Store, pid: nat, fid: nat, sock: Sock)
    requires Inv(s)
    ensures var r := DoState(s, pid, fid, sock);
            Linked(r) && View(r) == RefStep(s.maxPids, s.maxFids, View(s), State(pid, fid, sock))
  {
    hide ProcsLinked, SocksLinked, DoState, Forget, Enter, Socks;
    if pid in s.pids {
      var a := s.pids[pid];
      Present(s, pid);
      StateIs(s, pid, fid, sock);
      Recorded(s, pid);
      if Gone(sock) {
        ForgetLinked(s, a, fid);
        ForgetView(s, pid, fid);
      } else if |s.procs[a].fids| < s.maxFids {
        var t := Forget(s, a, fid);
        NewHandle(s);
        ForgetLinked(s, a, fid);
        ForgetView(s, pid, fid);
        Forgotten(s, a, fid);
        EnterLinked(t, a, fid, sock);
        EnterView(t, pid, fid, sock);
        UpdateTwice(View(s), pid, fid, sock);
      }
    } else {
      assert DoState(s, pid, fid, sock) == s by { Unknown(s, pid, fid, sock); }
    }
  }

  lemma Unknown(s: Store, pid: nat, fid: nat, sock: Sock)
    requires pid !in s.pids
    ensures DoState(s, pid, fid, sock) == s
  {
  }

  lemma Recorded(s: Store, pid: nat)
    requires Linked(s) && pid in s.pids
    ensures |View(s)[pid]| == |s.procs[s.pids[pid]].fids|
  {
    assert View(s)[pid].Keys == s.procs[s.pids[pid]].fids.Keys;
  }

  lemma Forgotten(s: Store, a: Handle, fid: nat)
    requires a in s.procs
    ensures var t := Forget(s, a, fid);
            && t.pids == s.pids && t.next == s.next && a in t.procs && fid !in t.procs[a].fids
            && t.socks.Keys <= s.socks.Keys
  {
  }

  lemma UpdateTwice(r: Record, pid: nat, fid: nat, sock: Sock)
    requires pid in r
    ensures WithSock(r[pid := r[pid] - {fid}], pid, fid, sock) == WithSock(r, pid, fid, sock)
  {
    assert (r[pid] - {fid})[fid := sock] == r[pid][fid := sock];
  }

  // ---------- every run ----------

  /**
   A message that puts nothing under the key that marks free slots.  That key is process number -1
   or descriptor 0xFFFFFFFF; no table can hold it.
   */
  predicate Storable(m: Msg)
  {
    match m
    case Init(pid) => pid != HashTable.KEY_INVALID
    case State(_, fid, sock) => fid != HashTable.KEY_INVALID || Gone(sock)
    case _ => true
  }

  /** Any message keeps the store consistent and records what it should. */
  lemma StepKeeps(s: Store, m: Msg)
    requires Inv(s)
    ensures Inv(Step(s, m)) && View(Step(s, m)) == RefStep(s.maxPids, s.maxFids, View(s), m)
    ensures Step(s, m).maxPids == s.maxPids && Step(s, m).maxFids == s.maxFids
  {
    hide Linked, Balanced, View, Socks;
    match m
    case Init(pid) => InitBalanced(s, pid); InitKeeps(s, pid);
    case State(pid, fid, sock) => StateBalanced(s, pid, fid, sock); StateKeeps(s, pid, fid, sock);
    case Exit(pid) => ExitBalanced(s, pid); ExitKeeps(s, pid);
    case Clean(pid) => ExitBalanced(s, pid); ExitKeeps(s, pid);
  }

  function Run(s: Store, ms: seq<Msg>): Store
    decreases |ms|
  {
    if ms == [] then s else Run(Step(s, ms[0]), ms[1..])
  }

  function RefRun(maxPids: nat, maxFids: nat, r: Record, ms: seq<Msg>): Record
    decreases |ms|
  {
    if ms == [] then r else RefRun(maxPids, maxFids, RefStep(maxPids, maxFids, r, ms[0]), ms[1..])
  }

  /**
   After any messages with storable keys the two levels of tables say what the messages, folded over
   a plain map, say; and every record ever allocated is reachable or was freed exactly once.
   */
  lemma {:induction false} RunRefines(s: Store, ms: seq<Msg>)
    requires Inv(s) && forall i :: 0 <= i < |ms| ==> Storable(ms[i])
    ensures Inv(Run(s, ms)) && View(Run(s, ms)) == RefRun(s.maxPids, s.maxFids, View(s), ms)
    decreases |ms|
  {
    hide Inv, Step, RefStep, View;
    if ms != [] {
      StepKeeps(s, ms[0]);
      RunRefines(Step(s, ms[0]), ms[1..]);
    }
  }

  /** A store without processes has freed everything, once. */
  lemma AllFreed(s: Store)
    requires Inv(s) && s.pids == map[]
    ensures s.freed == multiset(Allocated(s.next))
  {
    assert s.procs.Keys == {};
    assert s.socks.Keys == {};
  }

  // ---------- what is recorded, in terms of the messages ----------

  /**
   A socket message to a known process: a closed stream (state 0 of a stream) is forgotten, anything
   else is recorded if there is room, and nothing else changes.
   */
  lemma StateSays(s: Store, pid: nat, fid: nat, sock: Sock)
    requires Inv(s) && pid in s.pids
    ensures var u, v := View(s), View(DoState(s, pid, fid, sock));
            && v.Keys == u.Keys
            && (sock.state == 0 && sock.stream ==> v[pid] == u[pid] - {fid})
            && ((sock.state != 0 || !sock.stream) && |u[pid]| < s.maxFids ==> v[pid] == u[pid][fid := sock])
            && ((sock.state != 0 || !sock.stream) && |u[pid]| >= s.maxFids ==> v[pid] == u[pid])
            && (forall p :: p in u && p != pid ==> v[p] == u[p])
  {
    hide Linked, Balanced, View, DoState;
    StepKeeps(s, State(pid, fid, sock));
  }

  /** The last message that starts or ends a process starts it. */
  predicate Started(ms: seq<Msg>, pid: nat)
  {
    ms != [] &&
    var n := |ms| - 1;
    if ms[n].State? || ms[n].pid != pid then Started(ms[..n], pid) else ms[n].Init?
  }

  datatype Word = Silent | Said(sock: Sock)

  /** What the last message that concerns a socket says of it. */
  function LastWord(ms: seq<Msg>, pid: nat, fid: nat): Word
  {
    if ms == [] then Silent
    else
      var n := |ms| - 1;
      if ms[n].pid != pid || (ms[n].State? && ms[n].fid != fid) then LastWord(ms[..n], pid, fid)
      else if !ms[n].State? || !Started(ms[..n], pid) || (ms[n].sock.state == 0 && ms[n].sock.stream) then Silent
      else Said(ms[n].sock)
  }

  lemma {:induction false} RefRunSnoc(maxPids: nat, maxFids: nat, r: Record, ms: seq<Msg>)
    requires ms != []
    ensures var n := |ms| - 1;
            RefRun(maxPids, maxFids, r, ms) == RefStep(maxPids, maxFids, RefRun(maxPids, maxFids, r, ms[..n]), ms[n])
    decreases |ms|
  {
    hide RefStep;
    var n := |ms| - 1;
    if n == 0 {
      assert ms[1..] == [] && ms[..0] == [];
    } else {
      RefRunSnoc(maxPids, maxFids, RefStep(maxPids, maxFids, r, ms[0]), ms[1..]);
      assert ms[1..][..n - 1] == ms[..n][1..];
    }
  }

  /** A record is no larger than the number of messages behind it. */
  ghost predicate Small(r: Record, n: nat)
  {
    |r| <= n && forall p :: p in r ==> |r[p]| <= n
  }

  lemma SmallStep(maxPids: nat, maxFids: nat, r: Record, m: Msg, n: nat)
    requires Small(r, n)
    ensures Small(RefStep(maxPids, maxFids, r, m), n + 1)
  {
    var q := RefStep(maxPids, maxFids, r, m);
    assert q.Keys <= r.Keys + {m.pid};
    SubsetSize(q.Keys, r.Keys + {m.pid});
    if m.pid in q && m.State? && m.pid in r {
      assert q[m.pid].Keys <= r[m.pid].Keys + {m.fid};
      SubsetSize(q[m.pid].Keys, r[m.pid].Keys + {m.fid});
    }
  }

  lemma {:induction false} SubsetSize(a: set<nat>, b: set<nat>)
    requires a <= b
    ensures |a| <= |b|
  {
    if a != {} {
      var x :| x in a;
      SubsetSize(a - {x}, b - {x});
    }
  }

  /** What the record should say of a socket. */
  ghost predicate Agrees(r: Record, ms: seq<Msg>, pid: nat, fid: nat)
  {
    && (pid in r <==> Started(ms, pid))
    && (LastWord(ms, pid, fid) == if pid in r && fid in r[pid] then Said(r[pid][fid]) else Silent)
  }

  lemma AgreesStep(maxPids: nat, maxFids: nat, r: Record, ms: seq<Msg>, pid: nat, fid: nat)
    requires ms != [] && Small(r, |ms| - 1) && |ms| <= maxPids && |ms| <= maxFids
    requires Agrees(r, ms[..|ms| - 1], pid, fid)
    ensures Agrees(RefStep(maxPids, maxFids, r, ms[|ms| - 1]), ms, pid, fid)
  {
  }

  lemma {:induction false} AgreesRun(maxPids: nat, maxFids: nat, ms: seq<Msg>, pid: nat, fid: nat)
    requires |ms| <= maxPids && |ms| <= maxFids
    ensures var r := RefRun(maxPids, maxFids, map[], ms); Small(r, |ms|) && Agrees(r, ms, pid, fid)
    decreases |ms|
  {
    hide RefStep, Agrees, Small;
    if ms == [] {
      EmptyAgrees(pid, fid);
    } else {
      var n := |ms| - 1;
      AgreesRun(maxPids, maxFids, ms[..n], pid, fid);
      RefRunSnoc(maxPids, maxFids, map[], ms);
      var r := RefRun(maxPids, maxFids, map[], ms[..n]);
      SmallStep(maxPids, maxFids, r, ms[n], n);
      AgreesStep(maxPids, maxFids, r, ms, pid, fid);
    }
  }

  lemma EmptyAgrees(pid: nat, fid: nat)
    ensures Small(map[], 0) && Agrees(map[], [], pid, fid)
  {
  }

  /**
   While the tables cannot fill up, a process is recorded exactly when the last message that starts or
   ends it starts it, and a socket exactly when the last message that concerns it is about the socket
   and not a closed stream; what is recorded is what that message says.
   */
  lemma RecordedIsLast(s: Store, ms: seq<Msg>, pid: nat, fid: nat)
    requires Inv(s) && View(s) == map[] && (forall i :: 0 <= i < |ms| ==> Storable(ms[i]))
    requires |ms| <= s.maxPids && |ms| <= s.maxFids
    ensures var v := View(Run(s, ms));
            && (pid in v <==> Started(ms, pid))
            && (LastWord(ms, pid, fid) == if pid in v && fid in v[pid] then Said(v[pid][fid]) else Silent)
  {
    hide Inv, View, Run, RefRun, Storable;
    RunRefines(s, ms);
    AgreesRun(s.maxPids, s.maxFids, ms, pid, fid);
  }

  /** Message `i` recorded the socket, and no later one forgets it or ends its process. */
  ghost predicate Source(ms: seq<Msg>, i: nat, pid: nat, fid: nat, sock: Sock)
  {
    && i < |ms| && ms[i] == State(pid, fid, sock) && (sock.state != 0 || !sock.stream)
    && (forall j :: i < j < |ms| && ms[j].pid == pid ==>
          && !ms[j].Exit? && !ms[j].Clean?
          && !(ms[j].State? && ms[j].fid == fid && ms[j].sock.state == 0 && ms[j].sock.stream))
  }

  lemma {:induction false} SourceRun(maxPids: nat, maxFids: nat, ms: seq<Msg>, pid: nat, fid: nat)
    ensures var r := RefRun(maxPids, maxFids, map[], ms);
            pid in r && fid in r[pid] ==> exists i :: Source(ms, i, pid, fid, r[pid][fid])
    decreases |ms|
  {
    hide Source;
    if ms != [] {
      var n := |ms| - 1;
      SourceRun(maxPids, maxFids, ms[..n], pid, fid);
      RefRunSnoc(maxPids, maxFids, map[], ms);
      var q, r := RefRun(maxPids, maxFids, map[], ms[..n]), RefRun(maxPids, maxFids, map[], ms);
      if pid in r && fid in r[pid] {
        if ms[n].State? && ms[n].pid == pid && ms[n].fid == fid && |q[pid]| < maxFids {
          NewSource(ms, fid);
        } else {
          var i: nat :| Source(ms[..n], i, pid, fid, q[pid][fid]);
          OldSource(ms, i, pid, fid, q[pid][fid]);
        }
      }
    }
  }

  lemma NewSource(ms: seq<Msg>, fid: nat)
    requires ms != [] && ms[|ms| - 1].State? && ms[|ms| - 1].fid == fid
    requires ms[|ms| - 1].sock.state != 0 || !ms[|ms| - 1].sock.stream
    ensures Source(ms, |ms| - 1, ms[|ms| - 1].pid, fid, ms[|ms| - 1].sock)
  {
  }

  lemma OldSource(ms: seq<Msg>, i: nat, pid: nat, fid: nat, sock: Sock)
    requires ms != [] && Source(ms[..|ms| - 1], i, pid, fid, sock)
    requires var m := ms[|ms| - 1];
             m.pid == pid ==> !m.Exit? && !m.Clean? && !(m.State? && m.fid == fid && m.sock.state == 0 && m.sock.stream)
    ensures Source(ms, i, pid, fid, sock)
  {
  }

  /** Whatever the tables refuse, a recorded socket comes from a message about it and is never a closed stream. */
  lemma RecordedWasSaid(s: Store, ms: seq<Msg>, pid: nat, fid: nat)
    requires Inv(s) && View(s) == map[] && (forall i :: 0 <= i < |ms| ==> Storable(ms[i]))
    ensures var v := View(Run(s, ms));
            pid in v && fid in v[pid] ==> exists i :: Source(ms, i, pid, fid, v[pid][fid])
  {
    hide Inv, View, Run, RefRun, Storable, Source;
    RunRefines(s, ms);
    SourceRun(s.maxPids, s.maxFids, ms, pid, fid);
  }
}
