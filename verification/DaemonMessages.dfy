/**
 The daemon at work: a hash table of processes, a hash table of sockets in every
 process record, and the messages that change them.  Memory is a map from
 addresses to records.  A table reports the records it gives to its free
 function; the daemon then does what that function does.
 */
module DaemonMessages {
  import opened Buffers
  import opened DaemonStore
  import H = HashTable

  /** A process record. */
  datatype Process = Process(pid: nat, ht: H.Table)

  /** All the objects a table is made of have the same home. */
  ghost predicate Homed(home: map<object, Handle>, t: H.Table, h: Handle)
  {
    && t in home && t.keys in home && t.values in home
    && home[t] == h && home[t.keys] == h && home[t.values] == h
  }

  ghost function Settle(home: map<object, Handle>, t: H.Table, h: Handle): map<object, Handle>
  {
    home[t := h][t.keys := h][t.values := h]
  }

  /** Settling a new table moves no other. */
  lemma SettleKeeps(home: map<object, Handle>, t: H.Table, h: Handle)
    requires t !in home && t.keys !in home && t.values !in home
    ensures Homed(Settle(home, t, h), t, h)
    ensures Settle(home, t, h).Keys == home.Keys + {t, t.keys, t.values}
    ensures forall u, k :: Homed(home, u, k) ==> Homed(Settle(home, t, h), u, k)
  {
  }

  // ---------- what memory says about the tables ----------

  /** Addresses in use are not null. */
  lemma NotNull(s: Store, h: Handle)
    requires Balanced(s)
    ensures h in s.procs || h in s.socks ==> 1 <= h < s.next
  {
    AllocatedIs(s.next, h);
    assert h in s.procs ==> h in multiset(s.procs.Keys);
    assert h in s.socks ==> h in multiset(s.socks.Keys);
    assert h in s.freed + multiset(s.procs.Keys) + multiset(s.socks.Keys) ==> h in multiset(Allocated(s.next));
  }

  lemma IndexNotNull(s: Store, pid: nat)
    requires Inv(s) && pid in s.pids
    ensures s.pids[pid] in s.procs && s.procs[s.pids[pid]].pid == pid && 1 <= s.pids[pid] < s.next
  {
    NotNull(s, s.pids[pid]);
  }

  /** The sockets of a process have records of their own. */
  lemma SocketsDistinct(s: Store, h: Handle)
    requires Inv(s) && h in s.procs
    ensures H.Distinct(s.procs[h].fids)
  {
    var fids := s.procs[h].fids;
    forall f | f in fids ensures fids[f] != 0 && Owned(s.socks, fids[f], h, f) {
      NotNull(s, fids[f]);
    }
  }

  /** Storing or removing a process frees its record, if it has one. */
  lemma ProcReported(s: Store, pid: nat)
    requires Inv(s)
    ensures H.Replaced(s.pids, pid) == if pid in s.pids then [s.pids[pid]] else []
    ensures pid in s.pids ==>
              && s.pids[pid] in s.procs && s.procs[s.pids[pid]].pid == pid && 1 <= s.pids[pid] < s.next
              && H.Distinct(s.procs[s.pids[pid]].fids)
  {
    hide Linked, Balanced, H.Distinct;
    if pid in s.pids {
      IndexNotNull(s, pid);
      SocketsDistinct(s, s.pids[pid]);
    }
  }

  lemma ExitUnknown(s: Store, pid: nat)
    requires pid !in s.pids
    ensures DoExit(s, pid) == s
  {
  }

  lemma StateUnknown(s: Store, pid: nat, fid: nat, sock: Sock)
    requires pid !in s.pids
    ensures DoState(s, pid, fid, sock) == s
  {
  }

  lemma SocketsCounted(s: Store, pid: nat)
    requires Inv(s) && pid in s.pids
    ensures s.pids[pid] in s.procs && |View(s)[pid]| == |s.procs[s.pids[pid]].fids|
  {
    hide Linked, Balanced;
    IndexNotNull(s, pid);
    assert |View(s)[pid]| == |View(s)[pid].Keys| == |s.procs[s.pids[pid]].fids.Keys|;
  }

  /** A socket of a dead process that its peer takes for connected. */
  ghost predicate MustReset(s: Store, pid: nat, x: Handle)
  {
    && x in s.socks && s.socks[x].sock.state == ESTABLISHED
    && pid in s.pids && s.socks[x].owner == s.pids[pid]
  }

  /** Records of which every socket of a process appears once. */
  lemma SeenAre(s: Store, pid: nat, seen: seq<Handle>)
    requires Inv(s) && pid in s.pids && s.pids[pid] in s.procs
    requires multiset(seen) == multiset(s.procs[s.pids[pid]].fids.Values)
    ensures forall x :: multiset(seen)[x] == if x in s.socks && s.socks[x].owner == s.pids[pid] then 1 else 0
  {
    hide Linked, Balanced;
    forall x ensures multiset(seen)[x] == if x in s.socks && s.socks[x].owner == s.pids[pid] then 1 else 0 {
      OwnRecords(s, s.pids[pid], x);
    }
  }

  lemma NoNullRecord(keys: seq<nat>, values: seq<Handle>, slots: map<nat, nat>)
    requires H.Holds(keys, values, slots) && H.Distinct(H.View(keys, values, slots))
    ensures |keys| == |values| && forall i :: 0 <= i < |keys| && keys[i] != H.KEY_INVALID ==> values[i] != 0
  {
    forall i | 0 <= i < |keys| && keys[i] != H.KEY_INVALID ensures values[i] != 0 {
      assert H.View(keys, values, slots)[keys[i]] == values[i];
    }
  }

  // ---------- the order of steps does not matter ----------

  /** A new process record in memory, not in the table yet. */
  function WithRecord(s: Store, pid: nat): Store
  {
    s.(procs := s.procs[s.next := ProcRec(pid, map[])], next := s.next + 1)
  }

  /** Entering the new record before freeing the old one comes to the same. */
  lemma InitIs(s: Store, pid: nat)
    requires Inv(s) && |s.pids| < s.maxPids
    ensures var t := WithRecord(s, pid).(pids := s.pids[pid := s.next]);
            DoInit(s, pid) == if pid in s.pids then FreeProc(t, s.pids[pid]) else t
  {
    if pid in s.pids {
      IndexNotNull(s, pid);
      var h, prior := s.next, s.pids[pid];
      assert s.procs[h := ProcRec(pid, map[])] - {prior} == (s.procs - {prior})[h := ProcRec(pid, map[])];
    }
  }

  lemma InitRefusedIs(s: Store, pid: nat)
    requires Inv(s) && |s.pids| >= s.maxPids
    ensures DoInit(s, pid) == FreeProc(WithRecord(s, pid), s.next)
  {
    hide Linked, Balanced, FreeProc;
    NewHandle(s);
    var h, t := s.next, WithRecord(s, pid);
    FreeNothing(t, h);
    assert t.procs - {h} == s.procs;
  }

  lemma FreeNothing(s: Store, h: Handle)
    requires h in s.procs && s.procs[h].fids == map[]
    ensures FreeProc(s, h) == s.(procs := s.procs - {h}, freed := s.freed + multiset{h})
  {
    var none := s.procs[h].fids.Values;
    assert none == {};
    assert s.socks - none == s.socks;
  }

  lemma ExitIs(s: Store, pid: nat)
    requires pid in s.pids
    ensures DoExit(s, pid) == FreeProc(s.(pids := s.pids - {pid}), s.pids[pid])
  {
  }

  /** What a table of sockets reports is what the store frees. */
  lemma FreeSockIs(s: Store, a: Handle, fid: nat)
    requires Inv(s) && a in s.procs
    ensures var gone := H.Replaced(s.procs[a].fids, fid);
            FreeSock(s, s.procs[a], fid) == s.(socks := s.socks - Elements(gone), freed := s.freed + multiset(gone))
  {
    SocketsDistinct(s, a);
    var gone := H.Replaced(s.procs[a].fids, fid);
    if fid in s.procs[a].fids {
      assert Elements(gone) == {s.procs[a].fids[fid]};
    } else {
      assert s.socks - Elements(gone) == s.socks;
    }
  }

  /** A closed stream is taken out of its table, and its record freed. */
  lemma ForgetIs(s: Store, pid: nat, fid: nat, sock: Sock)
    requires Inv(s) && pid in s.pids && Gone(sock)
    ensures var a := s.pids[pid];
            var p := Proc(s, a);
            var gone := H.Replaced(p.fids, fid);
            DoState(s, pid, fid, sock) ==
              s.(procs := s.procs[a := p.(fids := p.fids - {fid})],
                 socks := s.socks - Elements(gone), freed := s.freed + multiset(gone))
  {
    hide Linked, Balanced, FreeSock, Elements;
    IndexNotNull(s, pid);
    FreeSockIs(s, s.pids[pid], fid);
  }

  lemma RefuseIs(s: Store, pid: nat, fid: nat, sock: Sock)
    requires Inv(s) && pid in s.pids && !Gone(sock) && |Proc(s, s.pids[pid]).fids| >= s.maxFids
    ensures var a, h := s.pids[pid], s.next;
            DoState(s, pid, fid, sock) ==
              s.(socks := s.socks[h := SockRec(fid, sock, a)] - {h}, next := h + 1, freed := s.freed + multiset{h})
  {
    hide Linked, Balanced;
    NewHandle(s);
    assert s.socks[s.next := SockRec(fid, sock, s.pids[pid])] - {s.next} == s.socks;
  }

  /** Entering the new record before freeing the old one comes to the same. */
  lemma RecordIs(s: Store, pid: nat, fid: nat, sock: Sock)
    requires Inv(s) && pid in s.pids && !Gone(sock) && |Proc(s, s.pids[pid]).fids| < s.maxFids
    ensures var a, h := s.pids[pid], s.next;
            var p := Proc(s, a);
            var gone := H.Replaced(p.fids, fid);
            DoState(s, pid, fid, sock) ==
              s.(procs := s.procs[a := p.(fids := p.fids[fid := h])], next := h + 1,
                 socks := s.socks[h := SockRec(fid, sock, a)] - Elements(gone), freed := s.freed + multiset(gone))
  {
    hide Linked, Balanced, FreeSock;
    IndexNotNull(s, pid);
    var a, h := s.pids[pid], s.next;
    FreeSockIs(s, a, fid);
    GoneIsOld(s, a, fid);
    Swap(s.socks, h, SockRec(fid, sock, a), Elements(H.Replaced(s.procs[a].fids, fid)));
  }

  lemma GoneIsOld(s: Store, a: Handle, fid: nat)
    requires Inv(s) && a in s.procs
    ensures s.next !in Elements(H.Replaced(s.procs[a].fids, fid))
  {
    NewHandle(s);
    if fid in s.procs[a].fids {
      assert Owned(s.socks, s.procs[a].fids[fid], a, fid);
    }
  }

  lemma Swap(socks: map<Handle, SockRec>, h: Handle, x: SockRec, gone: set<Handle>)
    requires h !in gone
    ensures socks[h := x] - gone == (socks - gone)[h := x]
  {
  }

  class Daemon {
    const table: H.Table                  // processes by number
    const maxFids: nat
    var procs: map<Handle, Process>       // memory: process records
    var socks: map<Handle, SockRec>       // memory: socket records
    var next: Handle
    var freed: multiset<Handle>
    ghost var index: map<nat, Handle>     // what `table` holds
    ghost var recs: map<Handle, ProcRec>  // what the process records hold
    ghost var home: map<object, Handle>   // the process that a table of sockets belongs to

    /** The state as a store of plain maps. */
    ghost function Contents(): Store
      reads this
    {
      Store(table.size, maxFids, index, recs, socks, next, freed)
    }

    /** The tables hold what the store says, and share nothing. */
    ghost predicate Sound()
      reads this`index, this`procs, this`recs, this`home, home.Keys, table, table.keys, table.values
    {
      && table.Valid() && table.Contents() == index && maxFids >= 1
      && this !in home && table !in home && table.keys !in home && table.values !in home
      && recs.Keys == procs.Keys
      && (forall h :: h in procs ==> Homed(home, procs[h].ht, h))
      && (forall h :: h in procs ==> Keeps(procs[h], recs[h]))
    }

    /** A process record whose table of sockets holds what the store says. */
    ghost predicate Keeps(p: Process, r: ProcRec)
      reads p.ht, p.ht.keys, p.ht.values
    {
      p.pid == r.pid && p.ht.Valid() && p.ht.size == maxFids && p.ht.Contents() == r.fids
    }

    ghost predicate Valid()
      reads this, home.Keys, table, table.keys, table.values
    {
      Sound() && Inv(Contents())
    }

    constructor (maxPids: nat, maxFids: nat)
      requires maxPids >= 1 && maxFids >= 1
      ensures Valid() && View(Contents()) == map[]
      ensures Contents().maxPids == maxPids && this.maxFids == maxFids
      ensures fresh(table) && fresh(table.keys) && fresh(table.values) && home == map[]
    {
      hide H.Holds, H.View;
      table := new H.Table(maxPids);
      this.maxFids := maxFids;
      procs, socks, next, freed := map[], map[], 1, multiset{};
      index, recs, home := map[], map[], map[];
    }

    method Free(x: Handle)
      modifies this`freed
      ensures freed == old(freed) + multiset{x}
    {
      freed := freed + multiset{x};
    }

    /** Free the socket records that a table has reported. */
    method FreeSocks(gone: seq<Handle>)
      modifies this`socks, this`freed
      ensures socks == old(socks) - Elements(gone) && freed == old(freed) + multiset(gone)
    {
      assert Elements(gone[..0]) == {} && socks - {} == socks;
      for i := 0 to |gone|
        invariant socks == old(socks) - Elements(gone[..i]) && freed == old(freed) + multiset(gone[..i])
      {
        assert gone[..i + 1] == gone[..i] + [gone[i]];
        assert Elements(gone[..i + 1]) == Elements(gone[..i]) + {gone[i]};
        Free(gone[i]);
        socks := socks - {gone[i]};
      }
      assert gone[..|gone|] == gone;
    }

    /** Free the socket records that a table has reported, and then the process record. */
    method FreeReported(gone: seq<Handle>, h: Handle)
      requires Sound()
      modifies this`socks, this`freed
      ensures Sound()
      ensures socks == old(socks) - Elements(gone) && freed == old(freed) + multiset(gone) + multiset{h}
    {
      hide Keeps, Homed, Elements, H.Table.Valid, H.Table.Contents;
      FreeSocks(gone);
      Free(h);
    }

    /** Take a process record out of memory; its table lives on until it is destroyed. */
    method Detach(h: Handle) returns (ht: H.Table)
      requires Sound() && h in procs
      modifies this`procs, this`recs
      ensures Sound() && Homed(home, ht, h) && ht.Valid() && ht.Contents() == old(recs)[h].fids
      ensures ht == old(procs)[h].ht && h !in procs && recs == old(recs) - {h}
    {
      hide H.Table.Valid, H.Table.Contents;
      assert Keeps(procs[h], recs[h]);
      ht := procs[h].ht;
      procs, recs := procs - {h}, recs - {h};
    }

    /** Destroying a table that no process has any more leaves the store as it is. */
    method Destroy(ht: H.Table, ghost h: Handle, ghost fids: map<nat, Handle>) returns (gone: seq<Handle>)
      requires Sound() && h !in procs && Homed(home, ht, h)
      requires ht.Valid() && ht.Contents() == fids && H.Distinct(fids)
      modifies ht, ht.keys, ht.values
      ensures Sound() && Elements(gone) == fids.Values && multiset(gone) == multiset(fids.Values)
    {
      hide H.Table.Valid, H.Table.Contents, H.Distinct, Elements;
      gone := DestroyTable(ht, fids);
    }

    /** Destroy the table of sockets of a process, and free its record. */
    method FreeStorePid(h: Handle)
      requires Sound() && h in procs && h in recs && H.Distinct(recs[h].fids)
      modifies this`procs, this`recs, this`socks, this`freed
      modifies procs[h].ht, procs[h].ht.keys, procs[h].ht.values
      ensures Sound() && Contents() == FreeProc(old(Contents()), h)
    {
      hide Sound, H.Distinct, Elements, H.Table.Valid, H.Table.Contents, Homed, FreeProc;
      ghost var s, fids := Contents(), Contents().procs[h].fids;
      var ht := Detach(h);
      var gone := Destroy(ht, h, fids);
      FreeReported(gone, h);
      FreeProcIs(s, h, gone);
    }

    lemma InHome(h: Handle)
      requires Sound() && h in procs
      ensures h in recs && Homed(home, procs[h].ht, h) && Keeps(procs[h], recs[h])
    {
    }

    // ---------- the table of processes ----------

    method GetProc(pid: nat) returns (h: Handle)
      requires Sound()
      modifies table`last
      ensures Sound() && h == if pid in index then index[pid] else 0
    {
      hide Keeps, H.Holds, H.View;
      h := table.Get(pid);
    }

    /** Allocate a process record with an empty table of sockets. */
    method NewProc(pid: nat) returns (value: Handle)
      requires Sound() && next !in procs
      modifies this`procs, this`recs, this`next, this`home
      ensures Sound() && value == old(next) && next == value + 1 && value in procs
      ensures recs == old(recs)[value := ProcRec(pid, map[])]
      ensures fresh(home.Keys - old(home).Keys)
    {
      hide Keeps, Homed, H.Table.Valid, H.Table.Contents;
      value, next := next, next + 1;
      var ht := new H.Table(maxFids);
      Attach(value, pid, ht);
    }

    method Attach(value: Handle, pid: nat, ht: H.Table)
      requires Sound() && value !in procs && ht.Valid() && ht.size == maxFids && ht.Contents() == map[]
      requires ht !in home && ht.keys !in home && ht.values !in home
      requires ht != table && ht.keys != table.keys && ht.keys != table.values
      requires ht.values != table.keys && ht.values != table.values
      modifies this`procs, this`recs, this`home
      ensures Sound() && value in procs && recs == old(recs)[value := ProcRec(pid, map[])]
      ensures home.Keys == old(home).Keys + {ht, ht.keys, ht.values}
    {
      hide H.Table.Valid, H.Table.Contents, Homed, Settle;
      SettleKeeps(home, ht, value);
      procs := procs[value := Process(pid, ht)];
      recs := recs[value := ProcRec(pid, map[])];
      home := Settle(home, ht, value);
    }

    /** Enter a process in the table; what the table frees is reported. */
    method PutProc(pid: nat, value: Handle) returns (r: Handle, reported: seq<Handle>)
      requires Sound()
      modifies this`index, table, table.keys, table.values
      ensures |old(index)| >= table.size ==> r == 0 && Sound() && index == old(index) && reported == []
      ensures |old(index)| < table.size ==> r == value
      ensures |old(index)| < table.size && pid != H.KEY_INVALID ==>
                Sound() && index == old(index)[pid := value] && reported == H.Replaced(old(index), pid)
      ensures |old(index)| < table.size && pid == H.KEY_INVALID ==>
                && !Sound() && index == old(index) && reported == []
                && table.count == old(table.count) + 1 && table.keys[..] == old(table.keys[..])
    {
      hide Keeps, H.Table.Valid, H.Table.Contents, H.Replaced;
      r, reported := PutIn(table, pid, value);
      if |old(index)| < table.size && pid != H.KEY_INVALID {
        index := index[pid := value];
      }
    }

    method DelProc(pid: nat) returns (reported: seq<Handle>)
      requires Sound()
      modifies this`index, table, table.keys, table.values
      ensures Sound() && index == old(index) - {pid} && reported == H.Replaced(old(index), pid)
    {
      hide Keeps, H.Table.Valid, H.Table.Contents, H.Replaced;
      reported := DeleteFrom(table, pid);
      index := index - {pid};
    }

    // ---------- the table of sockets of one process ----------

    /** Enter a socket in the table of a process; what the table frees is reported. */
    method PutSock(ht: H.Table, fid: nat, value: Handle, ghost h: Handle)
      returns (r: Handle, reported: seq<Handle>)
      requires Sound() && h in procs && h in recs && ht == procs[h].ht
      modifies this`recs, ht, ht.keys, ht.values
      ensures |old(recs)[h].fids| >= maxFids ==> r == 0 && Sound() && recs == old(recs) && reported == []
      ensures |old(recs)[h].fids| < maxFids ==> r == value
      ensures |old(recs)[h].fids| < maxFids && fid != H.KEY_INVALID ==>
                && Sound() && recs == old(recs)[h := old(recs)[h].(fids := old(recs)[h].fids[fid := value])]
                && reported == H.Replaced(old(recs)[h].fids, fid)
      ensures |old(recs)[h].fids| < maxFids && fid == H.KEY_INVALID ==>
                && !Sound() && recs == old(recs) && reported == []
                && ht.count == old(ht.count) + 1 && ht.keys[..] == old(ht.keys[..])
    {
      hide H.Table.Valid, H.Table.Contents, H.Replaced;
      InHome(h);
      r, reported := PutIn(ht, fid, value);
      if |old(recs)[h].fids| < maxFids && fid != H.KEY_INVALID {
        recs := recs[h := recs[h].(fids := recs[h].fids[fid := value])];
      }
    }

    method DelSock(h: Handle, fid: nat) returns (reported: seq<Handle>)
      requires Sound() && h in procs && h in recs
      modifies this`recs, procs[h].ht, procs[h].ht.keys, procs[h].ht.values
      ensures Sound() && recs == old(recs)[h := old(recs)[h].(fids := old(recs)[h].fids - {fid})]
      ensures reported == H.Replaced(old(recs)[h].fids, fid)
    {
      hide H.Table.Valid, H.Table.Contents, H.Replaced;
      InHome(h);
      reported := DeleteFrom(procs[h].ht, fid);
      recs := recs[h := recs[h].(fids := recs[h].fids - {fid})];
    }

    // ---------- messages ----------

    /**
     A process starts; a full table refuses it.  Process number -1 is the key that marks free slots:
     it is counted but not entered, and the table is broken from then on.
     */
    method ProcMsgInit(pid: nat) returns (ok: bool)
      requires Valid()
      modifies this, table, table.keys, table.values, home.Keys
      ensures fresh(home.Keys - old(home).Keys)
      ensures ok <==> |View(old(Contents()))| < table.size
      ensures Valid() <==> pid != H.KEY_INVALID || !ok
      ensures Valid() ==> Contents() == DoInit(old(Contents()), pid)
      ensures Valid() ==> View(Contents()) == RefStep(table.size, maxFids, View(old(Contents())), Init(pid))
      ensures !Valid() ==> table.count == old(table.count) + 1 && table.keys[..] == old(table.keys[..])
    {
      hide Sound, Linked, Balanced, View, DoInit;
      StepKeeps(Contents(), Init(pid));
      assert |View(Contents())| == |View(Contents()).Keys| == |index.Keys| == |index|;
      ok := AddProc(pid);
    }

    method AddProc(pid: nat) returns (ok: bool)
      requires Valid()
      modifies this, table, table.keys, table.values, home.Keys
      ensures fresh(home.Keys - old(home).Keys)
      ensures ok <==> |old(index)| < table.size
      ensures pid != H.KEY_INVALID || !ok ==> Sound() && Contents() == DoInit(old(Contents()), pid)
      ensures pid == H.KEY_INVALID && ok ==>
                !Sound() && table.count == old(table.count) + 1 && table.keys[..] == old(table.keys[..])
    {
      hide Sound, Linked, Balanced, DoInit, FreeProc, H.Replaced, H.Distinct;
      ghost var s := Contents();
      ProcReported(s, pid);
      var value, reported;
      ok, value, reported := EnterProc(pid);
      if !ok {
        FreeRefused(s, pid, value);
      } else if reported != [] {
        FreeReplaced(s, pid, reported[0]);
      } else {
        InitIs(s, pid);
      }
    }

    /** Allocate a process record and enter it in the table. */
    method EnterProc(pid: nat) returns (ok: bool, value: Handle, reported: seq<Handle>)
      requires Valid()
      modifies this, table, table.keys, table.values
      ensures fresh(home.Keys - old(home).Keys) && value == old(next)
      ensures ok <==> |old(index)| < table.size
      ensures !ok ==> Sound() && Contents() == WithRecord(old(Contents()), pid)
      ensures ok && pid != H.KEY_INVALID ==>
                && Sound() && Contents() == WithRecord(old(Contents()), pid).(pids := old(index)[pid := value])
                && reported == H.Replaced(old(index), pid)
      ensures ok && pid == H.KEY_INVALID ==>
                && !Sound() && reported == []
                && table.count == old(table.count) + 1 && table.keys[..] == old(table.keys[..])
    {
      hide Sound, Linked, Balanced, H.Replaced, H.Table.Valid, H.Table.Contents;
      ghost var s := Contents();
      NewHandle(s);
      SameKeys();
      value := NewProc(pid);
      ghost var t := Contents();
      assert t == WithRecord(s, pid);
      var r;
      r, reported := PutProc(pid, value);
      ok := r == value;
    }

    /** The table refused the new record. */
    method FreeRefused(ghost s: Store, pid: nat, value: Handle)
      requires Inv(s) && |s.pids| >= s.maxPids && value == s.next
      requires Sound() && Contents() == WithRecord(s, pid)
      modifies this`procs, this`recs, this`socks, this`freed, home.Keys
      ensures Sound() && Contents() == DoInit(s, pid) && home == old(home)
    {
      hide Sound, Linked, Balanced, DoInit, FreeProc, H.Distinct;
      InitRefusedIs(s, pid);
      NoSockets();
      FreeOwn(value);
    }

    /** The new record replaced an old one. */
    method FreeReplaced(ghost s: Store, pid: nat, prior: Handle)
      requires Inv(s) && |s.pids| < s.maxPids && H.Replaced(s.pids, pid) == [prior] && Sound()
      requires Contents() == WithRecord(s, pid).(pids := s.pids[pid := s.next])
      modifies this`procs, this`recs, this`socks, this`freed, home.Keys
      ensures Sound() && Contents() == DoInit(s, pid) && home == old(home)
    {
      hide Sound, Linked, Balanced, DoInit, FreeProc, H.Distinct, H.Replaced;
      InitIs(s, pid);
      ProcReported(s, pid);
      FreeOwn(prior);
    }

    /** The free function of the table of processes. */
    method FreeOwn(h: Handle)
      requires Sound() && h in recs && H.Distinct(recs[h].fids)
      modifies this`procs, this`recs, this`socks, this`freed, home.Keys
      ensures Sound() && Contents() == FreeProc(old(Contents()), h) && home == old(home)
    {
      hide Sound, H.Distinct, FreeProc;
      Owner(h);
      FreeStorePid(h);
    }

    /** A process ends; one that is not known is ignored. */
    method ProcMsgExit(pid: nat)
      requires Valid()
      modifies this, table, table.keys, table.values, home.Keys
      ensures Valid() && Contents() == DoExit(old(Contents()), pid) && home == old(home)
      ensures View(Contents()) == View(old(Contents())) - {pid}
    {
      hide Sound, Linked, Balanced, View, DoExit, H.Distinct, H.Replaced;
      ghost var s := Contents();
      StepKeeps(s, Exit(pid));
      ProcReported(s, pid);
      SameKeys();
      var h := GetProc(pid);
      if h != 0 {
        Pids(h);
        RemoveProc(procs[h].pid);
      } else {
        ExitUnknown(s, pid);
      }
    }

    lemma Pids(h: Handle)
      requires Sound() && h in procs
      ensures h in recs && procs[h].pid == recs[h].pid
    {
      InHome(h);
    }

    /** Delete a process from the table, and free its record. */
    method RemoveProc(pid: nat)
      requires Valid() && pid in index
      modifies this, table, table.keys, table.values, home.Keys
      ensures Sound() && Contents() == DoExit(old(Contents()), pid) && home == old(home)
    {
      hide Sound, Linked, Balanced, DoExit, FreeProc, H.Distinct, H.Replaced;
      ghost var s := Contents();
      ProcReported(s, pid);
      ExitIs(s, pid);
      var reported := DelProc(pid);
      if reported != [] {
        FreeOwn(reported[0]);
      }
    }

    /** A socket changes state: it is recorded, or forgotten when it is closed. */
    method ProcMsgState(pid: nat, fid: nat, sock: Sock) returns (ok: bool)
      requires Valid()
      modifies this, table, home.Keys
      ensures home == old(home)
      ensures ok <==> pid !in old(index) || Gone(sock) || |View(old(Contents()))[pid]| < maxFids
      ensures Valid() <==> fid != H.KEY_INVALID || Gone(sock) || pid !in old(index) || !ok
      ensures Valid() ==> Contents() == DoState(old(Contents()), pid, fid, sock)
      ensures Valid() ==>
                View(Contents()) == RefStep(table.size, maxFids, View(old(Contents())), State(pid, fid, sock))
      ensures !Valid() ==>
                && pid in old(index) && old(index)[pid] in procs && procs == old(procs)
                && procs[old(index)[pid]].ht.count == old(procs[index[pid]].ht.count) + 1
                && procs[old(index)[pid]].ht.keys[..] == old(procs[index[pid]].ht.keys[..])
    {
      hide Sound, Linked, Balanced, View, DoState, H.Distinct, H.Replaced;
      ghost var s := Contents();
      StepKeeps(s, State(pid, fid, sock));
      ProcReported(s, pid);
      SameKeys();
      var h := GetProc(pid);
      if h == 0 {
        StateUnknown(s, pid, fid, sock);
        return true;
      }
      SocketsCounted(s, pid);
      Owner(h);
      if Gone(sock) {
        ForgetSocket(h, pid, fid, sock);
        return true;
      }
      ok := RecordSocket(procs[h].ht, h, pid, fid, sock);
    }

    method ForgetSocket(h: Handle, ghost pid: nat, fid: nat, sock: Sock)
      requires Valid() && pid in index && index[pid] == h && h in procs && h in recs && Gone(sock)
      modifies this`recs, this`socks, this`freed, procs[h].ht, procs[h].ht.keys, procs[h].ht.values
      ensures Sound() && Contents() == DoState(old(Contents()), pid, fid, sock)
    {
      hide Sound, Linked, Balanced, DoState, Elements, H.Replaced;
      ForgetIs(Contents(), pid, fid, sock);
      var reported := DelSock(h, fid);
      FreeSockets(reported);
    }

    method RecordSocket(ht: H.Table, h: Handle, ghost pid: nat, fid: nat, sock: Sock) returns (ok: bool)
      requires Valid() && pid in index && index[pid] == h && h in procs && h in recs && !Gone(sock)
      requires ht == procs[h].ht
      modifies this`recs, this`socks, this`next, this`freed, ht, ht.keys, ht.values
      ensures ok <==> |old(recs)[h].fids| < maxFids
      ensures fid != H.KEY_INVALID || !ok ==> Sound() && Contents() == DoState(old(Contents()), pid, fid, sock)
      ensures fid == H.KEY_INVALID && ok ==>
                !Sound() && ht.count == old(ht.count) + 1 && ht.keys[..] == old(ht.keys[..])
    {
      hide Sound, Linked, Balanced, DoState, Elements, H.Replaced, H.Table.Valid, H.Table.Contents;
      ghost var s := Contents();
      NewHandle(s);
      var value := NewSock(h, fid, sock);
      assert Contents() == s.(socks := s.socks[value := SockRec(fid, sock, h)], next := value + 1);
      var r, reported := PutSock(ht, fid, value, h);
      ok := r == value;
      if !ok {
        RefuseIs(s, pid, fid, sock);
        FreeRecord(value);
      } else {
        RecordIs(s, pid, fid, sock);
        FreeSockets(reported);
      }
    }

    /** Allocate a socket record. */
    method NewSock(h: Handle, fid: nat, sock: Sock) returns (value: Handle)
      requires Sound()
      modifies this`socks, this`next
      ensures Sound() && value == old(next) && next == value + 1
      ensures socks == old(socks)[value := SockRec(fid, sock, h)]
    {
      hide Keeps, H.Table.Valid, H.Table.Contents;
      value, next := next, next + 1;
      socks := socks[value := SockRec(fid, sock, h)];
    }

    method FreeRecord(x: Handle)
      requires Sound()
      modifies this`socks, this`freed
      ensures Sound() && socks == old(socks) - {x} && freed == old(freed) + multiset{x}
    {
      hide Keeps, H.Table.Valid, H.Table.Contents;
      socks := socks - {x};
      Free(x);
    }

    method FreeSockets(gone: seq<Handle>)
      modifies this`socks, this`freed
      ensures Sound() == old(Sound())
      ensures socks == old(socks) - Elements(gone) && freed == old(freed) + multiset(gone)
    {
      hide Keeps, Elements, H.Table.Valid, H.Table.Contents;
      FreeSocks(gone);
    }

    /** The socket records of a process, slot by slot, each once. */
    method ScanSockets(h: Handle) returns (seen: seq<Handle>)
      requires Sound() && h in procs && h in recs && H.Distinct(recs[h].fids)
      ensures multiset(seen) == multiset(recs[h].fids.Values)
    {
      hide H.Holds, H.View, H.Distinct, H.Records;
      InHome(h);
      var ht := procs[h].ht;
      NoNullRecord(ht.keys[..], ht.values[..], ht.slots);
      H.RecordsAre(ht.keys[..], ht.values[..], ht.slots);
      seen := ht.Scan();
    }

    /** Of these socket records, the established ones. */
    method Established(seen: seq<Handle>) returns (resets: seq<Handle>)
      requires forall x :: x in multiset(seen) ==> x in socks
      ensures forall x :: multiset(resets)[x] ==
                if x in socks && socks[x].sock.state == ESTABLISHED then multiset(seen)[x] else 0
    {
      resets := [];
      for i := 0 to |seen|
        invariant forall x :: multiset(resets)[x] ==
                    if x in socks && socks[x].sock.state == ESTABLISHED then multiset(seen[..i])[x] else 0
      {
        assert seen[..i + 1] == seen[..i] + [seen[i]];
        assert seen[i] in multiset(seen);
        if socks[seen[i]].sock.state == ESTABLISHED {
          resets := resets + [seen[i]];
        }
      }
      assert seen[..|seen|] == seen;
    }

    method FindResets(h: Handle, ghost pid: nat) returns (resets: seq<Handle>)
      requires Valid() && h in procs && h in recs && pid in index && index[pid] == h
      ensures forall x :: multiset(resets)[x] == if MustReset(Contents(), pid, x) then 1 else 0
    {
      hide Sound, Linked, Balanced, H.Distinct;
      SocketsDistinct(Contents(), h);
      var seen := ScanSockets(h);
      SeenAre(Contents(), pid, seen);
      resets := Established(seen);
    }

    /**
     A process died: every established socket of it is reset, each exactly once, and then the process
     is removed.
     */
    method CleanProcess(pid: nat) returns (resets: seq<Handle>)
      requires Valid()
      modifies this, table, table.keys, table.values, home.Keys
      ensures Valid() && Contents() == DoExit(old(Contents()), pid) && home == old(home)
      ensures forall x :: multiset(resets)[x] == if MustReset(old(Contents()), pid, x) then 1 else 0
    {
      hide Sound, Linked, Balanced, View, DoExit, H.Distinct, H.Replaced;
      ghost var s := Contents();
      StepKeeps(s, Exit(pid));
      ProcReported(s, pid);
      SameKeys();
      var h := GetProc(pid);
      if h != 0 {
        resets := FindResets(h, pid);
        RemoveProc(pid);
      } else {
        ExitUnknown(s, pid);
        resets := [];
      }
    }

    /** One message. */
    method HandleMessage(m: Msg)
      requires Valid() && Storable(m)
      modifies this, table, table.keys, table.values, home.Keys
      ensures Valid() && Contents() == Step(old(Contents()), m)
      ensures fresh(home.Keys - old(home).Keys)
    {
      hide Sound, Inv, View, RefStep, DoInit, DoExit, DoState;
      match m {
        case Init(pid) => var _ := ProcMsgInit(pid);
        case State(pid, fid, sock) => var _ := ProcMsgState(pid, fid, sock);
        case Exit(pid) => ProcMsgExit(pid);
        case Clean(pid) => var _ := CleanProcess(pid);
      }
    }

    /**
     Any messages with storable keys, handled one after the other, leave in the two levels of hash
     tables what the messages folded over a plain map say.
     */
    method RunMessages(ms: seq<Msg>)
      requires Valid() && forall i :: 0 <= i < |ms| ==> Storable(ms[i])
      modifies this, table, table.keys, table.values, home.Keys
      ensures Valid() && Contents() == Run(old(Contents()), ms)
      ensures View(Contents()) == RefRun(table.size, maxFids, View(old(Contents())), ms)
    {
      hide Sound, Inv, View, RefRun, Step, Storable;
      RunRefines(Contents(), ms);
      ghost var s := Contents();
      for i := 0 to |ms|
        invariant Valid() && Run(s, ms) == Run(Contents(), ms[i..])
        invariant fresh(home.Keys - old(home).Keys)
      {
        assert ms[i..][0] == ms[i] && ms[i..][1..] == ms[i + 1..];
        HandleMessage(ms[i]);
      }
    }

    /** The record of a process is in memory, with its table. */
    lemma Owner(h: Handle)
      requires Sound() && h in recs
      ensures h in procs && procs[h].ht in home && procs[h].ht.keys in home && procs[h].ht.values in home
    {
    }

    lemma SameKeys()
      requires Sound()
      ensures recs.Keys == procs.Keys
    {
    }
  }

  lemma NoSockets()
    ensures H.Distinct(map[])
  {
  }

  lemma FreeProcIs(s: Store, h: Handle, gone: seq<Handle>)
    requires h in s.procs
    requires Elements(gone) == s.procs[h].fids.Values && multiset(gone) == multiset(s.procs[h].fids.Values)
    ensures FreeProc(s, h) == s.(procs := s.procs - {h}, socks := s.socks - Elements(gone),
                                 freed := s.freed + multiset(gone) + multiset{h})
  {
  }

  /** Put into a table; the record it frees is reported.  The marker key breaks it. */
  method PutIn(t: H.Table, key: nat, value: Handle) returns (r: Handle, reported: seq<Handle>)
    requires t.Valid()
    modifies t, t.keys, t.values
    ensures |old(t.Contents())| >= t.size ==>
              r == 0 && t.Valid() && t.Contents() == old(t.Contents()) && reported == []
    ensures |old(t.Contents())| < t.size ==> r == value
    ensures |old(t.Contents())| < t.size && key != H.KEY_INVALID ==>
              && t.Valid() && t.Contents() == old(t.Contents())[key := value]
              && reported == H.Replaced(old(t.Contents()), key)
    ensures |old(t.Contents())| < t.size && key == H.KEY_INVALID ==>
              && !t.Valid() && reported == []
              && t.count == old(t.count) + 1 && t.keys[..] == old(t.keys[..])
  {
    hide H.Holds, H.View, H.Replaced;
    t.Counted();
    var n := |t.freed|;
    r := t.Put(key, value);
    reported := t.freed[n..];
  }

  method DeleteFrom(t: H.Table, key: nat) returns (reported: seq<Handle>)
    requires t.Valid()
    modifies t, t.keys, t.values
    ensures t.Valid() && t.Contents() == old(t.Contents()) - {key}
    ensures reported == H.Replaced(old(t.Contents()), key)
  {
    hide H.Holds, H.View, H.Replaced;
    var n := |t.freed|;
    t.Del(key);
    reported := t.freed[n..];
  }

  /** The records that destroying a table frees are those it held. */
  method DestroyTable(ht: H.Table, ghost fids: map<nat, Handle>) returns (gone: seq<Handle>)
    requires ht.Valid() && ht.Contents() == fids && H.Distinct(fids)
    modifies ht, ht.keys, ht.values
    ensures Elements(gone) == fids.Values && multiset(gone) == multiset(fids.Values)
  {
    hide H.Holds, H.View, H.Records, H.Distinct;
    var n := |ht.freed|;
    H.RecordsAre(ht.keys[..], ht.values[..], ht.slots);
    ghost var records := H.Records(ht.values[..]);
    ht.Destroy();
    gone := ht.freed[n..];
    assert gone == records;
    SameElements(gone, fids.Values);
  }

  lemma SameElements(s: seq<Handle>, all: set<Handle>)
    requires multiset(s) == multiset(all)
    ensures Elements(s) == all
  {
    assert forall x :: x in s <==> x in multiset(s);
  }
}
