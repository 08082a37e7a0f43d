/** What the charge for a packet means for the ring it is posted on. */
module TransmitSafety {
  import opened Bits
  import opened Buffers
  import opened Sums
  import opened TransmitCredits
  import opened TransmitPath

  /** Blocks from the next work request to the end of a ring of `size` blocks. */
  function BeforeEnd(t: Tx, size: nat): (m: nat)
    requires size >= 1
    ensures 1 <= m <= size
  {
    size - Wrap(t.head, size)
  }

  /** Build a packet where the next work request goes, and post it. */
  function PostPacket(t: Tx, size: nat, wr: SendWr, buf: Buf): Tx
    requires size >= 1 && wr.lens != []
  {
    TransmitPath.Send(t, buf, Charge(wr), Blocks(wr, BeforeEnd(t, size)))
  }

  /** Block `a` of a work request in flight is block `b` from here. */
  ghost predicate Clash(t: Tx, size: nat, i: nat, a: nat, b: nat)
    requires size >= 1
  {
    && i < |t.inflight| && a < t.inflight[i].blocks
    && Wrap(t.inflight[i].pos + a, size) == Wrap(t.head + b, size)
  }

  /** Building a packet here writes to no block of a work request in flight. */
  ghost predicate WritesApart(t: Tx, size: nat, wr: SendWr)
    requires size >= 1 && wr.lens != []
  {
    forall i: nat, a: nat, b: nat :: b < Extent(wr, BeforeEnd(t, size)) ==> !Clash(t, size, i, a, b)
  }

  /**
   A packet that writes no more than it is charged for keeps the send queue sound, and so the slots of
   its work requests disjoint; when it is accepted, building it overwrites none of them.
   */
  lemma ChargedSendKeeps(t: Tx, total: nat, size: nat, wr: SendWr, buf: Buf)
    requires Inv(t, total) && 1 <= size && total <= size && wr.lens != [] && Covered(wr, BeforeEnd(t, size))
    ensures Inv(PostPacket(t, size, wr, buf), total)
    ensures Charge(wr) <= t.free ==> WritesApart(t, size, wr)
  {
    hide Inv, Charge, Covered, Units, Reach;
    var m := BeforeEnd(t, size);
    ChargeCoversExtent(wr, m);
    AtLeastOne(wr, m);
    SendKeeps(t, total, buf, Charge(wr), Blocks(wr, m));
    if Charge(wr) <= t.free {
      forall i: nat, a: nat, b: nat | b < Extent(wr, m)
        ensures !Clash(t, size, i, a, b)
      {
        RoomAhead(t, total, size, i, a, b);
      }
    }
  }

  /** The blocks behind the newest work request are free as far as the credits go. */
  lemma RoomAhead(t: Tx, total: nat, size: nat, i: nat, a: nat, b: nat)
    requires Inv(t, total) && 1 <= size && total <= size && b < t.free
    ensures !Clash(t, size, i, a, b)
  {
    if i < |t.inflight| && a < t.inflight[i].blocks {
      ChainSpan(t.inflight, Tail(t), t.head);
      ChainAt(t.inflight, Tail(t), t.head, i);
      WrapDistinct(t.inflight[i].pos + a, t.head + b, size);
    }
  }

  lemma AtLeastOne(wr: SendWr, m: nat)
    requires wr.lens != [] && m >= 1
    ensures Blocks(wr, m) >= 1
  {
    hide Parts, HeaderUnits;
    BlocksOf(Units(wr, m));
  }

  // ---------- runs of packets ----------

  datatype Event = Packet(wr: SendWr, buf: Buf) | Other(step: Step)

  /** A packet that can be checked without knowing where in the ring it will be built. */
  predicate WellFormed(wr: SendWr)
  {
    wr.lens != [] && (wr.Tso? || (Full(wr.lens) && HeaderSuffices(wr.lens)))
  }

  lemma WellFormedCovered(wr: SendWr, m: nat)
    requires WellFormed(wr) && m >= 1
    ensures Covered(wr, m)
  {
    hide Covered, Charge, Blocks, Extent;
    ChargeCoversExtent(wr, m);
  }

  ghost predicate Allowed(t: Tx, size: nat, e: Event)
    requires size >= 1
  {
    match e
    case Packet(wr, _) => wr.lens != [] && Covered(wr, BeforeEnd(t, size))
    case Other(step) => !step.Post? && Possible(t, step)
  }

  ghost function After(t: Tx, size: nat, e: Event): Tx
    requires size >= 1 && InOrder(t) && Allowed(t, size, e)
  {
    match e
    case Packet(wr, buf) => PostPacket(t, size, wr, buf)
    case Other(step) => Next(t, step)
  }

  /** Every event is allowed when its turn comes, and `r` is the state after the last. */
  ghost predicate Leads(t: Tx, size: nat, es: seq<Event>, r: Tx)
    requires size >= 1
    decreases |es|
  {
    if es == [] then r == t
    else InOrder(t) && Allowed(t, size, es[0]) && Leads(After(t, size, es[0]), size, es[1..], r)
  }

  /** No packet of the run that is accepted is built over a work request in flight. */
  ghost predicate NothingOverwritten(t: Tx, size: nat, es: seq<Event>)
    requires size >= 1
    decreases |es|
  {
    es == [] ||
    (InOrder(t) && Allowed(t, size, es[0]) && NothingOverwritten(After(t, size, es[0]), size, es[1..]) &&
     (es[0].Packet? && Charge(es[0].wr) <= t.free ==> WritesApart(t, size, es[0].wr)))
  }

  /**
   Through every run of covered packets, completions and polls the send queue stays sound: no packet
   is built over a work request in flight, and no two of these ever share a block of a ring that is as
   large as the credits.
   */
  lemma {:induction false} PacketRunKeeps(t: Tx, total: nat, size: nat, es: seq<Event>, r: Tx,
                                          i: nat, j: nat, a: nat, b: nat)
    requires Inv(t, total) && 1 <= size && total <= size && Leads(t, size, es, r)
    ensures Inv(r, total) && NothingOverwritten(t, size, es)
    ensures i < j < |r.inflight| && a < r.inflight[i].blocks && b < r.inflight[j].blocks ==>
            Wrap(r.inflight[i].pos + a, size) != Wrap(r.inflight[j].pos + b, size)
    decreases |es|
  {
    hide Inv, Next, Possible, PostPacket, Covered, WritesApart, Charge;
    if es == [] {
      if i < j < |r.inflight| && a < r.inflight[i].blocks && b < r.inflight[j].blocks {
        SlotsDisjoint(r, total, size, i, j, r.inflight[i].pos + a, r.inflight[j].pos + b);
      }
    } else {
      match es[0] {
        case Packet(wr, buf) => ChargedSendKeeps(t, total, size, wr, buf);
        case Other(step) => NextKeeps(t, total, step);
      }
      PacketRunKeeps(After(t, size, es[0]), total, size, es[1..], r, i, j, a, b);
    }
  }

  /** A ring of eight blocks with one work request in flight, on blocks 1 to 4. */
  function OneInFlight(): Tx
  {
    Tx([Wqe(1, 4, 4, 1)], 4, 5, [], [1], [], [])
  }

  /** A packet that is charged four blocks and writes to six is built over that work request. */
  lemma OverrunOverwrites(wr: SendWr)
    requires wr.lens != [] && Charge(wr) == 4 && Extent(wr, 3) == 6
    ensures var t := OneInFlight();
            Inv(t, 8) && BeforeEnd(t, 8) == 3 && Charge(wr) <= t.free && !WritesApart(t, 8, wr)
  {
    hide Charge, Extent;
    var t := OneInFlight();
    OneInFlightInv();
    assert Wrap(1, 8) == 1 == Wrap(9, 8);
    assert Clash(t, 8, 0, 0, 4);
  }

  lemma OneInFlightInv()
    ensures Inv(OneInFlight(), 8) && BeforeEnd(OneInFlight(), 8) == 3
  {
    var ws := OneInFlight().inflight;
    assert ws[1..] == [] && ws[..0] == [];
    assert Backwards(ws) == [1];
  }

  /** Two work requests charged one block each that take two are posted over each other. */
  lemma UnderchargedOverlap()
    ensures var t := Tx([], 2, 0, [], [], [], []);
            var r := TransmitPath.Send(TransmitPath.Send(t, 1, 1, 2), 2, 1, 2);
            && Inv(t, 2) && |r.inflight| == 2
            && r.inflight[0].pos < r.inflight[0].pos + r.inflight[0].blocks <= r.inflight[1].pos
            && Wrap(r.inflight[0].pos, 2) == Wrap(r.inflight[1].pos, 2)
  {
    var t := Tx([], 2, 0, [], [], [], []);
    assert Inv(t, 2);
    var t1 := TransmitPath.Send(t, 1, 1, 2);
    assert t1.inflight == [Wqe(0, 2, 1, 1)] && t1.free == 1 && t1.head == 2;
    var t2 := TransmitPath.Send(t1, 2, 1, 2);
    assert t2.inflight == [Wqe(0, 2, 1, 1), Wqe(2, 2, 1, 2)];
    assert Wrap(2, 2) == 0 == Wrap(0, 2);
  }

  /** The packet of fourteen bytes in two pieces is posted that way, wherever it is built. */
  lemma ShortFirstPieceUndercharged(t: Tx, size: nat, buf: Buf)
    requires size >= 1
    ensures PostPacket(t, size, SendWr.Send([1, 13]), buf) == TransmitPath.Send(t, buf, 1, 2)
  {
    hide Charge, Blocks;
    ShortFirstPiece(BeforeEnd(t, size));
  }
}
