/**
 The completion queue shared with the device.  Hardware writes the p-th entry
 into slot `p mod count`, with owner bit `(p / count) mod 2`; software keeps a
 32-bit consumer index and recognises an entry it has not consumed yet by the
 owner bit alone.
 */
module CompletionQueue {
  import opened Bits

  /** Opcode of a slot the device has never written. */
  const CQE_INVALID: nat := 0xF

  /** A completion entry: opcode and owner bit share the byte `opOwn`. */
  datatype Cqe = Cqe(opOwn: nat, wqeCounter: nat, byteCnt: nat)

  datatype Option<+T> = None | Some(value: T)

  function Opcode(e: Cqe): nat { e.opOwn / 16 }

  function Owner(e: Cqe): nat { e.opOwn % 2 }

  /** The slot of the ring that consumer index `ci` looks at. */
  function Slot(ci: nat, count: nat): nat
    requires count >= 1
  {
    And(ci, count - 1)
  }

  /** The ownership test: the opcode is valid and the owner bit matches the lap of the index. */
  predicate SoftwareOwned(e: Cqe, ci: nat, count: nat)
  {
    && Opcode(e) != CQE_INVALID
    && Owner(e) == (if And(ci, count) != 0 then 1 else 0)
  }

  /** Every entry written so far follows the device's owner-bit rule. */
  ghost predicate Protocol(written: seq<Cqe>, count: nat)
    requires count >= 1
  {
    forall p {:trigger Lap(p, count)} :: 0 <= p < |written| ==>
      Opcode(written[p]) != CQE_INVALID && Owner(written[p]) == Lap(p, count) % 2
  }

  /** The memory of the ring after the entries `written`: the last lap, and untouched slots. */
  ghost predicate Layout(slots: seq<Cqe>, written: seq<Cqe>, count: nat)
    requires count >= 1
  {
    && |slots| == count
    && (forall p {:trigger Wrap(p, count)} :: 0 <= p < |written| && |written| - count <= p ==>
          slots[Wrap(p, count)] == written[p])
    && (forall j :: |written| <= j < count ==> Opcode(slots[j]) == CQE_INVALID)
  }

  lemma OpOwnFields(e: Cqe, opcode: nat, owner: nat)
    requires owner < 2 && e.opOwn == 16 * opcode + owner
    ensures Opcode(e) == opcode && Owner(e) == owner
  {
    DivModUnique(e.opOwn, 16, opcode, owner);
    DivModUnique(e.opOwn, 2, 8 * opcode, owner);
  }

  /** The 32-bit index reads the slot and the lap of the unbounded one, across its wrap. */
  lemma IndexAcrossWrap(taken: nat, shift: nat)
    requires shift <= 31
    ensures Slot(Wrap(taken, TWO32), Pow2(shift)) == Wrap(taken, Pow2(shift))
    ensures And(Wrap(taken, TWO32), Pow2(shift)) != 0 <==> Lap(taken, Pow2(shift)) % 2 == 1
  {
    Pow2At32();
    WrapIsMod(taken, TWO32);
    AndMask(Wrap(taken, TWO32), shift);
    WrapKeepsIndex(taken, shift, 32);
    AndBit(Wrap(taken, TWO32), shift);
    WrapKeepsLap(taken, shift, 32);
    WrapIsMod(taken, Pow2(shift));
  }

  /**
   As long as the device is at most one lap ahead, software accepts an entry exactly when one is
   produced and unconsumed, and it is the oldest such entry.
   */
  lemma OwnershipExact(slots: seq<Cqe>, written: seq<Cqe>, taken: nat, shift: nat)
    requires shift <= 31
    requires Layout(slots, written, Pow2(shift)) && Protocol(written, Pow2(shift))
    requires taken <= |written| <= taken + Pow2(shift)
    ensures var slot := Slot(Wrap(taken, TWO32), Pow2(shift));
            && slot < |slots|
            && (SoftwareOwned(slots[slot], Wrap(taken, TWO32), Pow2(shift)) <==> taken < |written|)
            && (taken < |written| ==> slots[slot] == written[taken])
  {
    IndexAcrossWrap(taken, shift);
    OwnershipByLap(slots, written, taken, Pow2(shift));
  }

  lemma OwnershipByLap(slots: seq<Cqe>, written: seq<Cqe>, taken: nat, count: nat)
    requires count >= 1 && Layout(slots, written, count) && Protocol(written, count)
    requires taken <= |written| <= taken + count
    ensures var e := slots[Wrap(taken, count)];
            && (Opcode(e) != CQE_INVALID && Owner(e) == Lap(taken, count) % 2 <==> taken < |written|)
            && (taken < |written| ==> e == written[taken])
  {
    if taken < |written| {
      assert Owner(written[taken]) == Lap(taken, count) % 2;
    } else if taken >= count {
      assert slots[Wrap(taken - count, count)] == written[taken - count];
      assert Lap(taken, count) == 1 + Lap(taken - count, count);
    }
  }

  /** The converse need for that bound: once overrun by a lap, the oldest entry is invisible. */
  lemma OverrunHidesEntry(slots: seq<Cqe>, written: seq<Cqe>, taken: nat, shift: nat)
    requires shift <= 31
    requires Layout(slots, written, Pow2(shift)) && Protocol(written, Pow2(shift))
    requires taken + Pow2(shift) < |written| <= taken + 2 * Pow2(shift)
    ensures var slot := Slot(Wrap(taken, TWO32), Pow2(shift));
            slot < |slots| && !SoftwareOwned(slots[slot], Wrap(taken, TWO32), Pow2(shift))
  {
    hide Pow2, And, Protocol;
    IndexAcrossWrap(taken, shift);
    OverrunByLap(slots, written, taken, Pow2(shift));
  }

  lemma OverrunByLap(slots: seq<Cqe>, written: seq<Cqe>, taken: nat, count: nat)
    requires count >= 1 && Layout(slots, written, count) && Protocol(written, count)
    requires taken + count < |written| <= taken + 2 * count
    ensures Owner(slots[Wrap(taken, count)]) == (Lap(taken, count) + 1) % 2
  {
    assert slots[Wrap(taken + count, count)] == written[taken + count];
    assert Lap(taken + count, count) == 1 + Lap(taken, count);
  }

  /** Writing the next entry in its slot keeps the layout. */
  lemma WriteKeepsLayout(slots: seq<Cqe>, written: seq<Cqe>, e: Cqe, count: nat)
    requires count >= 1 && Layout(slots, written, count)
    ensures Layout(slots[Wrap(|written|, count) := e], written + [e], count)
  {
    var n := |written|;
    forall p | 0 <= p < n && n + 1 - count <= p
      ensures Wrap(p, count) != Wrap(n, count)
    {
      WrapDistinct(p, n, count);
    }
  }

  lemma WriteKeepsProtocol(written: seq<Cqe>, e: Cqe, count: nat)
    requires count >= 1 && Protocol(written, count)
    requires Opcode(e) != CQE_INVALID && Owner(e) == Lap(|written|, count) % 2
    ensures Protocol(written + [e], count)
  {
    var more := written + [e];
    forall p | 0 <= p < |more|
      ensures Opcode(more[p]) != CQE_INVALID && Owner(more[p]) == Lap(p, count) % 2
    {
      if p < |written| {
        ProtocolAt(written, count, p);
      }
    }
  }

  lemma ProtocolAt(written: seq<Cqe>, count: nat, p: nat)
    requires count >= 1 && Protocol(written, count) && p < |written|
    ensures Opcode(written[p]) != CQE_INVALID && Owner(written[p]) == Lap(p, count) % 2
  {
    var lap := Lap(p, count);
  }

  class CompletionRing {
    const shift: nat
    const count: nat
    const ring: array<Cqe>
    var ci: nat                   // consumer index, 32 bits
    var produced: nat             // the device's own position
    ghost var written: seq<Cqe>
    ghost var taken: nat

    ghost predicate Valid()
      reads this, ring
    {
      && shift <= 31
      && count == Pow2(shift)
      && taken <= |written| <= taken + count
      && ci == Wrap(taken, TWO32)
      && produced == |written|
      && Protocol(written, count)
      && Layout(ring[..], written, count)
    }

    /** Entries produced and not yet consumed, oldest first. */
    ghost function Ready(): seq<Cqe>
      reads this
      requires taken <= |written|
    {
      written[taken..]
    }

    constructor (shift: nat)
      requires shift <= 31
      ensures Valid() && fresh(ring) && Ready() == [] && this.shift == shift && taken == 0
    {
      this.shift := shift;
      count := Pow2(shift);
      ring := new Cqe[Pow2(shift)](_ => Cqe(16 * CQE_INVALID, 0, 0));
      ci := 0;
      produced := 0;
      written := [];
      taken := 0;
    }

    /** The device completes a work request; it never checks for room. */
    method Produce(opcode: nat, wqeCounter: nat, byteCnt: nat)
      requires Valid() && opcode != CQE_INVALID
      requires |Ready()| < count
      modifies this`written, this`produced, ring
      ensures Valid() && taken == old(taken)
      ensures |written| == |old(written)| + 1 && written[..|old(written)|] == old(written)
      ensures |Ready()| == |old(Ready())| + 1 && Ready()[..|old(Ready())|] == old(Ready())
      ensures var e := written[|written| - 1];
              Opcode(e) == opcode && e.wqeCounter == wqeCounter && e.byteCnt == byteCnt
    {
      var e := Cqe(16 * opcode + produced / count % 2, wqeCounter, byteCnt);
      var slot := produced % count;
      WrapIsMod(produced, count);
      OpOwnFields(e, opcode, produced / count % 2);
      WriteKeepsLayout(ring[..], written, e, count);
      WriteKeepsProtocol(written, e, count);
      ghost var before := ring[..];
      ring[slot] := e;
      assert ring[..] == before[slot := e];
      written := written + [e];
      produced := produced + 1;
    }

    /** The receive side's test: the oldest unconsumed entry, if there is one. */
    method Check() returns (r: Option<Cqe>)
      requires Valid()
      ensures r == if Ready() == [] then None else Some(Ready()[0])
    {
      OwnershipExact(ring[..], written, taken, shift);
      IndexAcrossWrap(taken, shift);
      var cqe := ring[Slot(ci, count)];
      if SoftwareOwned(cqe, ci, count) {
        return Some(cqe);
      }
      return None;
    }

    /** Step over an entry that Check returned. */
    method Advance()
      requires Valid() && Ready() != []
      modifies this`ci, this`taken
      ensures Valid() && taken == old(taken) + 1 && Ready() == old(Ready())[1..]
    {
      WrapAdd(taken, 1, TWO32);
      ci := (ci + 1) % TWO32;
      taken := taken + 1;
    }

    /**
     The send side's polling loop: step over every ready entry, but stop at the first whose opcode
     has its top bit set, and hand back the last one stepped over.
     */
    method Drain() returns (last: Option<Cqe>, polled: nat)
      requires Valid()
      modifies this`ci, this`taken
      ensures Valid()
      ensures polled <= |old(Ready())| && taken == old(taken) + polled
      ensures Ready() == old(Ready())[polled..]
      ensures last == if polled == 0 then None else Some(old(Ready())[polled - 1])
      ensures forall i :: 0 <= i < polled - 1 ==> old(Ready())[i].opOwn < 0x80
      ensures polled == |old(Ready())| || (polled > 0 && old(Ready())[polled - 1].opOwn >= 0x80)
    {
      last, polled := None, 0;
      ghost var first := taken;
      while true
        invariant Valid() && taken == first + polled
        invariant last == if polled == 0 then None else Some(written[taken - 1])
        invariant forall i :: first <= i < taken ==> written[i].opOwn < 0x80
        decreases |written| - taken
      {
        var cqe := Check();
        if cqe.None? {
          return;
        }
        Advance();
        polled, last := polled + 1, cqe;
        if cqe.value.opOwn >= 0x80 {
          return;
        }
      }
    }
  }
}
