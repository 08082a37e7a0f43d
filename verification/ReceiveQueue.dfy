/**
 The hardware receive queue.  Work requests are collected in a batch and
 handed over together; the descriptor behind ring entry i is remembered in a
 table indexed by `i mod num`.  Posting and polling use separate counters of
 different widths, masked by the power of two `num`.
 */
module ReceiveQueue {
  import opened Bits
  import opened Buffers

  /** The entries `lo .. hi` of `log` are stored at their positions on the ring. */
  ghost predicate InSlots(slots: seq<Buf>, log: seq<Buf>, lo: nat, hi: nat)
    requires |slots| >= 1 && hi <= |log|
  {
    forall i {:trigger Wrap(i, |slots|)} :: lo <= i < hi ==> slots[Wrap(i, |slots|)] == log[i]
  }

  /** Writing the next entry does not disturb the entries of the last lap. */
  lemma StoreNext(slots: seq<Buf>, log: seq<Buf>, lo: nat, hi: nat, num: nat)
    requires |slots| == num >= 1 && lo <= hi < |log| && hi - lo < num
    requires InSlots(slots, log, lo, hi)
    ensures InSlots(slots[Wrap(hi, num) := log[hi]], log, lo, hi + 1)
  {
    forall i | lo <= i < hi
      ensures Wrap(i, num) != Wrap(hi, num)
    {
      WrapDistinct(i, hi, num);
    }
  }

  /** Clearing the oldest entry leaves the others. */
  lemma ClearFirst(slots: seq<Buf>, log: seq<Buf>, lo: nat, hi: nat, num: nat)
    requires |slots| == num >= 1 && lo < hi <= |log| && hi - lo <= num
    requires InSlots(slots, log, lo, hi)
    ensures InSlots(slots[Wrap(lo, num) := 0], log, lo + 1, hi)
  {
    forall i | lo < i < hi
      ensures Wrap(i, num) != Wrap(lo, num)
    {
      WrapDistinct(lo, i, num);
    }
  }

  /** A counter kept in `w` bits and masked reads the position of the unbounded one. */
  lemma MaskedIndex(x: nat, shift: nat)
    requires shift <= 30
    ensures And(Wrap(x, TWO32), Pow2(shift) - 1) == Wrap(x, Pow2(shift))
    ensures And(Wrap(x, TWO64), Pow2(shift) - 1) == Wrap(x, Pow2(shift))
  {
    WrapIsMod(x, TWO32);
    WrapIsMod(x, TWO64);
    Pow2At32();
    Pow2At64();
    AndMask(x % TWO32, shift);
    AndMask(x % TWO64, shift);
    WrapKeepsIndex(x, shift, 32);
    WrapKeepsIndex(x, shift, 64);
    WrapIsMod(x, Pow2(shift));
  }

  lemma NextIndex(x: nat, shift: nat)
    ensures And(Wrap(x, Pow2(shift)) + 1, Pow2(shift) - 1) == Wrap(x + 1, Pow2(shift))
  {
    var n := Pow2(shift);
    AndMask(Wrap(x, n) + 1, shift);
    WrapIsMod(Wrap(x, n) + 1, n);
    WrapShift(x, 1, n);
  }

  /** The part of the log on the ring, and the part that still waits in the batch. */
  ghost function Handed(log: seq<Buf>, polled: nat, curr: nat): seq<Buf>
    requires polled + curr <= |log|
  {
    log[polled..|log| - curr]
  }

  ghost function Batched(log: seq<Buf>, curr: nat): seq<Buf>
    requires curr <= |log|
  {
    log[|log| - curr..]
  }

  /** What one more buffer does to the two. */
  lemma ExtendLog(log: seq<Buf>, polled: nat, curr: nat, b: Buf)
    requires polled + curr <= |log|
    ensures Handed(log + [b], polled, curr + 1) == Handed(log, polled, curr)
    ensures Batched(log + [b], curr + 1) == Batched(log, curr) + [b]
    ensures Handed(log + [b], polled, 0) == Handed(log, polled, curr) + Batched(log, curr) + [b]
    ensures Batched(log + [b], 0) == []
  {
  }

  lemma ShiftBound(shift: nat)
    requires shift <= 30
    ensures Pow2(shift) < 0x8000_0000
  {
    Pow2At32();
    Pow2Monotone(shift, 30);
    assert Pow2(31) == 2 * Pow2(30);
  }

  class HwQueueRx {
    const shift: nat
    const num: nat                // ring entries
    const batch: nat              // work requests per batch
    const wrid: array<Buf>        // ring position to descriptor
    const wr: array<Buf>          // the batch being collected
    const ring: array<Buf>        // what the hardware reads
    var curr: nat
    var counter: nat              // 64 bits
    var head: nat                 // 32 bits
    var tail: nat                 // 32 bits
    ghost var log: seq<Buf>       // every buffer handed to this queue, in order
    ghost var polled: nat         // how many of them have been retired
    ghost var hot: bool           // the oldest entry was already read from the table

    ghost predicate Shape()
      reads this
    {
      && shift <= 30 && num == Pow2(shift) && batch >= 1
      && wrid.Length == num && ring.Length == num && wr.Length == batch
      && wrid != wr && wrid != ring && wr != ring
    }

    /** The hardware's view, while the last `open` buffers of the log are not handed over. */
    ghost predicate RingHolds(open: nat)
      reads this, wr, ring
    {
      && Shape()
      && open <= batch && polled + open <= |log| <= polled + open + num
      && head == Wrap(|log| - open, TWO32) && tail == Wrap(polled, TWO32)
      && InSlots(ring[..], log, polled, |log| - open)
      && wr[..open] == log[|log| - open..]
    }

    /** The descriptor table's view. */
    ghost predicate TableHolds()
      reads this, wrid
    {
      && Shape()
      && polled <= |log| <= polled + num
      && counter == Wrap(|log|, TWO64)
      && (hot ==> polled < |log|)
      && InSlots(wrid[..], log, if hot then polled + 1 else polled, |log|)
    }

    ghost predicate Valid()
      reads this, wrid, wr, ring
    {
      && Shape() && RingHolds(curr) && TableHolds()
      && polled + curr <= |log| <= polled + num
      && curr < batch && (hot ==> polled + curr < |log|)
      && 0 !in log
    }

    /** Ring entries, oldest first. */
    ghost function Posted(): seq<Buf>
      reads this
      requires polled + curr <= |log|
    {
      Handed(log, polled, curr)
    }

    /** Batched and not handed over yet. */
    ghost function Pending(): seq<Buf>
      reads this
      requires curr <= |log|
    {
      Batched(log, curr)
    }

    constructor (shift: nat, batch: nat)
      requires shift <= 30 && batch >= 1
      ensures Valid() && fresh(wrid) && fresh(wr) && fresh(ring)
      ensures log == [] && polled == 0 && !hot && curr == 0
      ensures this.shift == shift && this.batch == batch
    {
      this.shift := shift;
      this.num := Pow2(shift);
      this.batch := batch;
      wrid := new Buf[Pow2(shift)](_ => 0);
      ring := new Buf[Pow2(shift)](_ => 0);
      wr := new Buf[batch](_ => 0);
      curr, counter, head, tail := 0, 0, 0, 0;
      log, polled, hot := [], 0, false;
    }

    /** `(int)head - (int)tail`, the number of ring entries in use. */
    method Used(ghost first: nat) returns (used: int)
      requires Shape() && polled <= first <= polled + num
      requires head == Wrap(first, TWO32) && tail == Wrap(polled, TWO32)
      ensures used == first - polled && (used == 0 <==> head == tail)
    {
      ShiftBound(shift);
      Distance32(first, polled);
      used := Signed32(Sub32(head, tail));
    }

    method Masked(x: nat, ghost pos: nat) returns (ind: nat)
      requires Shape() && (x == Wrap(pos, TWO32) || x == Wrap(pos, TWO64))
      ensures ind == Wrap(pos, num)
    {
      MaskedIndex(pos, shift);
      ind := And(x, num - 1);
    }

    method MaskedNext(ind: nat, ghost pos: nat) returns (next: nat)
      requires Shape() && ind == Wrap(pos, num)
      ensures next == Wrap(pos + 1, num)
    {
      NextIndex(pos, shift);
      next := And(ind + 1, num - 1);
    }

    method WriteDescriptor(ind: nat, b: Buf, ghost pos: nat)
      requires Shape() && polled <= pos < |log| && pos - polled < num
      requires ind == Wrap(pos, num) && b == log[pos] && InSlots(ring[..], log, polled, pos)
      modifies ring
      ensures InSlots(ring[..], log, polled, pos + 1)
    {
      StoreNext(ring[..], log, polled, pos, num);
      ghost var before := ring[..];
      ring[ind] := b;
      assert ring[..] == before[ind := b];
    }

    /**
     Hand the collected batch to the hardware, entry by entry.  It is refused part way exactly when
     the ring has no room for the whole batch.
     */
    method RawPostRecv() returns (failed: bool, nreq: nat)
      requires RingHolds(batch) && |log| - batch - polled <= num
      modifies this`head, ring
      ensures failed <==> |log| - polled > num
      ensures nreq == if failed then num - (|log| - batch - polled) else batch
      ensures head == Wrap(|log| - batch + nreq, TWO32)
      ensures InSlots(ring[..], log, polled, |log| - batch + nreq)
    {
      ghost var first := |log| - batch;
      nreq, failed := 0, false;
      var used := Used(first);
      var ind := Masked(head, first);
      while nreq < batch
        invariant nreq <= batch && head == Wrap(first, TWO32) && !failed
        invariant ind == Wrap(first + nreq, num)
        invariant first + nreq - polled <= num
        invariant InSlots(ring[..], log, polled, first + nreq)
      {
        if used + nreq >= num {
          failed := true;
          break;
        }
        assert wr[nreq] == log[first..][nreq];
        WriteDescriptor(ind, wr[nreq], first + nreq);
        ind := MaskedNext(ind, first + nreq);
        nreq := nreq + 1;
      }
      WrapAdd(first, nreq, TWO32);
      head := (head + nreq) % TWO32;
    }
  
    /** Remember which descriptor stands behind the next ring position. */
    method Remember(b: Buf)
      requires TableHolds() && |log| - polled < num && b != 0
      modifies this`counter, this`log, wrid
      ensures TableHolds() && log == old(log) + [b]
    {
      var index := Masked(counter, |log|);
      ghost var before := wrid[..];
      log := log + [b];
      StoreNext(before, log, if hot then polled + 1 else polled, |log| - 1, num);
      wrid[index] := b;
      assert wrid[..] == before[index := b];
      WrapAdd(|log| - 1, 1, TWO64);
      counter := (counter + 1) % TWO64;
    }

    /** Add a buffer to the batch. */
    method Collect(b: Buf)
      requires Valid() && b != 0 && |log| - polled < num
      modifies this`counter, this`log, wrid, wr
      ensures RingHolds(curr + 1) && TableHolds() && log == old(log) + [b]
    {
      ghost var open := wr[..curr];
      wr[curr] := b;
      assert wr[..curr + 1] == open + [b];
      Remember(b);
      assert log[|log| - (curr + 1)..] == open + [b];
    }

    /** Hand over a full batch; with room on the ring the error exit is never taken. */
    method Flush()
      requires RingHolds(batch) && TableHolds() && 0 !in log
      modifies this`curr, this`head, ring
      ensures Valid() && curr == 0
    {
      curr := 0;
      var failed, _ := RawPostRecv();
      assert !failed;
      assert wr[..0] == log[|log|..];
    }

    method PostRecvBufferRq(b: Buf)
      requires Valid() && b != 0 && |log| - polled < num
      modifies this`curr, this`counter, this`head, this`log, wrid, wr, ring
      ensures Valid() && log == old(log) + [b]
      ensures curr == if old(curr) + 1 == batch then 0 else old(curr) + 1
    {
      Collect(b);
      if curr == batch - 1 {
        Flush();
      } else {
        curr := curr + 1;
      }
    }

    /**
     Post one buffer.  As long as the ring has an entry to spare this never fails, whether or not
     the batch is handed over, and it keeps the order of posting.
     */
    method PostRecvBuffer(b: Buf)
      requires Valid() && b != 0 && |Posted()| + |Pending()| < num
      modifies this`curr, this`counter, this`head, this`log, wrid, wr, ring
      ensures Valid() && log == old(log) + [b]
      ensures Posted() == if old(curr) + 1 == batch then old(Posted() + Pending()) + [b] else old(Posted())
      ensures Pending() == if old(curr) + 1 == batch then [] else old(Pending()) + [b]
    {
      ExtendLog(log, polled, curr, b);
      PostRecvBufferRq(b);
    }

    /** Read the oldest ring entry from the table, unless the ring is empty. */
    method TakeHot() returns (b: Buf)
      requires Valid() && !hot
      modifies this`hot, wrid
      ensures Valid()
      ensures b == if Posted() == [] then 0 else Posted()[0]
      ensures hot == (Posted() != [])
    {
      var used := Used(|log| - curr);
      if tail != head {
        var index := Masked(tail, polled);
        b := wrid[index];
        ghost var before := wrid[..];
        ClearFirst(before, log, polled, |log|, num);
        wrid[index] := 0;
        assert wrid[..] == before[index := 0];
        hot := true;
      } else {
        b := 0;
      }
    }

    /** The hardware is done with the oldest entry. */
    method Retire()
      requires Valid() && hot
      modifies this`tail, this`polled, this`hot
      ensures Valid() && polled == old(polled) + 1 && !hot
    {
      WrapAdd(polled, 1, TWO32);
      tail := (tail + 1) % TWO32;
      polled, hot := polled + 1, false;
    }

    /** Give back the batch that was never handed over, newest first; the session ends here. */
    method ReleaseUnposted() returns (bs: seq<Buf>)
      requires Valid()
      modifies this`curr
      ensures curr == 0 && |bs| == |old(Pending())|
      ensures forall i :: 0 <= i < |bs| ==> bs[i] == old(Pending())[|bs| - 1 - i]
    {
      bs := [];
      ghost var open := Pending();
      assert wr[..curr] == open;
      while curr > 0
        invariant |bs| + curr == |open| && curr <= wr.Length
        invariant forall i :: 0 <= i < |bs| ==> bs[i] == open[|open| - 1 - i]
      {
        curr := curr - 1;
        assert wr[curr] == open[curr];
        bs := bs + [wr[curr]];
      }
    }
  }
}
