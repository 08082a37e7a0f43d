/**
 Building a work request: the cursor over a packet's pieces, the inline copy,
 and the size of what was built.  Only sizes are kept, not the bytes.
 */
module SendBuild {
  import opened Sums
  import opened TransmitCredits

  /** A cursor over the pieces of a packet. */
  class SgArray {
    const lens: seq<nat>
    var index: nat
    var pos: nat

    ghost predicate Valid()
      reads this
    {
      index <= |lens| && (if index == |lens| then pos == 0 else pos <= lens[index])
    }

    /** What is left, the current piece first. */
    ghost function Rest(): seq<nat>
      reads this
      requires Valid()
    {
      if index == |lens| then [] else [lens[index] - pos] + lens[index + 1..]
    }

    constructor (lens: seq<nat>)
      ensures Valid() && this.lens == lens && Rest() == lens
    {
      this.lens := lens;
      index, pos := 0, 0;
    }

    method GetData(len: nat) returns (found: bool, n: nat)
      requires Valid()
      modifies this
      ensures Valid() && (found, n, Rest()) == Get(old(Rest()), len)
    {
      found, n := index < |lens|, len;
      if found {
        ghost var rest := Rest();
        if pos + len < lens[index] {
          pos := pos + len;
          assert Rest() == [rest[0] - len] + rest[1..];
        } else {
          n := lens[index] - pos;
          index, pos := index + 1, 0;
          assert Rest() == rest[1..];
        }
      }
    }

    method Length() returns (total: nat)
      ensures total == Sum(lens)
    {
      total := 0;
      for i := 0 to |lens|
        invariant total == Sum(lens[..i])
      {
        SumSnoc(lens[..i], lens[i]);
        assert lens[..i + 1] == lens[..i] + [lens[i]];
        total := total + lens[i];
      }
      assert lens[..|lens|] == lens;
    }

    /** Copy the piece that was found, and the following ones up to `max` bytes in all. */
    method FillInlSegment(max: nat, found: bool, len: nat) returns (size: nat)
      requires Valid() && len <= max
      modifies this
      ensures Valid() && (size, Rest()) == Fill(old(Rest()), max, found, len)
    {
      hide Get, Sum;
      ghost var goal := Fill(Rest(), max, found, len);
      var more, n := found, len;
      size := 0;
      while more && n > 0
        invariant Valid() && size + n <= max
        invariant goal.0 == size + Fill(Rest(), max - size, more, n).0
        invariant goal.1 == Fill(Rest(), max - size, more, n).1
        decreases max - size
      {
        size := size + n;
        more, n := GetData(max - size);
      }
    }

    /** Ask for up to `first` bytes, then copy on up to `max`. */
    method CopyOut(first: nat, max: nat) returns (size: nat)
      requires Valid() && first <= max
      modifies this
      ensures Valid() && (size, Rest()) == Copy(old(Rest()), first, max)
    {
      hide Get, Fill, Sum;
      var found, len := GetData(first);
      size := FillInlSegment(max, found, len);
    }
  }

  /** Copy the data part of an inlined packet, in one part or split by the end of the ring. */
  method InlineData(sga: SgArray, n: nat, m: nat) returns (before: nat, after: nat)
    requires sga.Valid() && sga.lens != [] && m >= 1 && (n, sga.Rest()) == Body(sga.lens)
    modifies sga
    ensures (before, after) == Parts(sga.lens, m)
  {
    hide Copy, Body;
    var room := Room(m);
    if n <= room {
      before := sga.CopyOut(n, n);
      after := 0;
    } else {
      before := sga.CopyOut(room, room);
      after := sga.CopyOut(n - room, n - before);
    }
  }

  method FillWqeSend(lens: seq<nat>) returns (units: nat)
    ensures units == 2 + NonEmpty(lens)
  {
    units := 2;
    for i := 0 to |lens|
      invariant units + NonEmpty(lens[i..]) == 2 + NonEmpty(lens)
    {
      assert lens[i..][0] == lens[i] && lens[i..][1..] == lens[i + 1..];
      if lens[i] > 0 {
        units := units + 1;
      }
    }
  }

  /** Copy a segmentation header, in one part or split by the end of the ring. */
  method FillHeader(hdr: nat, rest: nat) returns (units: nat)
    requires rest >= 14 && rest % UNIT == 0
    ensures units == HeaderUnits(hdr, rest)
  {
    var whole := RoundUp(32 + hdr - 18, UNIT);
    if whole <= rest {
      units := whole / UNIT;
    } else {
      whole := RoundUp(hdr - (rest - 14), UNIT);
      units := rest / UNIT + whole / UNIT;
    }
  }

  method FillWqeLso(hdr: nat, pieces: nat, m: nat) returns (units: nat)
    requires m >= 1
    ensures units == 1 + HeaderUnits(hdr, 64 * m - 16) + pieces
  {
    hide HeaderUnits;
    units := FillHeader(hdr, 64 * m - 16);
    units := 1 + units;
    for i := 0 to pieces
      invariant units == 1 + HeaderUnits(hdr, 64 * m - 16) + i
    {
      units := units + 1;
    }
  }

  /** Build a work request `m` blocks before the end of the ring; the result is its size in blocks. */
  method FillWqe(wr: SendWr, m: nat) returns (blocks: nat)
    requires wr.lens != [] && m >= 1
    ensures blocks == Blocks(wr, m)
  {
    hide InUnits, Parts, HeaderUnits, NonEmpty;
    var sga := new SgArray(wr.lens);
    var total := sga.Length();
    var units;
    if wr.Tso? {
      units := FillWqeLso(wr.hdr, |wr.lens|, m);
    } else if total <= MAX_INLINE {
      var _, len := sga.GetData(ETH_INLINE);
      var before, after := InlineData(sga, total - len, m);
      units := 3 + InUnits(before + 4) + InUnits(after);
    } else {
      units := FillWqeSend(wr.lens);
    }
    blocks := RoundUp(units, 4) / 4;
  }
}
