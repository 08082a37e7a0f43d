/**
 How many send-queue blocks a work request is charged for before it is built,
 and how many it takes once it is built.  A block is 64 bytes; a work request
 is built from 16-byte units.
 */
module TransmitCredits {
  import opened Bits
  import opened Sums

  const MAX_INLINE: nat := 204
  const ETH_INLINE: nat := 18
  const UNIT: nat := 16

  /** A packet: the lengths of its pieces, or for segmentation offload also its header length. */
  datatype SendWr = Send(lens: seq<nat>) | Tso(lens: seq<nat>, hdr: nat)

  function RoundUp(x: nat, unit: nat): nat
    requires unit >= 1
  {
    (x + unit - 1) / unit * unit
  }

  /** Rounding up to whole units, and counting them. */
  function InUnits(x: nat): (r: nat)
    ensures x == 0 ==> r == 0
  {
    RoundUp(x, UNIT) / UNIT
  }

  // ---------- the charge ----------

  /** The charge as a formula of the total length. */
  function Charge(wr: SendWr): nat
  {
    var n := |wr.lens|;
    if wr.Tso? then (RoundDown16(wr.hdr + 13) + 2 + n * 16 - 18 + 63) / 64 + 1
    else if Sum(wr.lens) <= MAX_INLINE then (Sum(wr.lens) + 63 - 18) / 64 + 1
    else if n == 1 then 1
    else (n + 3 - 1) / 4 + 1
  }

  function RoundDown16(x: nat): nat { x / 16 * 16 }

  /** The charge as it is computed, summing the pieces only when there are several. */
  method CreditsCalculate(wr: SendWr) returns (credits: nat)
    ensures credits == Charge(wr)
  {
    if wr.Tso? {
      return (RoundDown16(wr.hdr + 13) + 2 + |wr.lens| * 16 - 18 + 63) / 64 + 1;
    }
    if |wr.lens| == 1 {
      assert Sum(wr.lens[1..]) == 0;
      if wr.lens[0] <= MAX_INLINE {
        return (wr.lens[0] + 63 - 18) / 64 + 1;
      }
      return 1;
    }
    var total := 0;
    for i := 0 to |wr.lens|
      invariant total == Sum(wr.lens[..i])
    {
      SumSnoc(wr.lens[..i], wr.lens[i]);
      assert wr.lens[..i + 1] == wr.lens[..i] + [wr.lens[i]];
      total := total + wr.lens[i];
    }
    assert wr.lens[..|wr.lens|] == wr.lens;
    credits := if total <= MAX_INLINE then (total + 63 - 18) / 64 + 1 else (|wr.lens| + 3 - 1) / 4 + 1;
  }

  // ---------- the inline copy ----------

  /**
   Ask the remaining pieces for the next `len` bytes.  The answer never reaches over the end of a
   piece, so it may be shorter; an empty piece answers with nothing and is passed.
   */
  function Get(rest: seq<nat>, len: nat): (r: (bool, nat, seq<nat>))
    ensures r.1 <= len && Sum(r.2) == Sum(rest) - (if r.0 then r.1 else 0)
    ensures |r.2| <= |rest|
  {
    if rest == [] then (false, len, rest)
    else if len < rest[0] then
      assert ([rest[0] - len] + rest[1..])[1..] == rest[1..];
      (true, len, [rest[0] - len] + rest[1..])
    else (true, rest[0], rest[1..])
  }

  /** Copy what was found and go on asking, until an answer is empty; `left` bounds the copy. */
  function Fill(rest: seq<nat>, left: nat, found: bool, len: nat): (r: (nat, seq<nat>))
    requires len <= left
    ensures r.0 <= left
    decreases left
  {
    if !found || len == 0 then (0, rest)
    else
      var g := Get(rest, left - len);
      var f := Fill(g.2, left - len, g.0, g.1);
      (len + f.0, f.1)
  }

  /** Ask for up to `first` bytes, then copy on up to `max`. */
  function Copy(rest: seq<nat>, first: nat, max: nat): (r: (nat, seq<nat>))
    requires first <= max
    ensures r.0 <= max
  {
    var g := Get(rest, first);
    Fill(g.2, max, g.0, g.1)
  }

  /** The bytes in front of the first empty piece. */
  function UpToEmpty(rest: seq<nat>): nat
  {
    if rest == [] || rest[0] == 0 then 0 else rest[0] + UpToEmpty(rest[1..])
  }

  predicate Solid(rest: seq<nat>)
  {
    forall i :: 0 <= i < |rest| ==> rest[i] > 0
  }

  /** The copy stops at an empty piece, however much is left behind it. */
  lemma CopyTakes(rest: seq<nat>, left: nat)
    ensures Copy(rest, left, left).0 == if left < UpToEmpty(rest) then left else UpToEmpty(rest)
    ensures Sum(Copy(rest, left, left).1) == Sum(rest) - Copy(rest, left, left).0
    ensures Solid(rest) ==> Solid(Copy(rest, left, left).1)
  {
    var g := Get(rest, left);
    FillTakes(g.2, left, g.0, g.1);
    if rest != [] && left < rest[0] {
      assert g.2[1..] == rest[1..];
    }
  }

  lemma {:induction false} FillTakes(rest: seq<nat>, left: nat, found: bool, len: nat)
    requires len <= left
    ensures var f := Fill(rest, left, found, len);
            && f.0 == (if !found || len == 0 then 0
                       else if left < len + UpToEmpty(rest) then left else len + UpToEmpty(rest))
            && Sum(f.1) == Sum(rest) - (if !found || len == 0 then 0 else f.0 - len)
            && (Solid(rest) ==> Solid(f.1))
    decreases left
  {
    if found && len > 0 {
      var g := Get(rest, left - len);
      FillTakes(g.2, left - len, g.0, g.1);
      if rest != [] && left - len < rest[0] {
        assert g.2[1..] == rest[1..];
      }
    }
  }

  lemma {:induction false} SolidUpToEnd(rest: seq<nat>)
    requires Solid(rest)
    ensures UpToEmpty(rest) == Sum(rest)
  {
    if rest != [] { SolidUpToEnd(rest[1..]); }
  }

  // ---------- the size ----------

  function NonEmpty(lens: seq<nat>): nat
  {
    if lens == [] then 0 else (if lens[0] > 0 then 1 else 0) + NonEmpty(lens[1..])
  }

  /** The bytes of an inlined packet behind its header, and the pieces they are in. */
  function Body(lens: seq<nat>): (nat, seq<nat>)
    requires lens != []
  {
    var g := Get(lens, ETH_INLINE);
    (Sum(lens) - g.1, g.2)
  }

  /** Room for inlined data before the end of the ring, which is `m` blocks away: at most 204 bytes. */
  function Room(m: nat): nat
    requires m >= 1
  {
    if 64 * m - 52 < 204 then 64 * m - 52 else 204
  }

  /** The bytes copied before and after the end of the ring. */
  function Parts(lens: seq<nat>, m: nat): (nat, nat)
    requires lens != [] && m >= 1
  {
    var (n, rest) := Body(lens);
    if n <= Room(m) then (Copy(rest, n, n).0, 0)
    else
      var (before, rest') := Copy(rest, Room(m), Room(m));
      (before, Copy(rest', n - Room(m), n - before).0)
  }

  /**
   16-byte units of the finished work request, built `m` blocks before the end of the ring.
   Inlined: one control unit, two of Ethernet segment with the header, then a four-byte length and
   the data, in one part or in two.  Gathered: control, Ethernet, and one unit for every piece that
   is not empty.  Segmentation offload: control, the Ethernet segment with the whole header, in one
   part or in two, and one unit per piece.
   */
  function Units(wr: SendWr, m: nat): nat
    requires wr.lens != [] && m >= 1
  {
    if wr.Tso? then 1 + HeaderUnits(wr.hdr, 64 * m - 16) + |wr.lens|
    else if Sum(wr.lens) > MAX_INLINE then 2 + NonEmpty(wr.lens)
    else
      var (before, after) := Parts(wr.lens, m);
      3 + InUnits(before + 4) + InUnits(after)
  }

  /** Units of a segmentation header; fourteen bytes of the segment come before it. */
  function HeaderUnits(hdr: nat, room: nat): nat
    requires room >= 14 && room % UNIT == 0
  {
    var whole := RoundUp(32 + hdr - 18, UNIT);
    if whole <= room then whole / UNIT
    else room / UNIT + InUnits(hdr - (room - 14))
  }

  /** Blocks of the finished work request. */
  function Blocks(wr: SendWr, m: nat): nat
    requires wr.lens != [] && m >= 1
  {
    RoundUp(Units(wr, m), 4) / 4
  }

  /**
   Units from the start of the work request to the last one written.  Behind the end of the ring
   writing goes on at its beginning, `4 * m` units away, even if the copy before the end stopped
   early; the declared size knows nothing of the units in between.
   */
  function Reach(wr: SendWr, m: nat): nat
    requires wr.lens != [] && m >= 1
  {
    if wr.Tso? then HeaderReach(wr.hdr, m) + |wr.lens|
    else if Sum(wr.lens) > MAX_INLINE then 2 + NonEmpty(wr.lens)
    else
      var (before, after) := Parts(wr.lens, m);
      if after > 0 then 4 * m + InUnits(after) else 3 + InUnits(before + 4)
  }

  /** The end of a segmentation header, where the units of the pieces follow. */
  function HeaderReach(hdr: nat, m: nat): nat
    requires m >= 1
  {
    var whole, room := RoundUp(32 + hdr - 18, UNIT), 64 * m - 16;
    if whole <= room then 1 + whole / UNIT else 4 * m + InUnits(hdr - (room - 14))
  }

  /** Ring blocks from the first to the last one written. */
  function Extent(wr: SendWr, m: nat): nat
    requires wr.lens != [] && m >= 1
  {
    RoundUp(Reach(wr, m), 4) / 4
  }

  lemma BlocksOf(units: nat)
    ensures RoundUp(units, 4) / 4 == (units + 3) / 4
  {
  }

  /**
   The inline copy may be split by the end of the ring.  The second part starts a new unit, so what
   is missing in the last unit of the first part is lost.
   */
  lemma SplitInline(before: nat, after: nat)
    ensures InUnits(before + 4) + InUnits(after) ==
            InUnits(before + after + Gap(before) + 4)
  {
    hide RoundUp, InUnits;
    WholeUnits(before + 4);
    WholeUnits(after);
    WholeUnits(before + after + Gap(before) + 4);
  }

  /** Rounding up, counted in units. */
  lemma WholeUnits(x: nat)
    ensures RoundUp(x, UNIT) == UNIT * ((x + 15) / UNIT)
    ensures InUnits(x) == (x + 15) / UNIT && x <= RoundUp(x, UNIT)
  {
    DivModUnique(UNIT * ((x + 15) / UNIT), UNIT, (x + 15) / UNIT, 0);
  }

  function Gap(before: nat): nat
  {
    WholeUnits(before + 4);
    RoundUp(before + 4, UNIT) - (before + 4)
  }

  /** A split segmentation header takes no more: the room before the end is a whole number of units. */
  lemma SplitHeader(hdr: nat, room: nat)
    requires 14 <= room && room % UNIT == 0
    ensures HeaderUnits(hdr, room) == InUnits(32 + hdr - 18)
  {
  }

  lemma {:induction false} NonEmptyBound(lens: seq<nat>)
    ensures NonEmpty(lens) <= |lens|
  {
    if lens != [] { NonEmptyBound(lens[1..]); }
  }

  /** Bytes of an inlined packet that take no room in the data part, less the gap of a split. */
  function Saved(lens: seq<nat>, m: nat): int
    requires lens != [] && m >= 1
  {
    var (before, after) := Parts(lens, m);
    Sum(lens) - before - after - (if Body(lens).0 <= Room(m) then 0 else Gap(before))
  }

  predicate Suffices(total: nat, saved: int)
  {
    saved >= 6 || (total + 45) % 64 < 58 + saved
  }

  /** What a caller has to check: enough header in the first piece, or a harmless total. */
  predicate HeaderSuffices(lens: seq<nat>)
    requires lens != []
  {
    Sum(lens) > MAX_INLINE || Suffices(Sum(lens), lens[0])
  }

  /** Every later piece has bytes in it. */
  predicate Full(lens: seq<nat>)
    requires lens != []
  {
    Solid(lens[1..])
  }

  /**
   A packet never declares more blocks than it is charged for, at any place of the ring, exactly when
   its header part saves enough.  A packet without empty later pieces saves its header, wherever it is
   split; so its first piece alone decides, and one that holds an Ethernet header is enough.
   */
  lemma ChargeCoversBlocks(wr: SendWr, m: nat)
    requires wr.lens != [] && m >= 1
    ensures Blocks(wr, m) <= Charge(wr) <==>
            wr.Tso? || Sum(wr.lens) > MAX_INLINE || Suffices(Sum(wr.lens), Saved(wr.lens, m))
    ensures wr.Tso? || Full(wr.lens) ==>
            (Blocks(wr, m) <= Charge(wr) <==> wr.Tso? || HeaderSuffices(wr.lens))
  {
    hide Parts, HeaderUnits, Saved, NonEmpty, Suffices, Sum;
    BlocksOf(Units(wr, m));
    NonEmptyBound(wr.lens);
    if wr.Tso? {
      SplitHeader(wr.hdr, 64 * m - 16);
      TsoCovered(wr.hdr, |wr.lens|);
    } else if Sum(wr.lens) <= MAX_INLINE {
      InlineUnits(wr.lens, m);
      InlineCovered(Sum(wr.lens), Saved(wr.lens, m));
      if Full(wr.lens) { FullSuffices(wr.lens, m); }
    }
  }

  /** The same for the blocks it writes: behind an empty piece all of the room before the end counts. */
  function Spare(lens: seq<nat>, m: nat): int
    requires lens != [] && m >= 1
  {
    var (before, after) := Parts(lens, m);
    Sum(lens) - (if after > 0 then Room(m) + after else before)
  }

  /** The packet writes no more blocks than it is charged for. */
  predicate Covered(wr: SendWr, m: nat)
    requires wr.lens != [] && m >= 1
  {
    wr.Tso? || Sum(wr.lens) > MAX_INLINE || Suffices(Sum(wr.lens), Spare(wr.lens, m))
  }

  /**
   A packet never writes to more ring blocks than it is charged for exactly when it is covered.  It
   never writes to fewer than it declares, and without empty later pieces to just those.
   */
  lemma ChargeCoversExtent(wr: SendWr, m: nat)
    requires wr.lens != [] && m >= 1
    ensures Extent(wr, m) <= Charge(wr) <==> Covered(wr, m)
    ensures Blocks(wr, m) <= Extent(wr, m)
    ensures wr.Tso? || Full(wr.lens) ==>
            Extent(wr, m) == Blocks(wr, m) && (Covered(wr, m) <==> wr.Tso? || HeaderSuffices(wr.lens))
  {
    hide Parts, HeaderUnits, HeaderReach, Saved, Spare, NonEmpty, Suffices, Sum;
    BlocksOf(Units(wr, m));
    BlocksOf(Reach(wr, m));
    ChargeCoversBlocks(wr, m);
    if wr.Tso? {
      HeaderReachIs(wr.hdr, m);
    } else if Sum(wr.lens) <= MAX_INLINE {
      ReachIs(wr.lens, m);
      ReachCovers(wr.lens, m);
      InlineCovered(Sum(wr.lens), Spare(wr.lens, m));
      if Full(wr.lens) { FullSpare(wr.lens, m); }
    }
  }

  lemma HeaderReachIs(hdr: nat, m: nat)
    requires m >= 1
    ensures HeaderReach(hdr, m) == 1 + HeaderUnits(hdr, 64 * m - 16)
  {
  }

  /** A copy is split only where the ring ends less than 204 bytes on. */
  lemma SplitRoom(lens: seq<nat>, m: nat)
    requires lens != [] && m >= 1 && Sum(lens) <= MAX_INLINE
    ensures Parts(lens, m).1 > 0 ==> Room(m) == 64 * m - 52 && Parts(lens, m).0 <= Room(m) && Body(lens).0 > Room(m)
    ensures Spare(lens, m) <= Sum(lens)
  {
    hide Copy, Sum;
  }

  lemma ReachIs(lens: seq<nat>, m: nat)
    requires lens != [] && m >= 1 && Sum(lens) <= MAX_INLINE
    ensures Spare(lens, m) <= Sum(lens)
    ensures Reach(Send(lens), m) == 3 + InUnits(Sum(lens) - Spare(lens, m) + 4)
  {
    hide Parts, RoundUp, InUnits, Room, Sum;
    SplitRoom(lens, m);
    var (before, after) := Parts(lens, m);
    if after > 0 {
      WholeUnits(after);
      WholeUnits(Room(m) + after + 4);
    }
  }

  lemma ReachCovers(lens: seq<nat>, m: nat)
    requires lens != [] && m >= 1 && Sum(lens) <= MAX_INLINE
    ensures Units(Send(lens), m) <= Reach(Send(lens), m)
    ensures Full(lens) ==> Units(Send(lens), m) == Reach(Send(lens), m)
  {
    hide Parts, RoundUp, InUnits, Room, Sum, Body, Full;
    SplitRoom(lens, m);
    var (before, after) := Parts(lens, m);
    if after > 0 {
      WholeUnits(before + 4);
      if Full(lens) {
        FullFills(lens, m);
      }
    }
  }

  /** Without empty pieces a split copy fills all the room before the end. */
  lemma FullFills(lens: seq<nat>, m: nat)
    requires lens != [] && m >= 1 && Full(lens)
    ensures Body(lens).0 > Room(m) ==> Parts(lens, m).0 == Room(m)
    ensures Body(lens).0 <= Room(m) ==> Parts(lens, m).1 == 0
  {
    hide Copy, Fill;
    var (n, rest) := Body(lens);
    assert Solid(rest) && Sum(rest) == n;
    SolidUpToEnd(rest);
    CopyTakes(rest, Room(m));
  }

  lemma FullSpare(lens: seq<nat>, m: nat)
    requires lens != [] && m >= 1 && Full(lens) && Sum(lens) <= MAX_INLINE
    ensures Suffices(Sum(lens), Spare(lens, m)) <==> Suffices(Sum(lens), lens[0])
  {
    hide Parts, Body, Sum, Room;
    FullFills(lens, m);
    FullSavesHeader(lens, m);
    SplitRoom(lens, m);
  }

  lemma FullSuffices(lens: seq<nat>, m: nat)
    requires lens != [] && m >= 1 && Full(lens)
    ensures Suffices(Sum(lens), Saved(lens, m)) <==> Suffices(Sum(lens), lens[0])
  {
    hide Saved, Body, Parts, Sum;
    FullSavesHeader(lens, m);
  }

  /** However the copy is split, the units are those of one copy that is longer by the gap. */
  lemma InlineUnits(lens: seq<nat>, m: nat)
    requires lens != [] && m >= 1 && Sum(lens) <= MAX_INLINE
    ensures Saved(lens, m) <= Sum(lens)
    ensures Units(Send(lens), m) == 3 + InUnits(Sum(lens) - Saved(lens, m) + 4)
  {
    hide RoundUp, InUnits, Body, Copy, Gap;
    var (before, after) := Parts(lens, m);
    SplitInline(before, after);
  }

  /** Without empty pieces the whole packet is copied, and a split leaves no gap. */
  lemma FullSavesHeader(lens: seq<nat>, m: nat)
    requires lens != [] && m >= 1 && Full(lens)
    ensures Parts(lens, m).0 + Parts(lens, m).1 == Body(lens).0
    ensures Saved(lens, m) == if ETH_INLINE < lens[0] then ETH_INLINE else lens[0]
  {
    hide Copy, Fill, RoundUp;
    var (n, rest) := Body(lens);
    assert Solid(rest) && Sum(rest) == n;
    WholeUnits(Room(m) + 4);
    SolidUpToEnd(rest);
    if n <= Room(m) {
      CopyTakes(rest, n);
    } else {
      CopyTakes(rest, Room(m));
      var rest' := Copy(rest, Room(m), Room(m)).1;
      SolidUpToEnd(rest');
      CopyTakes(rest', n - Room(m));
    }
  }

  /** The pieces that have bytes are counted, and no others. */
  lemma {:induction false} NonEmptyCounts(a: seq<nat>, b: seq<nat>, x: nat)
    ensures NonEmpty(a + b) == NonEmpty(a) + NonEmpty(b)
    ensures NonEmpty([x]) == (if x > 0 then 1 else 0) && NonEmpty([]) == 0
  {
    assert [x][1..] == [];
    if a == [] {
      assert a + b == b;
    } else {
      NonEmptyCounts(a[1..], b, x);
      assert (a + b)[1..] == a[1..] + b;
    }
  }

  /**
   The charge is never more than one block too much for a packet whose pieces all have bytes, and exact
   for a single piece that is not inlined.
   */
  lemma ChargeIsTight(wr: SendWr, m: nat)
    requires wr.lens != [] && m >= 1 && (wr.Tso? || Solid(wr.lens))
    ensures Charge(wr) <= Blocks(wr, m) + 1
    ensures wr.Send? && |wr.lens| == 1 && wr.lens[0] > MAX_INLINE ==> Charge(wr) == Blocks(wr, m) == 1
  {
    hide Parts, HeaderUnits, Saved, RoundUp, InUnits, Sum, NonEmpty;
    BlocksOf(Units(wr, m));
    if wr.Tso? {
      SplitHeader(wr.hdr, 64 * m - 16);
      WholeUnits(32 + wr.hdr - 18);
      TsoTight(wr.hdr, |wr.lens|);
    } else {
      SolidCounts(wr.lens);
      SumAtLeast(wr.lens);
      if Sum(wr.lens) <= MAX_INLINE {
        InlineUnits(wr.lens, m);
        FullSavesHeader(wr.lens, m);
        WholeUnits(Sum(wr.lens) - Saved(wr.lens, m) + 4);
        InlineTight(Sum(wr.lens), Saved(wr.lens, m));
      }
    }
  }

  lemma TsoTight(hdr: nat, n: nat)
    ensures (RoundDown16(hdr + 13) + 2 + n * 16 - 18 + 63) / 64 + 1 <= (1 + (14 + hdr + 15) / 16 + n + 3) / 4 + 1
  {
    var q := (hdr + 13) / 16;
    assert (14 + hdr + 15) / 16 == q + 1;
    assert (16 * q + 16 * n + 47) / 64 <= (q + n + 5) / 4;
  }

  lemma InlineTight(total: nat, saved: nat)
    requires saved <= total && saved <= 18
    ensures (total + 63 - 18) / 64 + 1 <= (3 + (total - saved + 19) / 16 + 3) / 4 + 1
  {
    var x := total - saved;
    assert (6 + (x + 19) / 16) / 4 == (x + 115) / 64;
  }

  lemma {:induction false} SolidCounts(lens: seq<nat>)
    requires Solid(lens)
    ensures NonEmpty(lens) == |lens|
  {
    if lens != [] { SolidCounts(lens[1..]); }
  }

  lemma SumAtLeast(lens: seq<nat>)
    requires lens != []
    ensures Sum(lens) >= lens[0] && (|lens| == 1 ==> Sum(lens) == lens[0])
  {
  }

  lemma TsoCovered(hdr: nat, n: nat)
    ensures RoundUp(1 + RoundUp(14 + hdr, 16) / 16 + n, 4) / 4 <=
            (RoundDown16(hdr + 13) + 2 + n * 16 - 18 + 63) / 64 + 1
  {
    var q := (hdr + 13) / 16;
    assert RoundUp(14 + hdr, 16) / 16 == q + 1;
    assert RoundDown16(hdr + 13) == 16 * q;
  }

  lemma InlineCovered(total: nat, saved: int)
    requires saved <= total
    ensures RoundUp(3 + RoundUp(total - saved + 4, 16) / 16, 4) / 4 <= (total + 45) / 64 + 1 <==>
            Suffices(total, saved)
  {
    var x := total - saved;
    assert RoundUp(x + 4, 16) / 16 == (x + 19) / 16;
    assert RoundUp(3 + (x + 19) / 16, 4) / 4 == (6 + (x + 19) / 16) / 4;
    assert (6 + (x + 19) / 16) / 4 == (x + 115) / 64;
  }

  /** A packet of fourteen bytes in two pieces is charged one block and takes two, anywhere in the ring. */
  lemma ShortFirstPiece(m: nat)
    requires m >= 1
    ensures var wr := Send([1, 13]); Charge(wr) == 1 && Blocks(wr, m) == 2
  {
    hide Parts, Saved, Body, Room, RoundUp;
    var lens := [1, 13];
    assert lens[1..] == [13] && [13][1..] == [];
    assert Sum(lens) == 1 + Sum([13]) && Sum([13]) == 13 + Sum([]);
    FullSavesHeader(lens, m);
    InlineUnits(lens, m);
    WholeUnits(17);
    BlocksOf(5);
  }

  /** An empty second piece ends the copy: the thirteen bytes behind it are never sent. */
  lemma EmptyPieceTruncates(m: nat)
    requires m >= 2
    ensures Body([1, 0, 13]).0 == 13 && Parts([1, 0, 13], m) == (0, 0)
    ensures var wr := Send([1, 0, 13]); Charge(wr) == 1 && Blocks(wr, m) == 1
  {
    hide RoundUp, InUnits;
    var lens := [1, 0, 13];
    assert lens[1..] == [0, 13] && [0, 13][1..] == [13] && [13][1..] == [];
    assert Sum(lens) == 1 + Sum([0, 13]) && Sum([0, 13]) == Sum([13]) == 13 + Sum([]);
    CopyTakes([0, 13], 13);
    WholeUnits(4);
    BlocksOf(4);
  }

  /** With an empty piece in front of the end of the ring even a full header is charged too little. */
  lemma EmptyPieceAtTheEnd()
    ensures var wr := Send([18, 13, 0, 115]);
            && Parts(wr.lens, 2) == (13, 115)
            && Charge(wr) == 3 && Blocks(wr, 2) == 4
  {
    hide RoundUp, InUnits, Fill, Copy;
    var lens := [18, 13, 0, 115];
    assert lens[1..] == [13, 0, 115] && [13, 0, 115][1..] == [0, 115] && [0, 115][1..] == [115] && [115][1..] == [];
    assert Sum(lens) == 18 + Sum([13, 0, 115]) && Sum([13, 0, 115]) == 13 + Sum([0, 115]);
    assert Sum([0, 115]) == Sum([115]) == 115 + Sum([]);
    PassesEmpty(13, [115], 76);
    assert [13, 0] + [115] == [13, 0, 115];
    TakesWhole(115, 52);
    WholeUnits(17);
    WholeUnits(115);
    BlocksOf(13);
  }

  /**
   A packet of the largest inlined length with an empty second piece, built three blocks before the
   end, declares the four blocks it is charged for and writes to six.
   */
  lemma EmptyPieceOverruns()
    ensures var wr := Send([18, 0, 186]);
            && Parts(wr.lens, 3) == (0, 186)
            && Charge(wr) == 4 && Blocks(wr, 3) == 4 && Extent(wr, 3) == 6
  {
    hide RoundUp, InUnits, Fill, Copy;
    var lens := [18, 0, 186];
    assert lens[1..] == [0, 186] && [0, 186][1..] == [186] && [186][1..] == [];
    assert Sum(lens) == 18 + Sum([0, 186]) && Sum([0, 186]) == Sum([186]) == 186 + Sum([]);
    StopsAtOnce([186], 140);
    assert [0] + [186] == [0, 186];
    TakesWhole(186, 46);
    WholeUnits(4);
    WholeUnits(186);
    BlocksOf(16);
    BlocksOf(24);
  }

  lemma StopsAtOnce(rest: seq<nat>, left: nat)
    ensures Copy([0] + rest, left, left) == (0, rest)
  {
    hide Sum;
    assert ([0] + rest)[1..] == rest;
    assert Get([0] + rest, left) == (true, 0, rest);
  }

  /** The copy passes the empty piece it stops at, so a second part starts behind it. */
  lemma PassesEmpty(a: nat, rest: seq<nat>, left: nat)
    requires 0 < a < left
    ensures Copy([a, 0] + rest, left, left) == (a, rest)
  {
    hide Sum;
    var all, tail := [a, 0] + rest, [0] + rest;
    assert all[1..] == tail && tail[1..] == rest;
    assert Get(tail, left - a) == (true, 0, rest);
    assert Fill(rest, left - a, true, 0) == (0, rest);
  }

  lemma TakesWhole(b: nat, first: nat)
    requires 0 < first < b
    ensures Copy([b], first, b) == (b, [])
  {
    hide Sum;
    var left := [b - first];
    assert [b][1..] == [] && left[1..] == [];
    assert [b - first] + [b][1..] == left;
    assert Get(left, b - first) == (true, b - first, []);
    assert Get([], 0) == (false, 0, []);
    assert Fill([], b - first, true, b - first) == (b - first, []);
  }
}
