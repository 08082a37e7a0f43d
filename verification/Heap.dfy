/**
 The heap that buffer pools draw on: memory blocks from the system, carved from
 the front in whole pages, never given back.  Sizes are 64-bit.
 */
module Heap {
  import opened Bits
  import opened CompletionQueue

  datatype Region = Region(base: nat, size: nat)

  datatype State = State(
    shift: nat,               // log2 of the page size
    fixed: bool,              // memory registered with the device: one block only
    unit: nat,                // least size of a further block
    blocks: seq<Region>,
    offset: nat,              // first free byte of the newest block
    given: seq<Region>,       // everything handed out
    homes: seq<nat>)          // the block of each of them

  ghost predicate Inside(r: Region, b: Region)
  {
    b.base <= r.base && r.base + r.size <= b.base + b.size
  }

  ghost predicate Apart(a: Region, b: Region)
  {
    a.base + a.size <= b.base || b.base + b.size <= a.base
  }

  /** A size rounded up to whole pages by masking, in 64-bit arithmetic. */
  function RoundUp(size: nat, shift: nat): nat
  {
    var x := (size + Pow2(shift) - 1) % TWO64;
    MaskDown(x, shift);
    x - And(x, Pow2(shift) - 1)
  }

  /** Masking the low bits off. */
  lemma MaskDown(x: nat, shift: nat)
    ensures var r := x - And(x, Pow2(shift) - 1);
            0 <= r <= x < r + Pow2(shift) && r % Pow2(shift) == 0 && (x < Pow2(shift) ==> r == 0)
  {
    AndMask(x, shift);
    Floor(x, Pow2(shift));
  }

  lemma Floor(x: nat, p: nat)
    requires p >= 1
    ensures 0 <= x - x % p && (x - x % p) % p == 0 && (x < p ==> x % p == x)
  {
    assert x - x % p == x / p * p;
    assert x / p >= 0;
    DivModUnique(x / p * p, p, x / p, 0);
    if x < p { DivModUnique(x, p, 0, x); }
  }

  /** Rounding yields whole pages, and at least the size unless the sum wraps. */
  lemma RoundUpIs(size: nat, shift: nat)
    requires size < TWO64 && shift < 64
    ensures var n := RoundUp(size, shift);
            && n < TWO64 && n % Pow2(shift) == 0
            && (n >= size <==> size + Pow2(shift) - 1 < TWO64)
            && n < size + Pow2(shift)
  {
    hide Pow2, And;
    var p := Pow2(shift);
    PageFits(shift);
    var x := (size + p - 1) % TWO64;
    MaskDown(x, shift);
    if size + p - 1 < TWO64 {
      DivModUnique(size + p - 1, TWO64, 0, size + p - 1);
    } else {
      DivModUnique(size + p - 1, TWO64, 1, size + p - 1 - TWO64);
    }
  }

  lemma PageFits(shift: nat)
    requires shift < 64
    ensures Pow2(shift) < TWO64
  {
    Pow2At64();
    Pow2Monotone(shift, 63);
    assert Pow2(64) == 2 * Pow2(63);
  }

  function Last(h: State): Region
    requires h.blocks != []
  {
    h.blocks[|h.blocks| - 1]
  }

  /** The test for room in the newest block; the sum is 64-bit. */
  predicate Fits(h: State, n: nat)
    requires h.blocks != []
  {
    (n + h.offset) % TWO64 <= Last(h).size
  }

  function Grant(h: State, n: nat): State
    requires h.blocks != []
  {
    h.(offset := (h.offset + n) % TWO64,
       given := h.given + [Region(Last(h).base + h.offset, n)],
       homes := h.homes + [|h.blocks| - 1])
  }

  function Expand(h: State, block: Region): State
  {
    h.(blocks := h.blocks + [block], offset := 0)
  }

  /** Hand out whole pages; `offer` is the block the system would add, if any. */
  function Alloc(h: State, n: nat, offer: Option<Region>): State
    requires h.blocks != []
  {
    if Fits(h, n) then Grant(h, n)
    else if h.fixed || offer.None? then h
    else Grant(Expand(h, offer.value), n)
  }

  /** A block the system may add: large enough, and new memory. */
  ghost predicate Offered(h: State, n: nat, offer: Option<Region>)
  {
    offer.Some? ==>
      && n <= offer.value.size && h.unit <= offer.value.size
      && 0 < offer.value.base && offer.value.base + offer.value.size < TWO64
      && forall i :: 0 <= i < |h.blocks| ==> Apart(h.blocks[i], offer.value)
  }

  /** Blocks are apart, and so is everything handed out, each in its block and behind the free part. */
  ghost predicate Inv(h: State)
  {
    && h.shift < 64 && h.blocks != [] && h.offset <= Last(h).size
    && (forall i :: 0 <= i < |h.blocks| ==> 0 < h.blocks[i].base && h.blocks[i].base + h.blocks[i].size < TWO64)
    && (forall i, j :: 0 <= i < j < |h.blocks| ==> Apart(h.blocks[i], h.blocks[j]))
    && |h.homes| == |h.given|
    && (forall k :: 0 <= k < |h.given| ==>
          && h.homes[k] < |h.blocks| && Inside(h.given[k], h.blocks[h.homes[k]])
          && (h.homes[k] == |h.blocks| - 1 ==> h.given[k].base + h.given[k].size <= Last(h).base + h.offset)
          && h.given[k].size % Pow2(h.shift) == 0)
    && (forall i, j :: 0 <= i < j < |h.given| ==> Apart(h.given[i], h.given[j]))
  }

  lemma GrantKeeps(h: State, n: nat)
    requires Inv(h) && n % Pow2(h.shift) == 0 && n + h.offset <= Last(h).size
    ensures Inv(Grant(h, n))
  {
    var g, r := Grant(h, n), Region(Last(h).base + h.offset, n);
    assert (h.offset + n) % TWO64 == h.offset + n;
    forall k | 0 <= k < |h.given|
      ensures Apart(h.given[k], r)
    {
      var home := h.homes[k];
      assert home < |h.blocks| - 1 ==> Apart(h.blocks[home], Last(h));
    }
  }

  lemma ExpandKeeps(h: State, block: Region)
    requires Inv(h) && Offered(h, 0, Some(block))
    ensures Inv(Expand(h, block))
  {
  }

  /** The 64-bit test is exact, and what it grants lies in the block, exactly when the sum does not wrap. */
  lemma FitsExact(h: State, n: nat)
    requires Inv(h) && n < TWO64
    ensures Fits(h, n) && n + h.offset < TWO64 ==> n + h.offset <= Last(h).size
    ensures Fits(h, n) ==> (Inside(Region(Last(h).base + h.offset, n), Last(h)) <==> n + h.offset < TWO64)
  {
  }

  /** The test for room lets a request through although the sum wraps. */
  predicate Wraps(h: State, n: nat)
    requires h.blocks != []
  {
    Fits(h, n) && n + h.offset >= TWO64
  }

  /** An allocation keeps the heap sound exactly when the test for room does not wrap. */
  lemma AllocKeeps(h: State, n: nat, offer: Option<Region>)
    requires Inv(h) && n < TWO64 && n % Pow2(h.shift) == 0 && Offered(h, n, offer)
    ensures Inv(Alloc(h, n, offer)) <==> !Wraps(h, n)
    ensures Wraps(h, n) ==> Escapes(Alloc(h, n, offer))
  {
    hide Inv, Pow2;
    InvParts(h);
    if Fits(h, n) {
      FitsExact(h, n);
      if Wraps(h, n) {
        GrantEscapes(h, n);
      } else {
        GrantKeeps(h, n);
      }
    } else if !h.fixed && offer.Some? {
      ExpandKeeps(h, offer.value);
      GrantKeeps(Expand(h, offer.value), n);
    }
  }

  /** Something was handed out that is not inside its block. */
  ghost predicate Escapes(h: State)
  {
    exists k :: Outside(h, k)
  }

  ghost predicate Outside(h: State, k: nat)
  {
    k < |h.given| && k < |h.homes| && h.homes[k] < |h.blocks| && !Inside(h.given[k], h.blocks[h.homes[k]])
  }

  lemma GrantEscapes(h: State, n: nat)
    requires Inv(h) && !Inside(Region(Last(h).base + h.offset, n), Last(h))
    ensures Escapes(Grant(h, n)) && !Inv(Grant(h, n))
  {
    var g := Grant(h, n);
    assert Outside(g, |h.given|);
    EscapesIsUnsound(g);
  }

  lemma EscapesIsUnsound(h: State)
    requires Escapes(h)
    ensures !Inv(h)
  {
  }

  /** Nothing that happens later mends that. */
  lemma EscapesStays(h: State, n: nat, offer: Option<Region>)
    requires h.blocks != [] && Escapes(h)
    ensures Escapes(Alloc(h, n, offer))
  {
    var k: nat :| Outside(h, k);
    assert Outside(Alloc(h, n, offer), k);
  }

  /** A block of 32 bytes with 16 handed out grants almost all of the address space. */
  lemma WrapGrants()
    ensures var h := State(4, false, 0, [Region(16, 32)], 16, [Region(16, 16)], [0]);
            Inv(h) && Wraps(h, TWO64 - 16) && !Inv(Alloc(h, TWO64 - 16, None))
  {
    var h := State(4, false, 0, [Region(16, 32)], 16, [Region(16, 16)], [0]);
    assert Pow2(4) == 16;
    assert Inv(h);
    AllocKeeps(h, TWO64 - 16, None);
  }

  /**
   Memory comes from the newest block when it fits there; otherwise from a new block, if the heap may
   grow and the system has one; otherwise nothing changes.
   */
  lemma AllocGrants(h: State, n: nat, offer: Option<Region>)
    requires h.blocks != []
    ensures var r, fits := Alloc(h, n, offer), (n + h.offset) % TWO64 <= Last(h).size;
            && (fits ==> r.blocks == h.blocks && r.given == h.given + [Region(Last(h).base + h.offset, n)])
            && (!fits && (h.fixed || offer.None?) ==> r == h)
            && (!fits && !h.fixed && offer.Some? ==>
                r.blocks == h.blocks + [offer.value] && r.given == h.given + [Region(offer.value.base, n)])
  {
  }

  lemma InvParts(h: State)
    requires Inv(h)
    ensures h.blocks != [] && h.shift < 64
  {
  }

  lemma EnoughRoom(h: State, n: nat, offer: Option<Region>)
    requires Offered(h, n, offer) && n < TWO64
    ensures offer.Some? ==> Fits(Expand(h, offer.value), n)
  {
  }

  /** Requests, each with the block the system would offer for it. */
  datatype Request = Request(size: nat, offer: Option<Region>)

  ghost predicate Feasible(h: State, rs: seq<Request>)
    decreases |rs|
  {
    rs == [] ||
    var n := RoundUp(rs[0].size, h.shift);
    && h.blocks != [] && rs[0].size < TWO64 && Offered(h, n, rs[0].offer)
    && Feasible(Alloc(h, n, rs[0].offer), rs[1..])
  }

  ghost function Run(h: State, rs: seq<Request>): State
    requires Feasible(h, rs)
    decreases |rs|
  {
    if rs == [] then h else Run(Alloc(h, RoundUp(rs[0].size, h.shift), rs[0].offer), rs[1..])
  }

  /** No request of a run makes the test for room wrap. */
  ghost predicate NeverWraps(h: State, rs: seq<Request>)
    requires Feasible(h, rs)
    decreases |rs|
  {
    rs == [] ||
    var n := RoundUp(rs[0].size, h.shift);
    !Wraps(h, n) && NeverWraps(Alloc(h, n, rs[0].offer), rs[1..])
  }

  /**
   Over every run of requests everything handed out stays apart, inside its block and in whole pages,
   exactly when no request makes the test for room wrap.
   */
  lemma {:induction false} RunKeeps(h: State, rs: seq<Request>)
    requires Inv(h) && Feasible(h, rs)
    ensures Inv(Run(h, rs)) <==> NeverWraps(h, rs)
    decreases |rs|
  {
    hide Inv, Alloc, Wraps, RoundUp, Offered, Escapes;
    if rs != [] {
      var n := RoundUp(rs[0].size, h.shift);
      InvParts(h);
      RoundUpIs(rs[0].size, h.shift);
      AllocKeeps(h, n, rs[0].offer);
      if Wraps(h, n) {
        RunEscapes(Alloc(h, n, rs[0].offer), rs[1..]);
      } else {
        RunKeeps(Alloc(h, n, rs[0].offer), rs[1..]);
      }
    }
  }

  lemma {:induction false} RunEscapes(h: State, rs: seq<Request>)
    requires Escapes(h) && Feasible(h, rs)
    ensures !Inv(Run(h, rs))
    decreases |rs|
  {
    hide Inv, Alloc, RoundUp, Offered, Escapes;
    if rs == [] {
      EscapesIsUnsound(h);
    } else {
      var n := RoundUp(rs[0].size, h.shift);
      EscapesStays(h, n, rs[0].offer);
      RunEscapes(Alloc(h, n, rs[0].offer), rs[1..]);
    }
  }

  class XlioHeap {
    const shift: nat
    const fixed: bool
    const unit: nat
    var blocks: seq<Region>
    var offset: nat
    ghost var given: seq<Region>
    ghost var homes: seq<nat>

    ghost function Contents(): State
      reads this
    {
      State(shift, fixed, unit, blocks, offset, given, homes)
    }

    constructor (shift: nat, fixed: bool, unit: nat, block: Region)
      requires shift < 64 && 0 < block.base && block.base + block.size < TWO64
      ensures Inv(Contents())
      ensures Contents() == State(shift, fixed, unit, [block], 0, [], [])
    {
      this.shift, this.fixed, this.unit := shift, fixed, unit;
      blocks, offset, given, homes := [block], 0, [], [];
    }

    /** Take on the block the system returned, if it returned one. */
    method AddBlock(offer: Option<Region>) returns (ok: bool)
      modifies this`blocks, this`offset
      ensures ok <==> offer.Some?
      ensures Contents() == if offer.Some? then Expand(old(Contents()), offer.value) else old(Contents())
    {
      if offer.None? {
        return false;
      }
      blocks, offset := blocks + [offer.value], 0;
      return true;
    }

    /** Hand out the next `n` bytes of the newest block. */
    method Carve(n: nat) returns (r: Region)
      requires blocks != []
      modifies this`offset, this`given, this`homes
      ensures Contents() == Grant(old(Contents()), n)
      ensures |given| == |old(given)| + 1 && r == given[|given| - 1] && r.size == n
    {
      r := Region(blocks[|blocks| - 1].base + offset, n);
      given, homes := given + [r], homes + [|blocks| - 1];
      offset := (offset + n) % TWO64;
    }

    /**
     Allocate whole pages, at most `tries` new blocks later; `offers` are the system's answers in
     turn.  The first new block always holds the request.
     */
    method Allocate(size: nat, offers: seq<Option<Region>>) returns (data: Option<Region>, tries: nat)
      requires Inv(Contents()) && size < TWO64
      requires offers != [] && Offered(Contents(), RoundUp(size, shift), offers[0])
      modifies this
      ensures Inv(Contents()) <==> !old(Wraps(Contents(), RoundUp(size, shift)))
      ensures Contents() == Alloc(old(Contents()), RoundUp(size, shift), offers[0])
      ensures data == if given == old(given) then None else Some(given[|given| - 1])
      ensures tries <= 1 && (data.Some? ==> |given| == |old(given)| + 1 && data.value.size == RoundUp(size, shift))
    {
      hide RoundUp, Inv, Offered, Pow2, Grant;
      InvParts(Contents());
      RoundUpIs(size, shift);
      var n := RoundUp(size, shift);
      AllocKeeps(Contents(), n, offers[0]);
      EnoughRoom(Contents(), n, offers[0]);
      tries, data := 0, None;
      ghost var start := Contents();
      while true
        invariant blocks != [] && n < TWO64
        invariant tries <= 1 && !(fixed && tries == 1)
        invariant tries == 1 ==> !Fits(start, n) && offers[0].Some?
        invariant Contents() == if tries == 0 then start else Expand(start, offers[0].value)
        decreases 2 - tries
      {
        if (n + offset) % TWO64 <= blocks[|blocks| - 1].size {
          var r := Carve(n);
          return Some(r), tries;
        }
        if fixed {
          return;
        }
        var ok := AddBlock(offers[tries]);
        if !ok {
          return;
        }
        tries := tries + 1;
      }
    }
  }
}
