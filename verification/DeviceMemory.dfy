/**
 On-device memory for packet data: a cyclic allocator that hands out contiguous,
 8-byte aligned pieces and remembers only where it writes next and how much is
 in use.  Each buffer carries the amount it holds.
 */
module DeviceMemory {
  import opened Bits
  import opened Buffers
  import opened CompletionQueue

  /**
   A live piece, at unbounded write positions: `pad` bytes skipped at the end of the memory, then
   `len` bytes of data.  A buffer remembers the size of one piece at most; `held` marks that one.
   */
  datatype Piece = Piece(buf: Buf, from: nat, pad: nat, len: nat, held: bool)

  datatype Dm = Dm(
    size: nat,
    head: nat,
    used: nat,
    lens: map<Buf, nat>,      // bytes each buffer says it holds
    live: seq<Piece>,         // oldest first
    top: nat)                 // unbounded write position

  function Len(lens: map<Buf, nat>, b: Buf): nat
  {
    if b in lens then lens[b] else 0
  }

  /** Round a 32-bit length up to a multiple of eight, in 32-bit arithmetic. */
  function Aligned(length: nat): nat
  {
    (length + 7) % TWO32 / 8 * 8
  }

  lemma AlignedCovers(length: nat)
    requires length < TWO32
    ensures Aligned(length) % 8 == 0 && Aligned(length) < length + 8
    ensures Aligned(length) >= length <==> length <= TWO32 - 8 || length == 0
  {
    if length + 7 < TWO32 {
      DivModUnique(length + 7, TWO32, 0, length + 7);
    } else {
      DivModUnique(length + 7, TWO32, 1, length + 7 - TWO32);
    }
  }

  /** Bytes to skip before `n` bytes can be written, or a refusal. */
  function Fit(size: nat, head: nat, used: nat, n: nat): Option<nat>
  {
    if used >= size then None
    else if head >= used then
      if size < head + n then
        if head - used >= n then Some(if head <= size then size - head else 0) else None
      else Some(0)
    else if size - used < n then None
    else Some(0)
  }

  function Start(d: Dm, pad: nat): nat
  {
    if pad > 0 then 0 else d.head
  }

  /** A buffer forgets the piece it remembered; the piece stays where it is. */
  function Disown(ps: seq<Piece>, buf: Buf): (r: seq<Piece>)
    ensures |r| == |ps|
    ensures forall i :: 0 <= i < |ps| ==> r[i] == if ps[i].buf == buf then ps[i].(held := false) else ps[i]
  {
    if ps == [] then []
    else [if ps[0].buf == buf then ps[0].(held := false) else ps[0]] + Disown(ps[1..], buf)
  }

  /** Copy a piece of a packet.  Whatever its buffer remembered is forgotten first. */
  function Copy(d: Dm, buf: Buf, length: nat): Dm
  {
    var n := Aligned(length);
    var live := Disown(d.live, buf);
    match Fit(d.size, d.head, d.used, n)
    case None => d.(lens := d.lens[buf := 0], live := live)
    case Some(pad) =>
      d.(head := (Start(d, pad) + n) % d.size,
         used := d.used + pad + n,
         lens := d.lens[buf := pad + n],
         live := if n == 0 then live else live + [Piece(buf, d.top, pad, n, true)],
         top := d.top + pad + n)
  }

  /** The device fails to copy: the call gives up half way. */
  function CopyFailed(d: Dm, buf: Buf, length: nat): Dm
  {
    var live := Disown(d.live, buf);
    match Fit(d.size, d.head, d.used, Aligned(length))
    case None => d.(lens := d.lens[buf := 0], live := live)
    case Some(pad) => d.(head := Start(d, pad), lens := d.lens[buf := pad], live := live)
  }

  /** A buffer gives back what it says it holds; the subtraction is unsigned. */
  function Release(d: Dm, buf: Buf): Dm
  {
    d.(used := (d.used - Len(d.lens, buf)) % TWO64, lens := d.lens[buf := 0])
  }

  /** A sent buffer comes back; only one that holds device memory is released. */
  function Put(d: Dm, buf: Buf): Dm
  {
    if Len(d.lens, buf) != 0 then Release(d, buf) else d
  }

  function PutAll(d: Dm, bufs: seq<Buf>): Dm
  {
    if bufs == [] then d else Put(PutAll(d, bufs[..|bufs| - 1]), bufs[|bufs| - 1])
  }

  /** The buffers of the `n` oldest pieces come back, in any order, among others that hold nothing. */
  function PutBatch(d: Dm, bufs: seq<Buf>, n: nat): Dm
    requires n <= |d.live|
  {
    PutAll(d, bufs).(live := d.live[n..])
  }

  ghost predicate Batch(d: Dm, bufs: seq<Buf>, n: nat)
  {
    && n <= |d.live|
    && (forall i :: 0 <= i < n ==> d.live[i].buf in bufs)
    && (forall i :: n <= i < |d.live| ==> d.live[i].buf !in bufs)
  }

  // ---------- the invariant ----------

  function Sum(ps: seq<Piece>): nat
  {
    if ps == [] then 0 else ps[0].pad + ps[0].len + Sum(ps[1..])
  }

  /** Where a piece's data lies in the memory. */
  function At(p: Piece, size: nat): nat
    requires size >= 1
  {
    Wrap(p.from + p.pad, size)
  }

  /** Pieces that fill the write positions from `start` to `end`, each contiguous and aligned. */
  ghost predicate Tiled(ps: seq<Piece>, start: int, end: nat, size: nat)
    requires size >= 1
  {
    && start >= 0 && start % 8 == 0
    && (if ps == [] then start == end
        else
          && ps[0].from == start && ps[0].pad % 8 == 0 && ps[0].len % 8 == 0 && ps[0].len > 0
          && At(ps[0], size) + ps[0].len <= size
          && Tiled(ps[1..], start + ps[0].pad + ps[0].len, end, size))
  }

  /** Piece `i` is the one that buffer `b` remembers. */
  predicate Holds(ps: seq<Piece>, i: nat, b: Buf)
  {
    i < |ps| && ps[i].held && ps[i].buf == b
  }

  /** A buffer remembers one live piece with its size, or nothing. */
  ghost predicate Named(ps: seq<Piece>, lens: map<Buf, nat>)
  {
    && (forall i, j :: 0 <= i < j < |ps| && ps[i].held && ps[j].held ==> ps[i].buf != ps[j].buf)
    && (forall i :: 0 <= i < |ps| && ps[i].held ==> Len(lens, ps[i].buf) == ps[i].pad + ps[i].len)
    && (forall b {:trigger Len(lens, b)} :: Len(lens, b) > 0 ==> exists i :: Holds(ps, i, b))
  }

  /** The live pieces are the last ones written, one after the other. */
  ghost predicate Placed(d: Dm)
  {
    && 1 <= d.size < TWO64 && d.size % 8 == 0
    && d.used <= d.size && d.used <= d.top
    && d.head == Wrap(d.top, d.size)
    && Tiled(d.live, Base(d), d.top, d.size)
    && Named(d.live, d.lens)
  }

  /** Every live piece is in use; what else is in use has leaked. */
  ghost predicate Inv(d: Dm)
  {
    Placed(d) && Leaked(d) >= 0
  }

  /**
   The same when the `k` oldest live pieces may be overwritten, because the device has sent them:
   what is in use covers the other pieces, and what buffers remember of these.
   */
  ghost predicate Safe(d: Dm, k: nat)
  {
    Placed(d) && k <= |d.live| && Slack(d, k) >= 0
  }

  /** Where the oldest live piece starts. */
  function Base(d: Dm): int
  {
    d.top - Sum(d.live)
  }

  /** In use although no live piece is there. */
  function Leaked(d: Dm): int
  {
    d.used - Sum(d.live)
  }

  /** Sizes of the live pieces that no buffer remembers. */
  function Orphans(ps: seq<Piece>): nat
  {
    if ps == [] then 0 else (if ps[0].held then 0 else ps[0].pad + ps[0].len) + Orphans(ps[1..])
  }

  function Slack(d: Dm, k: nat): int
    requires k <= |d.live|
  {
    Leaked(d) + Orphans(d.live[..k])
  }

  /** What has leaked, and what will once the pieces that nobody remembers are no longer live. */
  function Lost(d: Dm): int
  {
    Leaked(d) + Orphans(d.live)
  }

  lemma {:induction false} TiledSum(ps: seq<Piece>, start: int, end: nat, size: nat)
    requires size >= 1 && Tiled(ps, start, end, size)
    ensures end == start + Sum(ps) && end % 8 == 0 && (ps != [] ==> start < end)
  {
    if ps != [] {
      TiledSum(ps[1..], start + ps[0].pad + ps[0].len, end, size);
    }
  }

  lemma {:induction false} TiledMore(ps: seq<Piece>, p: Piece, start: int, size: nat)
    requires size >= 1 && Tiled(ps, start, p.from, size)
    requires p.pad % 8 == 0 && p.len % 8 == 0 && p.len > 0 && At(p, size) + p.len <= size
    ensures Tiled(ps + [p], start, p.from + p.pad + p.len, size)
  {
    hide At;
    if ps == [] {
      assert (ps + [p])[1..] == [];
    } else {
      TiledMore(ps[1..], p, start + ps[0].pad + ps[0].len, size);
      assert (ps + [p])[1..] == ps[1..] + [p];
    }
  }

  lemma {:induction false} TiledFewer(ps: seq<Piece>, n: nat, start: int, end: nat, size: nat)
    requires size >= 1 && Tiled(ps, start, end, size) && n <= |ps|
    ensures Tiled(ps[n..], start + Sum(ps[..n]), end, size)
  {
    if n == 0 {
      assert ps[0..] == ps;
    } else {
      TiledFewer(ps[1..], n - 1, start + ps[0].pad + ps[0].len, end, size);
      assert ps[..n][1..] == ps[1..][..n - 1] && ps[1..][n - 1..] == ps[n..];
    }
  }

  lemma {:induction false} TiledAt(ps: seq<Piece>, i: nat, start: int, end: nat, size: nat)
    requires size >= 1 && Tiled(ps, start, end, size) && i < |ps|
    ensures start <= ps[i].from && ps[i].from % 8 == 0 && ps[i].pad % 8 == 0 && ps[i].len % 8 == 0
    ensures ps[i].len > 0 && At(ps[i], size) + ps[i].len <= size
    ensures ps[i].from + ps[i].pad + ps[i].len <= end
    ensures i + 1 < |ps| ==> ps[i + 1].from == ps[i].from + ps[i].pad + ps[i].len
  {
    TiledSum(ps[1..], start + ps[0].pad + ps[0].len, end, size);
    if i > 0 {
      TiledAt(ps[1..], i - 1, start + ps[0].pad + ps[0].len, end, size);
    }
  }

  lemma {:induction false} TiledOrder(ps: seq<Piece>, i: nat, j: nat, start: int, end: nat, size: nat)
    requires size >= 1 && Tiled(ps, start, end, size) && i < j < |ps|
    ensures ps[i].from + ps[i].pad + ps[i].len <= ps[j].from
  {
    TiledAt(ps, j - 1, start, end, size);
    if i < j - 1 {
      TiledOrder(ps, i, j - 1, start, end, size);
    }
  }

  // ---------- what the pieces look like in memory ----------

  /** Stepping on without reaching the end of the memory. */
  lemma {:induction false} WrapStep(x: nat, k: nat, n: nat)
    requires n >= 1 && Wrap(x, n) + k < n
    ensures Wrap(x + k, n) == Wrap(x, n) + k
  {
    if x >= n { WrapStep(x - n, k, n); }
  }

  lemma {:induction false} WrapBack(x: nat, k: nat, n: nat)
    requires n >= 1 && k <= x && k <= n
    ensures Wrap(x - k, n) == if k <= Wrap(x, n) then Wrap(x, n) - k else Wrap(x, n) + n - k
  {
    if x >= n {
      if x - n >= k {
        WrapBack(x - n, k, n);
      } else {
        assert Wrap(x, n) == Wrap(x - n, n) == x - n;
      }
    }
  }

  /** The wrap of a multiple of eight in a memory of a multiple of eight is one too. */
  lemma {:induction false} WrapAligned(x: nat, n: nat)
    requires n >= 1 && n % 8 == 0 && x % 8 == 0
    ensures Wrap(x, n) % 8 == 0
  {
    if x >= n { WrapAligned(x - n, n); }
  }

  /** Every live piece is contiguous, 8-byte aligned and inside the memory. */
  lemma PieceInside(d: Dm, i: nat, k: nat)
    requires Placed(d) && i < |d.live| && k < d.live[i].len
    ensures var p := d.live[i];
            && At(p, d.size) % 8 == 0 && p.len % 8 == 0 && At(p, d.size) + p.len <= d.size
            && Wrap(p.from + p.pad + k, d.size) == At(p, d.size) + k
  {
    hide Tiled, Named, Wrap;
    var p := d.live[i];
    TiledAt(d.live, i, Base(d), d.top, d.size);
    WrapAligned(p.from + p.pad, d.size);
    WrapStep(p.from + p.pad, k, d.size);
  }

  /** Address `x` holds a byte of piece `i`. */
  predicate Covers(d: Dm, i: nat, x: nat)
    requires d.size >= 1 && i < |d.live|
  {
    At(d.live[i], d.size) <= x < At(d.live[i], d.size) + d.live[i].len
  }

  /** No two live pieces share a byte. */
  lemma PiecesDisjoint(d: Dm, i: nat, j: nat, x: nat)
    requires Inv(d) && i < j < |d.live|
    ensures !(Covers(d, i, x) && Covers(d, j, x))
  {
    hide Placed, Covers;
    assert d.live[..0] == [];
    UnsentDisjoint(d, 0, i, j, x);
  }

  /** No two live pieces that are still to be sent share a byte. */
  lemma UnsentDisjoint(d: Dm, k: nat, i: nat, j: nat, x: nat)
    requires Safe(d, k) && k <= i < j < |d.live|
    ensures d.size >= 1 && !(Covers(d, i, x) && Covers(d, j, x))
  {
    hide Tiled, Named, Wrap, Sum, Orphans;
    var p, q := d.live[i], d.live[j];
    if Covers(d, i, x) && Covers(d, j, x) {
      PieceInside(d, i, x - At(p, d.size));
      PieceInside(d, j, x - At(q, d.size));
      UnsentInUse(d, k);
      TiledOrder(d.live, i, j, Base(d), d.top, d.size);
      TiledAt(d.live, j, Base(d), d.top, d.size);
      TiledFewer(d.live, k, Base(d), d.top, d.size);
      TiledAt(d.live[k..], i - k, Base(d) + Sum(d.live[..k]), d.top, d.size);
      WrapDistinct(p.from + p.pad + (x - At(p, d.size)), q.from + q.pad + (x - At(q, d.size)), d.size);
    }
  }

  /** The pieces still to be sent are all in use. */
  lemma UnsentInUse(d: Dm, k: nat)
    requires k <= |d.live| && Slack(d, k) >= 0
    ensures Sum(d.live) == Sum(d.live[..k]) + Sum(d.live[k..]) && Sum(d.live[k..]) <= d.used
  {
    SumsSplit(d.live, k);
    OrphansBound(d.live[..k]);
  }

  lemma {:induction false} OrphansBound(ps: seq<Piece>)
    ensures Orphans(ps) <= Sum(ps)
  {
    if ps != [] { OrphansBound(ps[1..]); }
  }

  /**
   What the two numbers kept say: the oldest live byte is as far behind the write position as there
   are live bytes, which is the amount in use exactly when nothing has leaked.
   */
  lemma UsedAndTail(d: Dm)
    requires Inv(d) && d.live != []
    ensures Wrap(d.live[0].from, d.size) == (d.head - Sum(d.live)) % d.size
    ensures Wrap(d.live[0].from, d.size) == (d.head - d.used) % d.size <==> Leaked(d) == 0
  {
    hide Tiled, Named, Sum, Wrap;
    TiledSum(d.live, Base(d), d.top, d.size);
    TiledAt(d.live, 0, Base(d), d.top, d.size);
    TiledFirst(d.live, Base(d), d.top, d.size);
    Behind(d.top, Sum(d.live), d.size);
    Behind(d.top, d.used, d.size);
    WrapBack(d.top, Sum(d.live), d.size);
    WrapBack(d.top, d.used, d.size);
  }

  lemma TiledFirst(ps: seq<Piece>, start: int, end: nat, size: nat)
    requires size >= 1 && Tiled(ps, start, end, size) && ps != []
    ensures ps[0].from == start
  {
  }

  lemma Behind(top: nat, k: nat, size: nat)
    requires size >= 1 && k <= top && k <= size
    ensures Wrap(top - k, size) == (Wrap(top, size) - k) % size
  {
    hide Wrap;
    WrapBack(top, k, size);
    DivModUnique(Wrap(top, size) - k, size, if k <= Wrap(top, size) then 0 else -1, Wrap(top - k, size));
  }

  /** The allocator takes address `y` for in use: a byte of a live piece, its padding, or a leak. */
  ghost predicate Taken(d: Dm, y: nat)
    requires d.size >= 1 && d.used <= d.top
  {
    exists p {:trigger Wrap(p, d.size)} :: d.top - d.used <= p < d.top && Wrap(p, d.size) == y
  }

  /** Taken addresses in terms of the two numbers kept. */
  lemma TakenIs(d: Dm, y: nat)
    requires Inv(d) && y < d.size
    ensures Taken(d, y) <==>
            (if d.used <= d.head then d.head - d.used <= y < d.head
             else y < d.head || d.head + d.size - d.used <= y)
  {
    hide Tiled, Named;
    if p :| d.top - d.used <= p < d.top && Wrap(p, d.size) == y {
      WrapBack(d.top, d.top - p, d.size);
    }
    var k := if y < d.head then d.head - y else d.head + d.size - y;
    if k <= d.used {
      WrapBack(d.top, k, d.size);
      assert Wrap(d.top - k, d.size) == y;
    }
  }

  /** `n` bytes from `x` on are free. */
  ghost predicate Room(d: Dm, x: nat, n: nat)
    requires d.size >= 1 && d.used <= d.top
  {
    x + n <= d.size && forall y {:trigger Taken(d, y)} :: x <= y < x + n ==> !Taken(d, y)
  }

  /** While something is in use, a request is refused exactly when no free run can hold it. */
  lemma RefusalExact(d: Dm, n: nat)
    requires Inv(d) && d.used > 0 && n > 0
    ensures Fit(d.size, d.head, d.used, n) == None <==> forall x: nat :: !Room(d, x, n)
  {
    hide Tiled, Named, Taken;
    forall y | 0 <= y < d.size
      ensures Taken(d, y) <==>
              (if d.used <= d.head then d.head - d.used <= y < d.head
               else y < d.head || d.head + d.size - d.used <= y)
    {
      TakenIs(d, y);
    }
    var fit := Fit(d.size, d.head, d.used, n);
    if fit.Some? {
      assert Room(d, Start(d, fit.value), n);
    } else {
      forall x: nat | x + n <= d.size
        ensures !Room(d, x, n)
      {
        var tail := if d.used <= d.head then d.head - d.used else d.head + d.size - d.used;
        assert Taken(d, x) || Taken(d, tail);
      }
    }
  }

  /** With nothing in use the write position still splits the memory: a request can be refused though it fits. */
  lemma IdleRefusal(d: Dm, n: nat)
    requires Inv(d) && d.used == 0
    ensures Fit(d.size, d.head, d.used, n) == None && Room(d, 0, n) <==> d.head < n && d.size - d.head < n <= d.size
  {
  }

  // ---------- steps keep the invariant ----------

  lemma FitAligned(d: Dm, n: nat)
    requires Placed(d) && n % 8 == 0
    ensures var fit := Fit(d.size, d.head, d.used, n);
            fit.Some? ==>
              && fit.value % 8 == 0 && d.used + fit.value + n <= d.size
              && Wrap(d.top + fit.value, d.size) == Start(d, fit.value)
              && Start(d, fit.value) + n <= d.size
              && (n == 0 ==> fit.value == 0)
    ensures d.head < d.size
  {
    hide Named, Tiled, Fit, Wrap;
    TiledSum(d.live, Base(d), d.top, d.size);
    WrapAligned(d.top, d.size);
    FitIs(d.size, d.head, d.used, n);
    WrapToEnd(d.top, d.size);
    Multiple(d.size, d.head);
  }

  lemma Multiple(a: nat, b: nat)
    requires a % 8 == 0 && b % 8 == 0
    ensures (a - b) % 8 == 0
  {
  }

  /** A granted request skips nothing or the rest of the memory, and stays clear of the tail. */
  lemma FitIs(size: nat, head: nat, used: nat, n: nat)
    requires head < size
    ensures var fit := Fit(size, head, used, n);
            fit.Some? ==>
              && (fit.value == 0 || fit.value == size - head) && used + fit.value + n <= size
              && (if fit.value > 0 then n <= size else head + n <= size)
              && (n == 0 ==> fit.value == 0)
  {
  }

  /** Forgetting moves no piece. */
  lemma {:induction false} DisownTiled(ps: seq<Piece>, b: Buf, start: int, end: nat, size: nat)
    requires size >= 1 && Tiled(ps, start, end, size)
    ensures Tiled(Disown(ps, b), start, end, size)
  {
    if ps != [] {
      DisownTiled(ps[1..], b, start + ps[0].pad + ps[0].len, end, size);
      assert Disown(ps, b)[1..] == Disown(ps[1..], b);
    }
  }

  lemma {:induction false} DisownSums(ps: seq<Piece>, b: Buf)
    ensures Sum(Disown(ps, b)) == Sum(ps)
    ensures Orphans(Disown(ps, b)) == Orphans(ps) + Sizes(ps, {b})
  {
    if ps != [] {
      DisownSums(ps[1..], b);
      assert Disown(ps, b)[1..] == Disown(ps[1..], b);
    }
  }

  lemma DisownNamed(ps: seq<Piece>, lens: map<Buf, nat>, b: Buf)
    requires Named(ps, lens)
    ensures Named(Disown(ps, b), lens[b := 0])
  {
    var qs, less := Disown(ps, b), lens[b := 0];
    forall c | Len(less, c) > 0
      ensures exists i :: Holds(qs, i, c)
    {
      assert Len(lens, c) > 0;
      var i: nat :| Holds(ps, i, c);
      assert Holds(qs, i, c);
    }
  }

  /** A buffer that remembers nothing gets a piece of its own. */
  lemma NamedMore(ps: seq<Piece>, lens: map<Buf, nat>, p: Piece)
    requires Named(ps, lens) && p.held && forall i :: 0 <= i < |ps| && ps[i].held ==> ps[i].buf != p.buf
    ensures Named(ps + [p], lens[p.buf := p.pad + p.len])
  {
    var more, qs := lens[p.buf := p.pad + p.len], ps + [p];
    forall b | Len(more, b) > 0
      ensures exists i :: Holds(qs, i, b)
    {
      if b == p.buf {
        assert Holds(qs, |ps|, b);
      } else {
        assert Len(lens, b) > 0;
        var i: nat :| Holds(ps, i, b);
        assert Holds(qs, i, b);
      }
    }
  }

  lemma {:induction false} SumsMore(ps: seq<Piece>, p: Piece)
    ensures Sum(ps + [p]) == Sum(ps) + p.pad + p.len
    ensures Orphans(ps + [p]) == Orphans(ps) + (if p.held then 0 else p.pad + p.len)
  {
    if ps == [] {
      assert (ps + [p])[1..] == [];
    } else {
      SumsMore(ps[1..], p);
      assert (ps + [p])[1..] == ps[1..] + [p];
    }
  }

  /** The buffer forgets: what it remembered will leak. */
  lemma ForgetKeeps(d: Dm, k: nat, buf: Buf)
    requires Placed(d) && k <= |d.live|
    ensures var r := d.(lens := d.lens[buf := 0], live := Disown(d.live, buf));
            && Placed(r) && Lost(r) == Lost(d) + Len(d.lens, buf) && Leaked(r) == Leaked(d)
            && Slack(r, k) == Slack(d, k) + Sizes(d.live[..k], {buf})
  {
    hide Tiled, Named, Wrap;
    DisownTiled(d.live, buf, Base(d), d.top, d.size);
    DisownSums(d.live, buf);
    DisownSums(d.live[..k], buf);
    assert Disown(d.live, buf)[..k] == Disown(d.live[..k], buf);
    DisownNamed(d.live, d.lens, buf);
    SizesNamed(d.live, d.lens, buf);
  }

  /**
   Any copy keeps the pieces well placed.  What the buffer remembered before is lost, whether the
   copy is granted or refused.
   */
  lemma CopyKeeps(d: Dm, buf: Buf, length: nat)
    requires Inv(d) && length < TWO32
    ensures Inv(Copy(d, buf, length))
    ensures Lost(Copy(d, buf, length)) == Lost(d) + Len(d.lens, buf)
  {
    hide Placed, Lost, Copy;
    CopyPlaced(d, 0, buf, length);
  }

  /** No copy makes what is still to be sent unsafe. */
  lemma SafeCopy(d: Dm, k: nat, buf: Buf, length: nat)
    requires Safe(d, k) && length < TWO32
    ensures Safe(Copy(d, buf, length), k)
    ensures Lost(Copy(d, buf, length)) == Lost(d) + Len(d.lens, buf)
  {
    hide Placed, Lost, Copy;
    CopyPlaced(d, k, buf, length);
  }

  lemma CopyPlaced(d: Dm, k: nat, buf: Buf, length: nat)
    requires Placed(d) && length < TWO32 && k <= |d.live|
    ensures var r := Copy(d, buf, length);
            && Placed(r) && Lost(r) == Lost(d) + Len(d.lens, buf) && Leaked(r) == Leaked(d)
            && k <= |r.live| && Slack(r, k) >= Slack(d, k)
  {
    hide Placed, Lost, Leaked, Aligned, Fit, Wrap, Disown;
    ForgetKeeps(d, k, buf);
    var n, r := Aligned(length), d.(lens := d.lens[buf := 0], live := Disown(d.live, buf));
    var fit := Fit(d.size, d.head, d.used, n);
    if fit.Some? {
      AlignedCovers(length);
      assert Fit(r.size, r.head, r.used, n) == fit;
      WriteKeeps(r, k, buf, fit.value, n);
      assert d.lens[buf := 0][buf := fit.value + n] == d.lens[buf := fit.value + n];
    }
  }

  /** Write for a buffer that remembers nothing. */
  lemma WriteKeeps(d: Dm, k: nat, buf: Buf, pad: nat, n: nat)
    requires Placed(d) && k <= |d.live| && n % 8 == 0 && Fit(d.size, d.head, d.used, n) == Some(pad)
    requires Len(d.lens, buf) == 0 && forall i :: 0 <= i < |d.live| && d.live[i].held ==> d.live[i].buf != buf
    ensures var r := d.(head := (Start(d, pad) + n) % d.size, used := d.used + pad + n, lens := d.lens[buf := pad + n],
                        live := if n == 0 then d.live else d.live + [Piece(buf, d.top, pad, n, true)],
                        top := d.top + pad + n);
            Placed(r) && Lost(r) == Lost(d) && Leaked(r) == Leaked(d) && Slack(r, k) == Slack(d, k)
  {
    hide Tiled, Named, Wrap, Fit, Sum, Orphans;
    FitAligned(d, n);
    WrapAdd(d.top + pad, n, d.size);
    var p := Piece(buf, d.top, pad, n, true);
    SumsMore(d.live, p);
    if n == 0 {
      DisownNamed(d.live, d.lens, buf);
      assert Disown(d.live, buf) == d.live;
    } else {
      TiledMore(d.live, p, Base(d), d.size);
      NamedMore(d.live, d.lens, p);
      assert (d.live + [p])[..k] == d.live[..k];
    }
  }

  /**
   A copy that the device fails leaves the memory sound exactly when it would not have skipped the
   end of the memory; then only what the buffer remembered is lost.
   */
  lemma FailedCopyKeeps(d: Dm, buf: Buf, length: nat)
    requires Inv(d) && length < TWO32
    ensures var fit := Fit(d.size, d.head, d.used, Aligned(length));
            && (Inv(CopyFailed(d, buf, length)) <==> fit == None || fit == Some(0))
            && (Inv(CopyFailed(d, buf, length)) ==> Lost(CopyFailed(d, buf, length)) == Lost(d) + Len(d.lens, buf))
  {
    hide Tiled, Named, Lost, Aligned, Disown;
    ForgetKeeps(d, 0, buf);
    AlignedCovers(length);
    var n := Aligned(length);
    FitIs(d.size, d.head, d.used, n);
    var fit := Fit(d.size, d.head, d.used, n);
    if fit.Some? && fit.value > 0 {
      assert d.head > 0;
      assert CopyFailed(d, buf, length).head == 0;
    }
  }

  // ---------- returning buffers ----------

  /** What the distinct buffers of a list say they hold. */
  function Held(lens: map<Buf, nat>, bufs: seq<Buf>): nat
  {
    if bufs == [] then 0
    else
      var n := |bufs| - 1;
      Held(lens, bufs[..n]) + (if bufs[n] in bufs[..n] then 0 else Len(lens, bufs[n]))
  }

  lemma {:induction false} PutAllIs(d: Dm, bufs: seq<Buf>)
    requires Held(d.lens, bufs) <= d.used < TWO64
    ensures var r := PutAll(d, bufs);
            && r == d.(used := d.used - Held(d.lens, bufs), lens := r.lens)
            && forall b {:trigger Len(r.lens, b)} :: Len(r.lens, b) == if b in bufs then 0 else Len(d.lens, b)
  {
    if bufs != [] {
      var n := |bufs| - 1;
      PutAllIs(d, bufs[..n]);
      var r, b := PutAll(d, bufs[..n]), bufs[n];
      assert bufs == bufs[..n] + [b];
      var left := r.used - Len(r.lens, b);
      assert Len(r.lens, b) == if b in bufs[..n] then 0 else Len(d.lens, b);
      assert left % TWO64 == left;
      var q := PutAll(d, bufs);
      forall c
        ensures Len(q.lens, c) == if c in bufs then 0 else Len(d.lens, c)
      {
        assert Len(q.lens, c) == if c == b then 0 else Len(r.lens, c);
      }
    }
  }

  /** Sizes of the pieces that buffers in a set remember. */
  function Sizes(ps: seq<Piece>, bufs: set<Buf>): nat
  {
    if ps == [] then 0
    else (if ps[0].held && ps[0].buf in bufs then ps[0].pad + ps[0].len else 0) + Sizes(ps[1..], bufs)
  }

  lemma {:induction false} SizesMore(ps: seq<Piece>, bufs: set<Buf>, b: Buf)
    requires b !in bufs
    ensures Sizes(ps, bufs + {b}) == Sizes(ps, bufs) + Sizes(ps, {b})
  {
    if ps != [] { SizesMore(ps[1..], bufs, b); }
  }

  lemma {:induction false} SizesNone(ps: seq<Piece>, bufs: set<Buf>)
    requires forall i :: 0 <= i < |ps| && ps[i].held ==> ps[i].buf !in bufs
    ensures Sizes(ps, bufs) == 0
  {
    if ps != [] { SizesNone(ps[1..], bufs); }
  }

  lemma {:induction false} SizesPrefix(ps: seq<Piece>, bufs: set<Buf>, n: nat)
    requires n <= |ps|
    requires forall i :: 0 <= i < n ==> ps[i].buf in bufs
    requires forall i :: n <= i < |ps| ==> ps[i].buf !in bufs
    ensures Sizes(ps, bufs) == Sum(ps[..n]) - Orphans(ps[..n])
  {
    if n == 0 {
      SizesNone(ps, bufs);
    } else {
      SizesPrefix(ps[1..], bufs, n - 1);
      assert ps[..n][1..] == ps[1..][..n - 1];
    }
  }

  lemma {:induction false} SizesOne(ps: seq<Piece>, i: nat)
    requires i < |ps| && ps[i].held
    requires forall i, j :: 0 <= i < j < |ps| && ps[i].held && ps[j].held ==> ps[i].buf != ps[j].buf
    ensures Sizes(ps, {ps[i].buf}) == ps[i].pad + ps[i].len
  {
    if i == 0 {
      SizesNone(ps[1..], {ps[0].buf});
    } else {
      SizesOne(ps[1..], i - 1);
    }
  }

  lemma SizesNamed(ps: seq<Piece>, lens: map<Buf, nat>, b: Buf)
    requires Named(ps, lens)
    ensures Sizes(ps, {b}) == Len(lens, b)
  {
    if i: nat :| Holds(ps, i, b) {
      SizesOne(ps, i);
    } else {
      assert forall i :: 0 <= i < |ps| && ps[i].held ==> Holds(ps, i, ps[i].buf);
      SizesNone(ps, {b});
    }
  }

  lemma {:induction false} HeldNamed(ps: seq<Piece>, lens: map<Buf, nat>, bufs: seq<Buf>)
    requires Named(ps, lens)
    ensures Held(lens, bufs) == Sizes(ps, Elements(bufs))
  {
    if bufs == [] {
      SizesNone(ps, {});
      assert Elements(bufs) == {};
    } else {
      var n := |bufs| - 1;
      HeldNamed(ps, lens, bufs[..n]);
      var early, b := Elements(bufs[..n]), bufs[n];
      assert bufs == bufs[..n] + [b];
      assert Elements(bufs) == early + {b};
      if b in bufs[..n] {
        assert Elements(bufs) == early;
      } else {
        SizesMore(ps, early, b);
        SizesNamed(ps, lens, b);
      }
    }
  }

  lemma BatchHeld(d: Dm, bufs: seq<Buf>, n: nat)
    requires Placed(d) && Lost(d) >= 0 && Batch(d, bufs, n)
    ensures Held(d.lens, bufs) == Sum(d.live[..n]) - Orphans(d.live[..n]) <= d.used
    ensures Sum(d.live) == Sum(d.live[..n]) + Sum(d.live[n..])
    ensures Orphans(d.live) == Orphans(d.live[..n]) + Orphans(d.live[n..])
  {
    HeldNamed(d.live, d.lens, bufs);
    SizesPrefix(d.live, Elements(bufs), n);
    SumsSplit(d.live, n);
    OrphansBound(d.live[n..]);
  }

  lemma {:induction false} SumsSplit(ps: seq<Piece>, n: nat)
    requires n <= |ps|
    ensures Sum(ps) == Sum(ps[..n]) + Sum(ps[n..]) && Orphans(ps) == Orphans(ps[..n]) + Orphans(ps[n..])
  {
    if n == 0 {
      assert ps[0..] == ps;
    } else {
      SumsSplit(ps[1..], n - 1);
      assert ps[..n][1..] == ps[1..][..n - 1] && ps[1..][n - 1..] == ps[n..];
    }
  }

  lemma NamedFewer(d: Dm, bufs: seq<Buf>, n: nat, lens: map<Buf, nat>)
    requires Named(d.live, d.lens) && Batch(d, bufs, n)
    requires forall b {:trigger Len(lens, b)} :: Len(lens, b) == if b in bufs then 0 else Len(d.lens, b)
    ensures Named(d.live[n..], lens)
  {
    var left := d.live[n..];
    forall b | Len(lens, b) > 0
      ensures exists i :: Holds(left, i, b)
    {
      assert Len(d.lens, b) > 0;
      var i: nat :| Holds(d.live, i, b);
      assert d.live[i].buf !in bufs && i >= n;
      assert Holds(left, i - n, b);
    }
  }

  /** A whole batch of the oldest pieces comes back: what its buffers did not remember leaks. */
  lemma BatchKeeps(d: Dm, bufs: seq<Buf>, n: nat)
    requires Inv(d) && Batch(d, bufs, n)
    ensures var r := PutBatch(d, bufs, n);
            && Inv(r) && Lost(r) == Lost(d)
            && Leaked(r) == Leaked(d) + Orphans(d.live[..n])
  {
    hide Placed, PutBatch, Batch;
    BatchPlaced(d, bufs, n);
  }

  /** A batch of pieces that were sent. */
  lemma SafeBatch(d: Dm, k: nat, bufs: seq<Buf>, n: nat)
    requires Safe(d, k) && Batch(d, bufs, n) && n <= k
    ensures Safe(PutBatch(d, bufs, n), k - n) && Lost(PutBatch(d, bufs, n)) == Lost(d)
  {
    hide Placed, Batch, PutAll, Orphans, Leaked;
    LostCovers(d, k);
    BatchPlaced(d, bufs, n);
    SumsSplit(d.live[..k], n);
    assert d.live[..k][..n] == d.live[..n] && d.live[..k][n..] == d.live[n..][..k - n];
  }

  /** Sending more pieces makes nothing unsafe. */
  lemma SafeMore(d: Dm, k: nat, k': nat)
    requires Safe(d, k) && k <= k' <= |d.live|
    ensures Safe(d, k')
  {
    hide Placed, Orphans;
    SumsSplit(d.live[..k'], k);
    assert d.live[..k'][..k] == d.live[..k];
  }

  lemma LostCovers(d: Dm, k: nat)
    requires k <= |d.live|
    ensures Slack(d, k) <= Lost(d)
  {
    SumsSplit(d.live, k);
  }

  lemma BatchPlaced(d: Dm, bufs: seq<Buf>, n: nat)
    requires Placed(d) && Lost(d) >= 0 && Batch(d, bufs, n)
    ensures var r := PutBatch(d, bufs, n);
            && Placed(r) && Lost(r) == Lost(d)
            && Leaked(r) == Leaked(d) + Orphans(d.live[..n])
  {
    hide Named, Tiled, Held, Sum, Orphans;
    BatchHeld(d, bufs, n);
    PutAllIs(d, bufs);
    NamedFewer(d, bufs, n, PutAll(d, bufs).lens);
    TiledFewer(d.live, n, Base(d), d.top, d.size);
  }

  // ---------- a buffer that comes back early ----------

  /**
   The upper layer gives a buffer back before its completion is polled.  Its device memory is
   released; its pieces are still among those of the work requests in flight.
   */
  function GiveBack(d: Dm, buf: Buf): Dm
  {
    if Len(d.lens, buf) == 0 then d else Release(d, buf).(live := Disown(d.live, buf))
  }

  /**
   The release keeps what is still to be sent safe exactly when the slack covers what the buffer
   remembers of a piece that was not sent.
   */
  lemma GiveBackExact(d: Dm, k: nat, buf: Buf)
    requires Safe(d, k)
    ensures var r := GiveBack(d, buf);
            && (Safe(r, k) <==> Sizes(d.live[k..], {buf}) <= Slack(d, k))
            && Lost(r) == Lost(d) && Slack(r, k) == Slack(d, k) - Sizes(d.live[k..], {buf})
  {
    hide Placed, Sum, Orphans, Sizes, Disown;
    var n := Len(d.lens, buf);
    SizesSplit(d.live, {buf}, k);
    PlacedNames(d, buf);
    if n > 0 {
      LostCovers(d, k);
      OwnedBound(d, buf);
      ForgetKeeps(d, k, buf);
      DivModUnique(d.used - n, TWO64, 0, d.used - n);
      ReleasePlaced(d.(lens := d.lens[buf := 0], live := Disown(d.live, buf)), d.used - n);
      assert GiveBack(d, buf) ==
             d.(lens := d.lens[buf := 0], live := Disown(d.live, buf)).(used := d.used - n);
    }
  }

  lemma PlacedNames(d: Dm, buf: Buf)
    requires Placed(d)
    ensures Sizes(d.live, {buf}) == Len(d.lens, buf) && d.used < TWO64
  {
    SizesNamed(d.live, d.lens, buf);
  }

  lemma ReleasePlaced(d: Dm, used: nat)
    requires Placed(d) && used <= d.used
    ensures Placed(d.(used := used))
  {
  }

  /** A buffer never remembers more than is in use. */
  lemma OwnedBound(d: Dm, buf: Buf)
    requires Placed(d) && Lost(d) >= 0
    ensures Len(d.lens, buf) <= d.used
  {
    SizesNamed(d.live, d.lens, buf);
    OwnedSizes(d.live, {buf});
  }

  lemma {:induction false} OwnedSizes(ps: seq<Piece>, bufs: set<Buf>)
    ensures Sizes(ps, bufs) + Orphans(ps) <= Sum(ps)
  {
    if ps != [] { OwnedSizes(ps[1..], bufs); }
  }

  lemma {:induction false} SizesSplit(ps: seq<Piece>, bufs: set<Buf>, n: nat)
    requires n <= |ps|
    ensures Sizes(ps, bufs) == Sizes(ps[..n], bufs) + Sizes(ps[n..], bufs)
  {
    if n == 0 {
      assert ps[0..] == ps;
    } else {
      SizesSplit(ps[1..], bufs, n - 1);
      assert ps[..n][1..] == ps[1..][..n - 1] && ps[1..][n - 1..] == ps[n..];
    }
  }

  /** The pieces of other buffers. */
  function Without(ps: seq<Piece>, buf: Buf): seq<Piece>
  {
    if ps == [] then [] else (if ps[0].buf == buf then [] else [ps[0]]) + Without(ps[1..], buf)
  }

  /** A release after which the pieces of the buffer are no longer live. */
  function Drop(d: Dm, buf: Buf): Dm
  {
    if Len(d.lens, buf) == 0 then d else Release(d, buf).(live := Without(d.live, buf))
  }

  /** No piece of another buffer is older than one of this buffer. */
  ghost predicate Foremost(ps: seq<Piece>, buf: Buf)
  {
    forall i, j :: 0 <= i < j < |ps| && ps[j].buf == buf ==> ps[i].buf == buf
  }

  /** A single release keeps every live piece in use exactly when the buffer holds nothing or its pieces are the oldest. */
  lemma DropExact(d: Dm, buf: Buf)
    requires Inv(d)
    ensures Inv(Drop(d, buf)) <==> Len(d.lens, buf) == 0 || Foremost(d.live, buf)
  {
    hide Tiled, Named, Without, Sum;
    if Len(d.lens, buf) > 0 {
      if Foremost(d.live, buf) {
        var n := WithoutForemost(d.live, buf);
        BatchKeeps(d, [buf], n);
        PutOne(d, buf);
      } else if Inv(Drop(d, buf)) {
        WithoutTiled(d.live, buf, Base(d), d.top, d.size);
      }
    }
  }

  lemma PutOne(d: Dm, buf: Buf)
    ensures PutAll(d, [buf]) == Put(d, buf)
  {
    assert [buf][..0] == [];
  }

  lemma {:induction false} WithoutForemost(ps: seq<Piece>, buf: Buf) returns (n: nat)
    requires Foremost(ps, buf)
    ensures n <= |ps| && Without(ps, buf) == ps[n..]
    ensures (forall i :: 0 <= i < n ==> ps[i].buf == buf) && (forall i :: n <= i < |ps| ==> ps[i].buf != buf)
  {
    if ps == [] || ps[0].buf != buf {
      WithoutNone(ps, buf);
      n := 0;
      assert ps[0..] == ps;
    } else {
      n := WithoutForemost(ps[1..], buf);
      n := n + 1;
      assert forall i :: 1 <= i < |ps| ==> ps[i] == ps[1..][i - 1];
      assert ps[1..][n - 1..] == ps[n..];
    }
  }

  lemma {:induction false} WithoutNone(ps: seq<Piece>, buf: Buf)
    requires forall i :: 0 <= i < |ps| ==> ps[i].buf != buf
    ensures Without(ps, buf) == ps
  {
    if ps != [] { WithoutNone(ps[1..], buf); }
  }

  /** Pieces that still follow each other up to the end lost none in between. */
  lemma {:induction false} WithoutTiled(ps: seq<Piece>, buf: Buf, start: int, end: nat, size: nat)
    requires size >= 1 && Tiled(ps, start, end, size)
    requires Tiled(Without(ps, buf), end - Sum(Without(ps, buf)), end, size)
    ensures Foremost(ps, buf)
  {
    if ps != [] {
      var rest, next := Without(ps[1..], buf), start + ps[0].pad + ps[0].len;
      TiledSum(ps, start, end, size);
      if ps[0].buf == buf {
        assert Without(ps, buf) == rest;
        WithoutTiled(ps[1..], buf, next, end, size);
        assert forall i :: 1 <= i < |ps| ==> ps[i] == ps[1..][i - 1];
      } else {
        assert Without(ps, buf) == [ps[0]] + rest && ([ps[0]] + rest)[1..] == rest;
        WithoutSum(ps[1..], buf, next, end, size);
        assert forall i :: 1 <= i < |ps| ==> ps[i] == ps[1..][i - 1];
      }
    }
  }

  lemma {:induction false} WithoutSum(ps: seq<Piece>, buf: Buf, start: int, end: nat, size: nat)
    requires size >= 1 && Tiled(ps, start, end, size)
    ensures Sum(Without(ps, buf)) <= Sum(ps)
    ensures Sum(Without(ps, buf)) == Sum(ps) ==> forall i :: 0 <= i < |ps| ==> ps[i].buf != buf
  {
    if ps != [] {
      var rest := Without(ps[1..], buf);
      WithoutSum(ps[1..], buf, start + ps[0].pad + ps[0].len, end, size);
      assert ps[0].buf != buf ==> Without(ps, buf) == [ps[0]] + rest && ([ps[0]] + rest)[1..] == rest;
      assert ps[0].buf == buf ==> Without(ps, buf) == rest;
      assert forall i :: 1 <= i < |ps| ==> ps[i] == ps[1..][i - 1];
    }
  }

  // ---------- every run ----------

  datatype Step = Write(buf: Buf, length: nat) | Return(bufs: seq<Buf>, n: nat)

  ghost predicate Possible(d: Dm, s: Step)
  {
    match s
    case Write(_, length) => length < TWO32
    case Return(bufs, n) => Batch(d, bufs, n)
  }

  ghost function Next(d: Dm, s: Step): Dm
    requires Possible(d, s)
  {
    match s
    case Write(buf, length) => Copy(d, buf, length)
    case Return(bufs, n) => PutBatch(d, bufs, n)
  }

  ghost predicate Feasible(d: Dm, steps: seq<Step>)
    decreases |steps|
  {
    steps == [] || (Possible(d, steps[0]) && Feasible(Next(d, steps[0]), steps[1..]))
  }

  ghost function Run(d: Dm, steps: seq<Step>): Dm
    requires Feasible(d, steps)
    decreases |steps|
  {
    if steps == [] then d else Run(Next(d, steps[0]), steps[1..])
  }

  /** What the writes of a run make buffers forget. */
  ghost function Forgotten(d: Dm, steps: seq<Step>): nat
    requires Feasible(d, steps)
    decreases |steps|
  {
    if steps == [] then 0
    else
      (if steps[0].Write? then Len(d.lens, steps[0].buf) else 0) + Forgotten(Next(d, steps[0]), steps[1..])
  }

  /** No write finds its buffer with a piece to remember. */
  ghost predicate Tidy(d: Dm, steps: seq<Step>)
    requires Feasible(d, steps)
    decreases |steps|
  {
    steps == [] ||
    ((steps[0].Write? ==> Len(d.lens, steps[0].buf) == 0) && Tidy(Next(d, steps[0]), steps[1..]))
  }

  /**
   Over every run of writes, to any buffers, and oldest-first returns the pieces stay well placed, so
   all of the lemmas about them hold in every state that can be reached.  The memory lost is what
   writes made buffers forget, and none is lost exactly when every write found its buffer empty.
   */
  lemma {:induction false} RunKeeps(d: Dm, steps: seq<Step>)
    requires Inv(d) && Feasible(d, steps)
    ensures Inv(Run(d, steps)) && Lost(Run(d, steps)) == Lost(d) + Forgotten(d, steps)
    ensures Lost(Run(d, steps)) == Lost(d) <==> Tidy(d, steps)
    decreases |steps|
  {
    hide Inv, Copy, PutBatch, Batch, Lost;
    if steps != [] {
      match steps[0] {
        case Write(buf, length) => CopyKeeps(d, buf, length);
        case Return(bufs, n) => BatchKeeps(d, bufs, n);
      }
      RunKeeps(Next(d, steps[0]), steps[1..]);
    }
  }

  // ---------- a buffer written twice ----------

  lemma {:induction false} HeldUpdate(lens: map<Buf, nat>, bufs: seq<Buf>, b: Buf, v: nat)
    ensures Held(lens[b := v], bufs) == Held(lens, bufs) + (if b in bufs then v - Len(lens, b) else 0)
  {
    if bufs != [] {
      var n := |bufs| - 1;
      HeldUpdate(lens, bufs[..n], b, v);
      assert bufs == bufs[..n] + [bufs[n]];
    }
  }

  /**
   After a write to any buffer, and the return of every buffer there is, the amount in use is what
   was lost before and what that buffer held: zero exactly when nothing was lost and it held
   nothing.  A packet of several pieces of data writes to its one buffer once for each.
   */
  lemma LeakExact(d: Dm, buf: Buf, length: nat, bufs: seq<Buf>)
    requires Inv(d) && length < TWO32
    requires buf in bufs && forall i :: 0 <= i < |d.live| ==> d.live[i].buf in bufs
    ensures PutAll(Copy(d, buf, length), bufs).used == Lost(d) + Len(d.lens, buf)
  {
    hide Placed, Copy, PutAll, Lost, Held;
    CopyKeeps(d, buf, length);
    var w := Copy(d, buf, length);
    LostIs(w);
    CopyShape(d, buf, length);
    assert Batch(w, bufs, |w.live|);
    BatchHeld(w, bufs, |w.live|);
    assert w.live[..|w.live|] == w.live;
    PutAllIs(w, bufs);
  }

  lemma LostIs(d: Dm)
    requires Inv(d)
    ensures Lost(d) == d.used - Sum(d.live) + Orphans(d.live) >= 0 && d.used < TWO64
  {
  }

  /** A copy adds at most one piece, for its buffer, and moves none. */
  lemma CopyShape(d: Dm, buf: Buf, length: nat)
    ensures var r := Copy(d, buf, length);
            && |d.live| <= |r.live| <= |d.live| + 1
            && (forall i :: 0 <= i < |d.live| ==> r.live[i].buf == d.live[i].buf)
            && (|r.live| == |d.live| + 1 ==> r.live[|d.live|].buf == buf)
  {
  }

  /** Two pieces of 24 bytes in a memory of 64. */
  function TwoPieces(): Dm
  {
    Dm(64, 48, 48, map[1 := 24, 2 := 24], [Piece(1, 0, 0, 24, true), Piece(2, 24, 0, 24, true)], 48)
  }

  lemma TwoPiecesInv()
    ensures Inv(TwoPieces())
  {
    var ps := TwoPieces().live;
    assert ps[1..] == [ps[1]] && ps[1..][1..] == [];
    assert Holds(ps, 0, 1) && Holds(ps, 1, 2);
  }

  /** Returning a newer piece before an older one lets a later write land on data still live. */
  lemma OutOfOrderOverlaps()
    ensures var r := Copy(Copy(Put(TwoPieces(), 2), 3, 16), 4, 24);
            && Inv(TwoPieces()) && |r.live| == 4
            && r.live[0].buf == 1 && r.live[3].buf == 4 && At(r.live[0], 64) == At(r.live[3], 64)
  {
    hide Inv;
    TwoPiecesInv();
    var d := TwoPieces();
    assert Aligned(16) == 16 && Aligned(24) == 24;
    var d1 := Put(d, 2);
    assert d1 == d.(used := 24, lens := d1.lens);
    assert Fit(64, 48, 24, 16) == Some(0);
    var d2 := Copy(d1, 3, 16);
    assert d2 == Dm(64, 0, 40, d2.lens, d.live + [Piece(3, 48, 0, 16, true)], 64);
    assert Fit(64, 0, 40, 24) == Some(0);
    assert At(Piece(4, 64, 0, 24, true), 64) == 0;
  }

  /** Writing a second piece for buffer 1 makes it forget its 24 bytes, and they never come back. */
  lemma RewriteLeaks()
    ensures Inv(TwoPieces()) && Lost(TwoPieces()) == 0
    ensures PutAll(Copy(TwoPieces(), 1, 8), [1, 2]).used == 24
  {
    hide Inv, Copy, PutAll;
    TwoPiecesInv();
    var ps := TwoPieces().live;
    var last := ps[1..];
    assert last == [ps[1]] && last[1..] == [];
    assert Sum(last[1..]) == 0 && Orphans(last[1..]) == 0;
    LeakExact(TwoPieces(), 1, 8, [1, 2]);
  }

  /** An idle memory of 64 bytes, written up to the middle. */
  function HalfWritten(): Dm
  {
    Dm(64, 32, 0, map[], [], 32)
  }

  /** It refuses 40 bytes, though nothing is in use. */
  lemma HalfWrittenRefuses()
    ensures var d := HalfWritten();
            Inv(d) && d.used == 0 && 40 <= d.size && Fit(d.size, d.head, d.used, 40) == None
  {
    hide Inv, Fit;
    IdleAt(64, 32, 40);
  }

  lemma IdleAt(size: nat, at: nat, n: nat)
    requires 1 <= size < TWO64 && size % 8 == 0 && at < size && at % 8 == 0
    ensures Inv(Dm(size, at, 0, map[], [], at))
    ensures at < n && size - at < n ==> Fit(size, at, 0, n) == None
  {
  }

  /** An idle memory of 64 bytes, and one with the piece of buffer 2 in it, both written up to byte 48. */
  function NearTheEnd(busy: bool): Dm
  {
    if busy then Dm(64, 48, 24, map[2 := 24], [Piece(2, 24, 0, 24, true)], 48) else Dm(64, 48, 0, map[], [], 48)
  }

  lemma NearTheEndInv(busy: bool)
    ensures Inv(NearTheEnd(busy)) && Fit(64, 48, NearTheEnd(busy).used, 24) == Some(16)
  {
    if busy {
      var ps := NearTheEnd(true).live;
      assert ps[1..] == [];
      assert Holds(ps, 0, 2);
    }
  }

  /**
   A failed copy of 24 bytes there gives buffer 3 the 16 bytes that were skipped, which were never
   taken.  Returning it makes the amount in use wrap when nothing else is; otherwise a copy of 48
   bytes is granted at address 0, over the live piece at address 24.
   */
  lemma FailedCopyBreaks(busy: bool)
    ensures var d := Put(CopyFailed(NearTheEnd(busy), 3, 24), 3);
            if busy then
              && d.head == 0 && d.used == 8 && Fit(d.size, d.head, d.used, 48) == Some(0)
              && d.live == NearTheEnd(true).live && At(d.live[0], d.size) == 24
            else d.used == TWO64 - 16
  {
    hide Inv, Disown;
    NearTheEndInv(busy);
    var d := NearTheEnd(busy);
    assert Aligned(24) == 24;
    var e := CopyFailed(d, 3, 24);
    assert e == d.(head := 0, lens := d.lens[3 := 16], live := Disown(d.live, 3));
    assert Len(e.lens, 3) == 16;
    if busy {
      DivModUnique(8, TWO64, 0, 8);
      assert e.live == d.live;
    } else {
      DivModUnique(-16, TWO64, -1, TWO64 - 16);
    }
  }

  lemma Fresh(lines: nat)
    requires 1 <= lines * 64 < TWO64
    ensures Inv(Dm(lines * 64, 0, 0, map[], [], 0)) && lines * 64 % 64 == 0
  {
    var size := lines * 64;
    DivModUnique(size, 64, lines, 0);
    DivModUnique(size, 8, lines * 8, 0);
    Empty(size);
  }

  lemma Empty(size: nat)
    requires 1 <= size < TWO64 && size % 8 == 0
    ensures Inv(Dm(size, 0, 0, map[], [], 0))
  {
  }

  class DmMgr {
    const allocation: nat
    var used: nat
    var head: nat
    var lens: map<Buf, nat>       // a field of each buffer
    ghost var live: seq<Piece>
    ghost var top: nat

    ghost function State(): Dm
      reads this
    {
      Dm(allocation, head, used, lens, live, top)
    }

    constructor (requested: nat)
      requires 1 <= requested <= TWO64 - 64
      ensures Inv(State()) && live == [] && requested <= allocation < requested + 64 && allocation % 64 == 0
    {
      Fresh((requested + 63) / 64);
      allocation := (requested + 63) / 64 * 64;
      used, head, lens, live, top := 0, 0, map[], [], 0;
      new;
      hide Inv;
    }

    /** Store a piece of a packet if it fits and the device copies it; the result is its address. */
    method CopyData(length: nat, buf: Buf, copies: bool) returns (addr: Option<nat>)
      requires Inv(State()) && length < TWO32
      modifies this
      ensures State() == if copies then Copy(old(State()), buf, length) else CopyFailed(old(State()), buf, length)
      ensures addr.Some? <==> copies && Fit(allocation, old(head), old(used), Aligned(length)).Some?
      ensures addr.Some? && Aligned(length) > 0 ==>
                && |live| == |old(live)| + 1 && live[|live| - 1].buf == buf && addr.value == At(live[|live| - 1], allocation)
    {
      hide Placed, Aligned, Wrap, Disown, Fit;
      var n := Aligned(length);
      AlignedCovers(length);
      FitAligned(State(), n);
      live := Disown(live, buf);
      var pad := Seek(n, buf);
      if pad.None? || !copies {
        return None;
      }
      addr := Some(head);
      head := (head + n) % allocation;
      lens := lens[buf := lens[buf] + n];
      used := used + lens[buf];
      live := if n == 0 then live else live + [Piece(buf, top, pad.value, n, true)];
      top := top + pad.value + n;
    }

    /** Look for `n` contiguous bytes, at the write position or at the beginning of the memory. */
    method Seek(n: nat, buf: Buf) returns (pad: Option<nat>)
      requires head < allocation
      modifies this`head, this`lens
      ensures pad == Fit(allocation, old(head), used, n)
      ensures head == if pad.Some? && pad.value > 0 then 0 else old(head)
      ensures lens == old(lens)[buf := if pad.Some? then pad.value else 0]
    {
      lens := lens[buf := 0];
      if used >= allocation {
        return None;
      }
      if head >= used {
        var left := allocation - head;
        if left < n {
          if head - used >= n {
            head := 0;
            lens := lens[buf := left];
            return Some(left);
          }
          return None;
        }
      } else if allocation - used < n {
        return None;
      }
      return Some(0);
    }

    method ReleaseData(buf: Buf)
      modifies this`used, this`lens
      ensures State() == Release(old(State()), buf)
    {
      used := (used - Len(lens, buf)) % TWO64;
      lens := lens[buf := 0];
    }

    /** The device memory part of giving a sent buffer back. */
    method PutTxBuffer(buf: Buf)
      modifies this`used, this`lens
      ensures State() == Put(old(State()), buf)
    {
      if Len(lens, buf) != 0 {
        ReleaseData(buf);
      }
    }

    /** The upper layer gives a buffer back before its completion is polled. */
    method ReturnEarly(buf: Buf)
      modifies this`used, this`lens, this`live
      ensures State() == GiveBack(old(State()), buf)
    {
      hide Disown;
      if Len(lens, buf) != 0 {
        live := Disown(live, buf);
      }
      PutTxBuffer(buf);
    }

    /** A completed batch of buffers, oldest work requests of the send queue, in any order. */
    method PutBuffers(bufs: seq<Buf>, ghost n: nat)
      requires Inv(State()) && Batch(State(), bufs, n)
      modifies this
      ensures Inv(State()) && State() == PutBatch(old(State()), bufs, n)
    {
      hide Inv, Release;
      BatchKeeps(State(), bufs, n);
      for i := 0 to |bufs|
        modifies this`used, this`lens
        invariant State() == PutAll(old(State()), bufs[..i])
      {
        PutTxBuffer(bufs[i]);
        assert bufs[..i + 1][..i] == bufs[..i];
      }
      assert bufs[..|bufs|] == bufs;
      live := live[n..];
    }

    /** Any sequence of steps takes the memory through the run of the specification. */
    method RunSteps(steps: seq<Step>)
      requires Inv(State()) && Feasible(State(), steps)
      modifies this
      ensures Inv(State()) && State() == Run(old(State()), steps)
      ensures Lost(State()) == Lost(old(State())) <==> Tidy(old(State()), steps)
    {
      hide Inv, Copy, PutBatch, Batch, Lost, Tidy;
      RunKeeps(State(), steps);
      ghost var d := State();
      for i := 0 to |steps|
        invariant Inv(State()) && Feasible(State(), steps[i..]) && Run(d, steps) == Run(State(), steps[i..])
      {
        assert steps[i..][0] == steps[i] && steps[i..][1..] == steps[i + 1..];
        match steps[i] {
          case Write(buf, length) =>
            CopyKeeps(State(), buf, length);
            var _ := CopyData(length, buf, true);
          case Return(bufs, n) =>
            PutBuffers(bufs, n);
        }
      }
    }
  }
}
