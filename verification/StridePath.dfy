/**
 The striding receive queue.  One ring entry is a buffer of `strides` equal
 pieces; every completion consumes some of them in order and hands out a
 stride descriptor for them, or only skips them (a filler).  The buffer goes
 back to a pool when its reference count, in strides, has run out.
 */
module StridePath {
  import opened Buffers
  import opened ReceivePath
  import opened Sums

  datatype Geometry = Geometry(strides: nat, level: nat)

  /** A descriptor that stands for `k` strides of `rwqe`, from number `off` on. */
  datatype Stride = Stride(desc: Buf, rwqe: Buf, off: nat, k: nat)

  /** A completion of `k` strides. */
  datatype Cut = Cut(k: nat, filler: bool)

  datatype Strq = Strq(
    rx: Rx,                   // the buffers; `upper` are those off the ring with strides outstanding
    refs: map<Buf, int>,      // reference counts of the buffers, in strides
    done: nat,                // strides consumed of the oldest ring entry
    cuts: seq<Cut>,           // completions not polled yet
    out: seq<Stride>,         // handed out and not returned
    cache: seq<Buf>,          // free stride descriptors of this queue
    spare: seq<Buf>,          // free stride descriptors of the global pool
    hotStride: Buf,           // descriptor reserved for the next completion, or null
    descs: set<Buf>)          // every stride descriptor in existence

  // ---------- tiling ----------

  /** Consume `k` strides: where they start, and whether the entry is complete. */
  function Consume(strides: nat, done: nat, k: nat): (nat, bool)
  {
    if done + k >= strides then (0, true) else (done + k, false)
  }

  /** Where the strides of successive completions start, and which completion ends the entry. */
  function Marks(strides: nat, done: nat, ks: seq<nat>): seq<(nat, bool)>
    decreases |ks|
  {
    if ks == [] then []
    else
      var (next, complete) := Consume(strides, done, ks[0]);
      [(done, complete)] + Marks(strides, next, ks[1..])
  }

  /**
   Completions that together consume an entry tile it: the first starts at its beginning, each
   starts where the one before ended, and the entry completes at the last and no earlier.
   */
  lemma {:induction false} CompletionsTile(strides: nat, done: nat, ks: seq<nat>)
    requires forall i :: 0 <= i < |ks| ==> ks[i] >= 1
    requires ks != [] && done + Sum(ks) == strides
    ensures var m := Marks(strides, done, ks);
            && |m| == |ks| && m[0].0 == done
            && (forall i :: 0 <= i < |ks| - 1 ==> m[i + 1].0 == m[i].0 + ks[i])
            && m[|ks| - 1].0 + ks[|ks| - 1] == strides
            && (forall i :: 0 <= i < |ks| ==> (m[i].1 <==> i == |ks| - 1))
    decreases |ks|
  {
    var m := Marks(strides, done, ks);
    if |ks| == 1 {
      assert Sum(ks[1..]) == 0;
    } else {
      SumPositive(ks[1..]);
      CompletionsTile(strides, done + ks[0], ks[1..]);
      assert m[1..] == Marks(strides, done + ks[0], ks[1..]);
      forall i | 0 <= i < |ks| - 1
        ensures m[i + 1].0 == m[i].0 + ks[i]
      {
        if i > 0 { assert m[1..][i].0 == m[1..][i - 1].0 + ks[1..][i - 1]; }
      }
      forall i | 0 <= i < |ks|
        ensures m[i].1 <==> i == |ks| - 1
      {
        if i > 0 { assert m[i] == m[1..][i - 1]; }
      }
      assert m[|ks| - 1] == m[1..][|ks| - 2] && ks[|ks| - 1] == ks[1..][|ks| - 2];
    }
  }

  lemma SumPositive(ks: seq<nat>)
    requires ks != [] && ks[0] >= 1
    ensures Sum(ks) >= 1
  {
  }

  // ---------- the completion stream ----------

  /**
   The hardware's side: every waiting completion consumes at least one stride, none reaches over
   the end of a ring entry, and together they fit in `n` entries, the first of which is already
   consumed up to `done`.
   */
  predicate Fits(strides: nat, done: nat, cuts: seq<Cut>, n: nat)
    decreases |cuts|
  {
    cuts == [] ||
    (n >= 1 && cuts[0].k >= 1 && done + cuts[0].k <= strides &&
     (if done + cuts[0].k == strides then Fits(strides, 0, cuts[1..], n - 1)
      else Fits(strides, done + cuts[0].k, cuts[1..], n)))
  }

  lemma {:induction false} FitsMore(strides: nat, done: nat, cuts: seq<Cut>, n: nat, m: nat)
    requires Fits(strides, done, cuts, n) && n <= m
    ensures Fits(strides, done, cuts, m)
    decreases |cuts|
  {
    if cuts != [] {
      if done + cuts[0].k == strides { FitsMore(strides, 0, cuts[1..], n - 1, m - 1); }
      else { FitsMore(strides, done + cuts[0].k, cuts[1..], n, m); }
    }
  }

  /** A completion queue with `strides` entries per ring entry never overruns. */
  lemma {:induction false} CompletionsBounded(strides: nat, done: nat, cuts: seq<Cut>, n: nat)
    requires Fits(strides, done, cuts, n) && done < strides
    ensures cuts != [] ==> |cuts| + done <= strides * n
    decreases |cuts|
  {
    if cuts != [] {
      if done + cuts[0].k == strides {
        CompletionsBounded(strides, 0, cuts[1..], n - 1);
        assert strides * n == strides * (n - 1) + strides;
        assert strides * (n - 1) >= 0;
      } else {
        CompletionsBounded(strides, done + cuts[0].k, cuts[1..], n);
        assert strides * n == strides * (n - 1) + strides;
        assert strides * (n - 1) >= 0;
      }
    }
  }

  // ---------- steps ----------

  function RefOf(refs: map<Buf, int>, w: Buf): int
  {
    if w in refs then refs[w] else 0
  }

  /** Read the oldest ring entry and give its buffer one reference per stride. */
  function SetHot(g: Geometry, s: Strq): Strq
  {
    if s.rx.hot || s.rx.posted == [] then s
    else s.(rx := s.rx.(hot := true), refs := s.refs[s.rx.posted[0] := g.strides])
  }

  /** Fill an empty cache with a batch from the global pool. */
  function Restock(g: Geometry, s: Strq, extra: seq<Buf>): (r: Strq)
    ensures r == s.(cache := r.cache, spare := r.spare, descs := r.descs)
  {
    var s1 := if |s.spare| < g.level && Admissible(extra, s.descs)
              then s.(spare := extra + s.spare, descs := s.descs + Elements(extra)) else s;
    var got := Take(s1.spare, g.level);
    if got.Refused? then s1 else s1.(cache := s1.cache + got.taken, spare := got.free)
  }

  function PopCache(s: Strq): (r: Strq)
    ensures r == s.(cache := r.cache, hotStride := r.hotStride)
  {
    if s.cache == [] then s
    else s.(hotStride := s.cache[|s.cache| - 1], cache := s.cache[..|s.cache| - 1])
  }

  /** Reserve a stride descriptor for the next completion. */
  function Reserve(g: Geometry, s: Strq, extra: seq<Buf>): (r: Strq)
    ensures r == s.(cache := r.cache, spare := r.spare, descs := r.descs, hotStride := r.hotStride)
  {
    if s.hotStride != 0 then s
    else if s.cache == [] then PopCache(Restock(g, s, extra))
    else PopCache(s)
  }

  /** The descriptor goes back to the cache, and the surplus of the cache to the global pool. */
  function GiveBack(g: Geometry, s: Strq, d: Buf): Strq
  {
    var cache := s.cache + [d];
    if |cache| >= g.level * 2 then
      s.(cache := cache[..g.level], spare := cache[g.level..] + s.spare)
    else s.(cache := cache)
  }

  /** How a queue starts: one descriptor is reserved and given back, which fills the cache. */
  function FillCache(g: Geometry, s: Strq, extra: seq<Buf>): Strq
  {
    var r := Reserve(g, s, extra);
    if r.hotStride == 0 then r else GiveBack(g, r.(hotStride := 0), r.hotStride)
  }

  /** The buffer's last stride came back: through this queue, or through the global pool. */
  function RecycleRwqe(s: Strq, w: Buf, viaQueue: bool): Strq
  {
    s.(refs := s.refs[w := 0], rx := Reclaim(s.rx, [w], viaQueue))
  }

  /** Take the i-th outstanding stride off its buffer's count. */
  function Drop(s: Strq, i: nat, viaQueue: bool): Strq
    requires i < |s.out|
  {
    var st := s.out[i];
    var before := RefOf(s.refs, st.rwqe);
    var s1 := s.(out := s.out[..i] + s.out[i + 1..], refs := s.refs[st.rwqe := before - st.k]);
    if st.k == before then RecycleRwqe(s1, st.rwqe, viaQueue) else s1
  }

  function PutDesc(g: Geometry, s: Strq, d: Buf, viaQueue: bool): Strq
  {
    if viaQueue then GiveBack(g, s, d) else s.(spare := [d] + s.spare)
  }

  /** Return the i-th outstanding stride. */
  function Return(g: Geometry, s: Strq, i: nat, viaQueue: bool): Strq
    requires i < |s.out|
  {
    PutDesc(g, Drop(s, i, viaQueue), s.out[i].desc, viaQueue)
  }

  /** The buffer of a complete entry leaves the ring; its strides keep it alive. */
  function Retire(rx: Rx): Rx
    requires rx.posted != []
  {
    rx.(posted := rx.posted[1..], hot := false, upper := rx.upper + multiset{rx.posted[0]})
  }

  /** What one poll completed: a ring entry, a stride to hand out, both or neither. */
  datatype Polled = Polled(wqe: bool, stride: bool)

  /** Consume one completion and hand out a stride for it. */
  function HandOut(g: Geometry, s: Strq): (r: Strq)
    requires s.rx.posted != [] && s.cuts != []
    ensures |r.out| == |s.out| + 1
  {
    var cut := s.cuts[0];
    var (next, complete) := Consume(g.strides, s.done, cut.k);
    s.(done := next, cuts := s.cuts[1..], hotStride := 0,
       out := s.out + [Stride(s.hotStride, s.rx.posted[0], s.done, cut.k)],
       rx := if complete then Retire(s.rx) else s.rx)
  }

  /** The stride of a filler comes back at once. */
  function Apply(g: Geometry, s: Strq): (Polled, Strq)
    requires s.rx.posted != [] && s.cuts != []
  {
    var cut, s1 := s.cuts[0], HandOut(g, s);
    (Polled(Consume(g.strides, s.done, cut.k).1, !cut.filler),
     if cut.filler then Return(g, s1, |s.out|, true) else s1)
  }

  function Poll(g: Geometry, s: Strq, extra: seq<Buf>): (Polled, Strq)
  {
    if s.rx.posted == [] then (Polled(false, false), s)
    else
      var s1 := Reserve(g, SetHot(g, s), extra);
      if s1.hotStride == 0 || s1.cuts == [] then (Polled(false, false), s1) else Apply(g, s1)
  }

  // ---------- invariant ----------

  /** Strides of buffer `w` that are handed out. */
  function Held(out: seq<Stride>, w: Buf): nat
  {
    if out == [] then 0 else (if out[0].rwqe == w then out[0].k else 0) + Held(out[1..], w)
  }

  ghost predicate IsHot(s: Strq, w: Buf)
  {
    s.rx.hot && s.rx.posted != [] && s.rx.posted[0] == w
  }

  /** A buffer's count is what is handed out of it, plus what is still to come if it is on the ring. */
  ghost predicate CountsExact(g: Geometry, s: Strq)
  {
    && (forall w {:trigger Held(s.out, w)} :: w in s.rx.upper ==> RefOf(s.refs, w) == Held(s.out, w) > 0)
    && (forall w {:trigger IsHot(s, w)} :: IsHot(s, w) ==> RefOf(s.refs, w) == Held(s.out, w) + g.strides - s.done)
  }

  /** Where an outstanding stride may lie. */
  ghost predicate Placed(g: Geometry, s: Strq, st: Stride)
  {
    && 1 <= st.k && st.off + st.k <= g.strides
    && (st.rwqe in s.rx.upper || (IsHot(s, st.rwqe) && st.off + st.k <= s.done))
  }

  predicate Apart(a: Stride, b: Stride)
  {
    a.rwqe != b.rwqe || a.off + a.k <= b.off || b.off + b.k <= a.off
  }

  ghost predicate StridesApart(g: Geometry, s: Strq)
  {
    && (forall i {:trigger Placed(g, s, s.out[i])} :: 0 <= i < |s.out| ==> Placed(g, s, s.out[i]))
    && (forall i, j {:trigger Apart(s.out[i], s.out[j])} :: 0 <= i < j < |s.out| ==> Apart(s.out[i], s.out[j]))
  }

  function Descs(out: seq<Stride>): seq<Buf>
  {
    if out == [] then [] else [out[0].desc] + Descs(out[1..])
  }

  ghost function DescPlaces(s: Strq): multiset<Buf>
  {
    multiset(s.cache) + multiset(s.spare) + multiset(Descs(s.out)) +
    (if s.hotStride == 0 then multiset{} else multiset{s.hotStride})
  }

  /** Every stride descriptor is in exactly one place. */
  ghost predicate DescInv(s: Strq)
  {
    DescPlaces(s) == multiset(s.descs) && 0 !in s.descs
  }

  /** The ring side: buffers and credits, and the completions that wait. */
  ghost predicate RingInv(c: Config, g: Geometry, s: Strq)
  {
    && g.strides >= 1
    && Inv(c, s.rx) && s.rx.ready == [] && s.rx.queue == []
    && s.done < g.strides && (!s.rx.hot ==> s.done == 0)
    && Fits(g.strides, s.done, s.cuts, |s.rx.posted|)
  }

  ghost predicate StrideInv(c: Config, g: Geometry, s: Strq)
  {
    && RingInv(c, g, s)
    && CountsExact(g, s) && StridesApart(g, s)
    && DescInv(s)
  }

  // ---------- counting strides ----------

  lemma {:induction false} HeldConcat(a: seq<Stride>, b: seq<Stride>, w: Buf)
    ensures Held(a + b, w) == Held(a, w) + Held(b, w)
  {
    if a == [] {
      assert a + b == b;
    } else {
      HeldConcat(a[1..], b, w);
      assert (a + b)[1..] == a[1..] + b;
    }
  }

  lemma HeldWithout(out: seq<Stride>, i: nat, w: Buf)
    requires i < |out|
    ensures Held(out, w) == Held(out[..i] + out[i + 1..], w) + (if out[i].rwqe == w then out[i].k else 0)
  {
    assert out == out[..i] + ([out[i]] + out[i + 1..]);
    HeldConcat(out[..i], [out[i]] + out[i + 1..], w);
    HeldConcat([out[i]], out[i + 1..], w);
    HeldConcat(out[..i], out[i + 1..], w);
    assert Held([out[i]], w) == (if out[i].rwqe == w then out[i].k else 0) + Held([out[i]][1..], w);
  }

  lemma HeldSnoc(out: seq<Stride>, st: Stride, w: Buf)
    ensures Held(out + [st], w) == Held(out, w) + (if st.rwqe == w then st.k else 0)
  {
    HeldConcat(out, [st], w);
    assert Held([st], w) == (if st.rwqe == w then st.k else 0) + Held([st][1..], w);
  }

  lemma {:induction false} HeldZero(out: seq<Stride>, w: Buf)
    requires forall i :: 0 <= i < |out| ==> out[i].k >= 1
    ensures Held(out, w) == 0 <==> forall i :: 0 <= i < |out| ==> out[i].rwqe != w
  {
    if out != [] {
      HeldZero(out[1..], w);
      if Held(out, w) == 0 {
        forall i | 0 <= i < |out|
          ensures out[i].rwqe != w
        {
          if i > 0 { assert out[i] == out[1..][i - 1]; }
        }
      }
    }
  }

  lemma {:induction false} DescsConcat(a: seq<Stride>, b: seq<Stride>)
    ensures Descs(a + b) == Descs(a) + Descs(b)
  {
    if a == [] {
      assert a + b == b;
    } else {
      DescsConcat(a[1..], b);
      assert (a + b)[1..] == a[1..] + b;
    }
  }

  lemma DescsWithout(out: seq<Stride>, i: nat)
    requires i < |out|
    ensures multiset(Descs(out)) == multiset(Descs(out[..i] + out[i + 1..])) + multiset{out[i].desc}
  {
    DescsOne(out[i]);
    hide Descs;
    var a, b := out[..i], out[i + 1..];
    assert out == a + ([out[i]] + b);
    DescsConcat(a, [out[i]] + b);
    DescsConcat([out[i]], b);
    DescsConcat(a, b);
  }

  lemma DescsOne(st: Stride)
    ensures Descs([st]) == [st.desc]
  {
    assert Descs([st][1..]) == [];
  }

  /** A buffer on the ring is nowhere else. */
  lemma PostedNotHeld(c: Config, rx: Rx)
    requires Inv(c, rx) && rx.posted != []
    ensures rx.posted[0] !in rx.upper && rx.posted[0] != 0
    ensures rx.posted[0] !in rx.posted[1..]
  {
    var w := rx.posted[0];
    var all := OffRing(rx) + multiset{} + OnRing(rx);
    assert all[w] <= 1;
    assert rx.posted + rx.pending == [w] + (rx.posted[1..] + rx.pending);
    assert OnRing(rx)[w] == 1 + multiset(rx.posted[1..] + rx.pending)[w];
    assert multiset(rx.posted[1..] + rx.pending)[w] == 0;
  }

  // ---------- what every step keeps ----------

  lemma SetHotKeeps(c: Config, g: Geometry, s: Strq)
    requires StrideInv(c, g, s)
    ensures StrideInv(c, g, SetHot(g, s))
  {
    var r := SetHot(g, s);
    if !s.rx.hot && s.rx.posted != [] {
      var p := s.rx.posted[0];
      PostedNotHeld(c, s.rx);
      assert OffRing(r.rx) == OffRing(s.rx) && OnRing(r.rx) == OnRing(s.rx);
      assert forall i :: 0 <= i < |s.out| ==> Placed(g, s, s.out[i]) && s.out[i].rwqe != p;
      HeldZero(s.out, p);
      assert forall i :: 0 <= i < |r.out| ==> Placed(g, r, r.out[i]);
    }
  }

  /** Moving stride descriptors about touches nothing else. */
  lemma SameStrides(c: Config, g: Geometry, s: Strq, r: Strq)
    requires RingInv(c, g, s) && CountsExact(g, s) && StridesApart(g, s)
    requires r == s.(cache := r.cache, spare := r.spare, descs := r.descs, hotStride := r.hotStride)
    ensures RingInv(c, g, r) && CountsExact(g, r) && StridesApart(g, r)
  {
    assert forall w :: IsHot(r, w) == IsHot(s, w);
    assert forall i :: 0 <= i < |r.out| ==> Placed(g, s, s.out[i]) ==> Placed(g, r, r.out[i]);
  }

  lemma FillCacheKeeps(c: Config, g: Geometry, s: Strq, extra: seq<Buf>)
    requires StrideInv(c, g, s)
    ensures StrideInv(c, g, FillCache(g, s, extra))
  {
    hide RingInv, CountsExact, StridesApart, Reserve;
    ReserveKeeps(c, g, s, extra);
    var r := Reserve(g, s, extra);
    if r.hotStride != 0 {
      PutDescPlaces(g, r.(hotStride := 0), r.hotStride, true);
      SameStrides(c, g, r, FillCache(g, s, extra));
    }
  }

  /** The cache of a new queue holds one batch of descriptors, if the global pool could give that many. */
  lemma FillCacheIs(g: Geometry, s: Strq, extra: seq<Buf>)
    requires DescInv(s) && s.cache == [] && s.hotStride == 0 && g.level >= 1
    ensures FillCache(g, s, extra) == Restock(g, s, extra)
  {
    hide Restock, DescInv, GiveBack, PopCache;
    RestockDescs(g, s, extra);
    RestockSize(g, s, extra);
    GiveBackPopped(g, Restock(g, s, extra));
  }

  lemma RestockSize(g: Geometry, s: Strq, extra: seq<Buf>)
    requires s.cache == []
    ensures |Restock(g, s, extra).cache| <= g.level
  {
  }

  lemma GiveBackPopped(g: Geometry, r: Strq)
    requires DescInv(r) && r.hotStride == 0 && g.level >= 1 && |r.cache| <= g.level
    ensures var p := PopCache(r);
            if p.hotStride == 0 then p == r else GiveBack(g, p.(hotStride := 0), p.hotStride) == r
  {
    hide Descs;
    if r.cache != [] {
      var n := |r.cache| - 1;
      assert r.cache == r.cache[..n] + [r.cache[n]];
      assert r.cache[n] in multiset(r.cache) && r.cache[n] in multiset(r.descs);
    }
  }

  lemma RestockDescs(g: Geometry, s: Strq, extra: seq<Buf>)
    requires DescInv(s)
    ensures DescInv(Restock(g, s, extra)) && s.descs <= Restock(g, s, extra).descs
  {
    hide DescInv, Admissible;
    var s1 := if |s.spare| < g.level && Admissible(extra, s.descs)
              then s.(spare := extra + s.spare, descs := s.descs + Elements(extra)) else s;
    if |s.spare| < g.level && Admissible(extra, s.descs) { GrownDescs(s, extra); }
    if |s1.spare| >= g.level { TakenDescs(s1, g.level); }
  }

  lemma GrownDescs(s: Strq, extra: seq<Buf>)
    requires DescInv(s) && Admissible(extra, s.descs)
    ensures DescInv(s.(spare := extra + s.spare, descs := s.descs + Elements(extra)))
  {
    hide Descs;
    var r := s.(spare := extra + s.spare, descs := s.descs + Elements(extra));
    assert DescPlaces(r) == DescPlaces(s) + multiset(extra);
  }

  lemma TakenDescs(s: Strq, n: nat)
    requires DescInv(s) && n <= |s.spare|
    ensures DescInv(s.(cache := s.cache + s.spare[..n], spare := s.spare[n..]))
  {
    hide Descs;
    var r := s.(cache := s.cache + s.spare[..n], spare := s.spare[n..]);
    SplitContents(s.spare, n);
    assert multiset(r.cache) + multiset(r.spare) == multiset(s.cache) + multiset(s.spare);
  }

  /** Taking `y` out of one place and holding it separately. */
  lemma Regroup(x: multiset<Buf>, y: multiset<Buf>, b: multiset<Buf>, d: multiset<Buf>)
    ensures x + y + b + d + multiset{} == x + b + d + y
    ensures b + d + (x + y) == b + d + x + y
    ensures b + (x + y) + d == b + x + d + y
  {
  }

  lemma PopDescs(s: Strq)
    requires DescInv(s) && s.hotStride == 0
    ensures DescInv(PopCache(s))
  {
    if s.cache != [] {
      var n := |s.cache| - 1;
      assert s.cache == s.cache[..n] + [s.cache[n]];
      PushContents(s.cache[..n], s.cache[n]);
      assert s.cache[n] in multiset(s.cache) && s.cache[n] in multiset(s.descs);
      Regroup(multiset(s.cache[..n]), multiset{s.cache[n]}, multiset(s.spare), multiset(Descs(s.out)));
    }
  }

  lemma ReserveDescs(g: Geometry, s: Strq, extra: seq<Buf>)
    requires DescInv(s)
    ensures DescInv(Reserve(g, s, extra)) && s.descs <= Reserve(g, s, extra).descs
  {
    if s.hotStride == 0 && s.cache == [] {
      RestockDescs(g, s, extra);
      PopDescs(Restock(g, s, extra));
    } else if s.hotStride == 0 {
      PopDescs(s);
    }
  }

  lemma ReserveKeeps(c: Config, g: Geometry, s: Strq, extra: seq<Buf>)
    requires StrideInv(c, g, s)
    ensures StrideInv(c, g, Reserve(g, s, extra)) && s.descs <= Reserve(g, s, extra).descs
  {
    ReserveDescs(g, s, extra);
    SameStrides(c, g, s, Reserve(g, s, extra));
  }

  lemma PutDescPlaces(g: Geometry, s: Strq, d: Buf, viaQueue: bool)
    ensures DescPlaces(PutDesc(g, s, d, viaQueue)) == DescPlaces(s) + multiset{d}
  {
    var cache, r := s.cache + [d], PutDesc(g, s, d, viaQueue);
    PushContents(s.cache, d);
    PushContents(s.spare, d);
    if viaQueue && |cache| >= g.level * 2 {
      SplitContents(cache, g.level);
      assert multiset(r.cache) + multiset(r.spare) == multiset(cache) + multiset(s.spare);
    }
  }

  lemma ReturnDescs(g: Geometry, s: Strq, i: nat, viaQueue: bool)
    requires i < |s.out| && DescInv(s)
    ensures DescInv(Return(g, s, i, viaQueue))
  {
    var d, s1 := s.out[i].desc, Drop(s, i, viaQueue);
    DropShape(s, i, viaQueue);
    DropDescs(s, i, s1);
    PutDescPlaces(g, s1, d, viaQueue);
    assert PutDesc(g, s1, d, viaQueue).descs == s.descs;
  }

  lemma DropShape(s: Strq, i: nat, viaQueue: bool)
    requires i < |s.out|
    ensures var r := Drop(s, i, viaQueue);
            r == s.(out := s.out[..i] + s.out[i + 1..], refs := r.refs, rx := r.rx)
  {
  }

  lemma DropDescs(s: Strq, i: nat, r: Strq)
    requires i < |s.out| && r == s.(out := s.out[..i] + s.out[i + 1..], refs := r.refs, rx := r.rx)
    ensures DescPlaces(s) == DescPlaces(r) + multiset{s.out[i].desc}
  {
    DescsWithout(s.out, i);
    DropStride(s, r, s.out[i].desc);
  }

  lemma DropStride(s: Strq, r: Strq, d: Buf)
    requires multiset(Descs(s.out)) == multiset(Descs(r.out)) + multiset{d}
    requires s.cache == r.cache && s.spare == r.spare && s.hotStride == r.hotStride
    ensures DescPlaces(s) == DescPlaces(r) + multiset{d}
  {
  }

  /**
   The central fact: a returned stride recycles its buffer exactly when the entry is complete and
   no other stride of it is outstanding.
   */
  lemma ReturnRecyclesExactly(c: Config, g: Geometry, s: Strq, i: nat)
    requires StrideInv(c, g, s) && i < |s.out|
    ensures var w := s.out[i].rwqe;
            s.out[i].k == RefOf(s.refs, w) <==>
            !IsHot(s, w) && forall j :: 0 <= j < |s.out| && j != i ==> s.out[j].rwqe != w
  {
    hide Held, DescInv, Fits, InvWith;
    var w, rest := s.out[i].rwqe, s.out[..i] + s.out[i + 1..];
    assert Placed(g, s, s.out[i]);
    HeldWithout(s.out, i, w);
    forall j | 0 <= j < |s.out| ensures s.out[j].k >= 1 { assert Placed(g, s, s.out[j]); }
    OthersHeld(s.out, i, w);
    if IsHot(s, w) { PostedNotHeld(c, s.rx); }
  }

  lemma OthersHeld(out: seq<Stride>, i: nat, w: Buf)
    requires i < |out| && forall j :: 0 <= j < |out| ==> out[j].k >= 1
    ensures Held(out[..i] + out[i + 1..], w) == 0 <==>
            forall j :: 0 <= j < |out| && j != i ==> out[j].rwqe != w
  {
    hide Held;
    var a, b := out[..i], out[i + 1..];
    HeldConcat(a, b, w);
    HeldZero(a, w);
    HeldZero(b, w);
    assert forall j :: i < j < |out| ==> out[j] == b[j - i - 1];
  }

  lemma HeldOnce(c: Config, rx: Rx, w: Buf)
    requires Inv(c, rx)
    ensures rx.upper[w] <= 1
  {
    assert (OffRing(rx) + multiset{} + OnRing(rx))[w] <= 1;
  }

  lemma DropRing(c: Config, g: Geometry, s: Strq, i: nat, viaQueue: bool)
    requires RingInv(c, g, s) && i < |s.out|
    ensures var r := Drop(s, i, viaQueue);
            RingInv(c, g, r) && Owed(r.rx) == Owed(s.rx) && r.rx.created == s.rx.created
  {
    ReclaimKeeps(c, s.rx, [s.out[i].rwqe], viaQueue);
  }

  /** The strides left after a return, each at its old place in the list. */
  lemma Remaining(out: seq<Stride>, i: nat)
    requires i < |out|
    ensures var rest := out[..i] + out[i + 1..];
            && |rest| == |out| - 1
            && forall j :: 0 <= j < |rest| ==> rest[j] == out[if j < i then j else j + 1]
  {
  }

  lemma DropCounts(c: Config, g: Geometry, s: Strq, i: nat, viaQueue: bool)
    requires StrideInv(c, g, s) && i < |s.out|
    ensures CountsExact(g, Drop(s, i, viaQueue))
  {
    hide Held, DescInv, Fits, InvWith;
    var r, w := Drop(s, i, viaQueue), s.out[i].rwqe;
    assert Placed(g, s, s.out[i]);
    HeldOnce(c, s.rx, w);
    ReturnRecyclesExactly(c, g, s, i);
    assert multiset([w]) == multiset{w};
    forall v | v in r.rx.upper
      ensures RefOf(r.refs, v) == Held(r.out, v) > 0
    {
      HeldWithout(s.out, i, v);
      assert v in s.rx.upper;
    }
    forall v | IsHot(r, v)
      ensures RefOf(r.refs, v) == Held(r.out, v) + g.strides - r.done
    {
      HeldWithout(s.out, i, v);
      assert IsHot(s, v);
    }
  }

  lemma DropApart(c: Config, g: Geometry, s: Strq, i: nat, viaQueue: bool)
    requires StrideInv(c, g, s) && i < |s.out|
    ensures StridesApart(g, Drop(s, i, viaQueue))
  {
    var r, w := Drop(s, i, viaQueue), s.out[i].rwqe;
    Remaining(s.out, i);
    ReturnRecyclesExactly(c, g, s, i);
    assert multiset([w]) == multiset{w};
    forall j | 0 <= j < |r.out|
      ensures Placed(g, r, r.out[j])
    {
      var st := r.out[j];
      assert st == s.out[if j < i then j else j + 1];
      assert Placed(g, s, st);
      assert IsHot(s, st.rwqe) ==> IsHot(r, st.rwqe);
    }
  }

  lemma ReturnKeeps(c: Config, g: Geometry, s: Strq, i: nat, viaQueue: bool)
    requires StrideInv(c, g, s) && i < |s.out|
    ensures var r := Return(g, s, i, viaQueue);
            StrideInv(c, g, r) && Owed(r.rx) == Owed(s.rx) && r.rx.created == s.rx.created
  {
    DropRing(c, g, s, i, viaQueue);
    DropCounts(c, g, s, i, viaQueue);
    DropApart(c, g, s, i, viaQueue);
    ReturnDescs(g, s, i, viaQueue);
    SameStrides(c, g, Drop(s, i, viaQueue), Return(g, s, i, viaQueue));
  }

  lemma RetireKeeps(c: Config, rx: Rx)
    requires Inv(c, rx) && rx.ready == [] && rx.posted != []
    ensures Inv(c, Retire(rx)) && Owed(Retire(rx)) == Owed(rx) - 1
  {
    var w, r := rx.posted[0], Retire(rx);
    assert rx.posted + rx.pending == [w] + (r.posted + r.pending);
    assert OnRing(rx) == multiset{w} + OnRing(r);
    assert OffRing(r) == OffRing(rx) + multiset{w};
  }

  /** The entry being received into, a completion waiting, and a descriptor at hand. */
  ghost predicate CanHandOut(c: Config, g: Geometry, s: Strq)
  {
    StrideInv(c, g, s) && s.rx.hot && s.rx.posted != [] && s.cuts != [] && s.hotStride != 0
  }

  lemma HandOutRing(c: Config, g: Geometry, s: Strq)
    requires CanHandOut(c, g, s)
    ensures var r := HandOut(g, s);
            && RingInv(c, g, r) && r.rx.created == s.rx.created
            && Owed(r.rx) == Owed(s.rx) - (if Consume(g.strides, s.done, s.cuts[0].k).1 then 1 else 0)
  {
    RetireKeeps(c, s.rx);
  }

  lemma HandOutCounts(c: Config, g: Geometry, s: Strq)
    requires CanHandOut(c, g, s)
    ensures CountsExact(g, HandOut(g, s))
  {
    var r, w := HandOut(g, s), s.rx.posted[0];
    var st := r.out[|s.out|];
    PostedNotHeld(c, s.rx);
    assert IsHot(s, w);
    forall v | v in r.rx.upper
      ensures RefOf(r.refs, v) == Held(r.out, v) > 0
    {
      HeldSnoc(s.out, st, v);
      assert v in s.rx.upper || v == w;
    }
    forall v | IsHot(r, v)
      ensures RefOf(r.refs, v) == Held(r.out, v) + g.strides - r.done
    {
      HeldSnoc(s.out, st, v);
    }
  }

  lemma HandOutApart(c: Config, g: Geometry, s: Strq)
    requires CanHandOut(c, g, s)
    ensures StridesApart(g, HandOut(g, s))
  {
    var r, w := HandOut(g, s), s.rx.posted[0];
    PostedNotHeld(c, s.rx);
    assert IsHot(s, w);
    forall j | 0 <= j < |r.out|
      ensures Placed(g, r, r.out[j])
    {
      if j < |s.out| { assert Placed(g, s, s.out[j]); }
      assert w in r.rx.upper || IsHot(r, w);
    }
    forall i, j | 0 <= i < j < |r.out|
      ensures Apart(r.out[i], r.out[j])
    {
      assert Placed(g, s, s.out[i]);
    }
  }

  lemma HandOutDescs(g: Geometry, s: Strq)
    requires DescInv(s) && s.rx.posted != [] && s.cuts != [] && s.hotStride != 0
    ensures DescInv(HandOut(g, s))
  {
    var r := HandOut(g, s);
    var st := r.out[|s.out|];
    DescsConcat(s.out, [st]);
    assert Descs([st]) == [st.desc] + Descs([st][1..]);
    PushContents(Descs(s.out), st.desc);
    Regroup(multiset(Descs(s.out)), multiset{st.desc}, multiset(s.cache), multiset(s.spare));
  }

  lemma HandOutKeeps(c: Config, g: Geometry, s: Strq)
    requires CanHandOut(c, g, s)
    ensures var r := HandOut(g, s);
            && StrideInv(c, g, r) && r.rx.created == s.rx.created
            && Owed(r.rx) == Owed(s.rx) - (if Consume(g.strides, s.done, s.cuts[0].k).1 then 1 else 0)
  {
    HandOutRing(c, g, s);
    HandOutCounts(c, g, s);
    HandOutApart(c, g, s);
    HandOutDescs(g, s);
  }

  lemma OwedBound(c: Config, g: Geometry, s: Strq)
    requires StrideInv(c, g, s)
    ensures 0 <= s.rx.debt && Owed(s.rx) <= c.num && s.done < g.strides
    ensures Fits(g.strides, s.done, s.cuts, |s.rx.posted|)
  {
  }

  lemma PollKeeps(c: Config, g: Geometry, s: Strq, extra: seq<Buf>)
    requires StrideInv(c, g, s)
    ensures var (p, r) := Poll(g, s, extra);
            && StrideInv(c, g, r) && r.rx.created == s.rx.created
            && Owed(r.rx) == Owed(s.rx) - (if p.wqe then 1 else 0)
            && (p.wqe ==> Owed(r.rx) < c.num)
  {
    hide Reserve, HandOut, Return, RingInv, CountsExact, StridesApart, DescInv;
    OwedBound(c, g, s);
    if s.rx.posted != [] {
      SetHotKeeps(c, g, s);
      var s0 := SetHot(g, s);
      ReserveKeeps(c, g, s0, extra);
      var s1 := Reserve(g, s0, extra);
      if s1.hotStride != 0 && s1.cuts != [] {
        HandOutKeeps(c, g, s1);
        if s1.cuts[0].filler { ReturnKeeps(c, g, HandOut(g, s1), |s1.out|, true); }
      }
    }
  }

  // ---------- whole operations ----------

  /** What the environment decides while one completion is handled. */
  datatype StrideChoice = StrideChoice(accept: bool, strides: seq<Buf>, buffers: seq<Buf>)

  /** A completed entry is entered as debt, and a batch of debt is paid. */
  ghost function Charge(c: Config, s: Strq, buffers: seq<Buf>): Strq
  {
    var rx := s.rx.(debt := s.rx.debt + 1);
    s.(rx := if rx.debt >= c.batch then CompensateFailed(c, rx, buffers) else rx)
  }

  /** A stride the upper layer refuses comes back at once. */
  function Offer(g: Geometry, s: Strq, accept: bool): Strq
  {
    if !accept && |s.out| > 0 then Return(g, s, |s.out| - 1, true) else s
  }

  /** One turn of the polling loop. */
  ghost function Turn(c: Config, g: Geometry, s: Strq, e: StrideChoice): (Polled, Strq)
  {
    var (p, s1) := Poll(g, s, e.strides);
    var s2 := if p.wqe then Charge(c, s1, e.buffers) else s1;
    (p, if p.stride then Offer(g, s2, e.accept) else s2)
  }

  /** The loop ends after `max` strides, or at the first turn that completes nothing. */
  ghost function Turns(c: Config, g: Geometry, s: Strq, es: seq<StrideChoice>, max: nat): (nat, Strq)
    decreases |es|
  {
    if es == [] || max == 0 then (0, s)
    else
      var (p, s1) := Turn(c, g, s, es[0]);
      if p.stride then var (n, s2) := Turns(c, g, s1, es[1..], max - 1); (n + 1, s2)
      else if p.wqe then Turns(c, g, s1, es[1..], max)
      else (0, s1)
  }

  ghost function StridePoll(c: Config, g: Geometry, s: Strq, es: seq<StrideChoice>, max: nat, extra: seq<Buf>): Strq
  {
    var (polled, s1) := Turns(c, g, s, es, max);
    if polled > 0 then s1 else s1.(rx := CompensateFailed(c, s1.rx, extra))
  }

  /** The hardware fills `k` more strides, if they fit in the ring entries it has. */
  function HwCut(g: Geometry, s: Strq, k: nat, filler: bool): Strq
  {
    var cuts := s.cuts + [Cut(k, filler)];
    if Fits(g.strides, s.done, cuts, |s.rx.posted|) then s.(cuts := cuts) else s
  }

  /** Refilling the back of the ring, or moving free buffers, does not concern the strides. */
  lemma RefillKeeps(c: Config, g: Geometry, s: Strq, rx: Rx)
    requires StrideInv(c, g, s) && Inv(c, rx)
    requires s.rx.posted <= rx.posted
    requires rx.upper == s.rx.upper && rx.hot == s.rx.hot && rx.ready == [] && rx.queue == []
    ensures StrideInv(c, g, s.(rx := rx))
  {
    var r := s.(rx := rx);
    FitsMore(g.strides, s.done, s.cuts, |s.rx.posted|, |rx.posted|);
    assert forall w :: IsHot(r, w) == IsHot(s, w);
    assert forall i :: 0 <= i < |r.out| ==> Placed(g, s, s.out[i]) ==> Placed(g, r, r.out[i]);
  }

  /** So does the initial fill of a ring that is empty. */
  lemma StartKeeps(c: Config, g: Geometry, s: Strq, extras: seq<seq<Buf>>)
    requires StrideInv(c, g, s) && Owed(s.rx) == 0
    ensures StrideInv(c, g, s.(rx := Fill(c, s.rx, c.num, extras)))
  {
    FillKeeps(c, s.rx, c.num, extras);
    FillShape(c, s.rx, c.num, extras);
    RefillKeeps(c, g, s, Fill(c, s.rx, c.num, extras));
  }

  lemma PayKeeps(c: Config, g: Geometry, s: Strq, buffers: seq<Buf>)
    requires StrideInv(c, g, s)
    ensures var rx := CompensateFailed(c, s.rx, buffers);
            StrideInv(c, g, s.(rx := rx)) && Owed(rx) == Owed(s.rx) && s.rx.created <= rx.created
  {
    CompensateKeeps(c, s.rx, buffers, multiset{});
    CompensateShape(c, s.rx, buffers);
    RefillKeeps(c, g, s, CompensateFailed(c, s.rx, buffers));
  }

  lemma ChargeKeeps(c: Config, g: Geometry, s: Strq, buffers: seq<Buf>)
    requires StrideInv(c, g, s) && Owed(s.rx) < c.num
    ensures var r := Charge(c, s, buffers);
            && StrideInv(c, g, r) && Owed(r.rx) == Owed(s.rx) + 1 && s.rx.created <= r.rx.created
            && r.out == s.out
  {
    OweKeeps(c, g, s);
    var rx := s.rx.(debt := s.rx.debt + 1);
    PayKeeps(c, g, s.(rx := rx), buffers);
  }

  lemma OweKeeps(c: Config, g: Geometry, s: Strq)
    requires StrideInv(c, g, s) && Owed(s.rx) < c.num
    ensures StrideInv(c, g, s.(rx := s.rx.(debt := s.rx.debt + 1)))
  {
    var rx := s.rx.(debt := s.rx.debt + 1);
    assert OffRing(rx) == OffRing(s.rx) && OnRing(rx) == OnRing(s.rx);
    RefillKeeps(c, g, s, rx);
  }

  lemma OfferKeeps(c: Config, g: Geometry, s: Strq, accept: bool)
    requires StrideInv(c, g, s)
    ensures Carries(c, g, s, Offer(g, s, accept))
  {
    hide Return, StrideInv, Owed;
    if !accept && |s.out| > 0 { ReturnKeeps(c, g, s, |s.out| - 1, true); }
  }

  /** `r` keeps the invariant and what the ring owes, and no buffer is gone. */
  ghost predicate Carries(c: Config, g: Geometry, s: Strq, r: Strq)
  {
    StrideInv(c, g, r) && Owed(r.rx) == Owed(s.rx) && s.rx.created <= r.rx.created
  }

  lemma TurnKeeps(c: Config, g: Geometry, s: Strq, e: StrideChoice)
    requires StrideInv(c, g, s)
    ensures Carries(c, g, s, Turn(c, g, s, e).1)
  {
    hide Poll, Charge, Offer, StrideInv, Owed;
    PollKeeps(c, g, s, e.strides);
    var (p, s1) := Poll(g, s, e.strides);
    if p.wqe { ChargeKeeps(c, g, s1, e.buffers); }
    var s2 := if p.wqe then Charge(c, s1, e.buffers) else s1;
    assert Carries(c, g, s, s2);
    if p.stride { OfferKeeps(c, g, s2, e.accept); }
  }

  lemma {:induction false} TurnsKeeps(c: Config, g: Geometry, s: Strq, es: seq<StrideChoice>, max: nat)
    requires StrideInv(c, g, s)
    ensures Carries(c, g, s, Turns(c, g, s, es, max).1)
    decreases |es|
  {
    hide Turn, StrideInv, Owed;
    if es != [] && max > 0 {
      TurnKeeps(c, g, s, es[0]);
      var t := Turn(c, g, s, es[0]);
      if t.0.stride { TurnsKeeps(c, g, t.1, es[1..], max - 1); }
      else if t.0.wqe { TurnsKeeps(c, g, t.1, es[1..], max); }
    }
  }

  lemma StridePollKeeps(c: Config, g: Geometry, s: Strq, es: seq<StrideChoice>, max: nat, extra: seq<Buf>)
    requires StrideInv(c, g, s)
    ensures Carries(c, g, s, StridePoll(c, g, s, es, max, extra))
  {
    hide Turns, CompensateFailed, StrideInv, Owed;
    TurnsKeeps(c, g, s, es, max);
    PayKeeps(c, g, Turns(c, g, s, es, max).1, extra);
  }

  lemma ReturnSpareKeeps(c: Config, g: Geometry, s: Strq)
    requires StrideInv(c, g, s)
    ensures Carries(c, g, s, s.(rx := ReturnExtra(c, s.rx)))
  {
    ReturnExtraKeeps(c, s.rx);
    RefillKeeps(c, g, s, ReturnExtra(c, s.rx));
  }

  lemma CutKeeps(c: Config, g: Geometry, s: Strq, k: nat, filler: bool)
    requires StrideInv(c, g, s)
    ensures StrideInv(c, g, HwCut(g, s, k, filler)) && HwCut(g, s, k, filler).rx == s.rx
  {
    var r := HwCut(g, s, k, filler);
    assert forall w :: IsHot(r, w) == IsHot(s, w);
    assert forall i :: 0 <= i < |r.out| ==> Placed(g, s, s.out[i]) ==> Placed(g, r, r.out[i]);
  }

  lemma WaitingBounded(c: Config, g: Geometry, s: Strq)
    requires StrideInv(c, g, s)
    ensures |s.cuts| <= g.strides * c.num
  {
    hide StrideInv, Fits;
    OwedBound(c, g, s);
    CompletionsBounded(g.strides, s.done, s.cuts, |s.rx.posted|);
    assert g.strides * (c.num - |s.rx.posted|) >= 0;
  }

  // ---------- which strides are handed out ----------

  /** The descriptor the next completion would get, or null. */
  function NextDesc(g: Geometry, s: Strq, extra: seq<Buf>): Buf
  {
    Reserve(g, SetHot(g, s), extra).hotStride
  }

  /**
   A poll that finds a completion and a descriptor consumes the completion.  One without the filler mark
   hands out its strides, of the oldest entry from where consumption stands; a filler hands out nothing,
   and its strides come off the count of the buffer at once.  The entry is complete when all its strides
   are consumed.
   */
  lemma PollHandsOut(c: Config, g: Geometry, s: Strq, extra: seq<Buf>)
    requires StrideInv(c, g, s)
    ensures var (p, r) := Poll(g, s, extra);
            if s.rx.posted == [] || s.cuts == [] || NextDesc(g, s, extra) == 0 then
              !p.stride && !p.wqe && r.out == s.out && r.cuts == s.cuts && r.done == s.done && r.rx.posted == s.rx.posted
            else
              var w, k := s.rx.posted[0], s.cuts[0].k;
              && r.cuts == s.cuts[1..]
              && (p.wqe <==> s.done + k >= g.strides)
              && r.done == (if p.wqe then 0 else s.done + k)
              && r.rx.posted == (if p.wqe then s.rx.posted[1..] else s.rx.posted)
              && (!s.cuts[0].filler ==>
                  p.stride && r.out == s.out + [Stride(NextDesc(g, s, extra), w, s.done, k)])
              && (s.cuts[0].filler ==>
                  && !p.stride && r.out == s.out
                  && RefOf(r.refs, w) == (if s.rx.hot then RefOf(s.refs, w) else g.strides) - k)
  {
    hide StrideInv, Restock, GiveBack, Fits;
    if s.rx.posted != [] {
      var s1 := Reserve(g, SetHot(g, s), extra);
      if s1.hotStride != 0 && s1.cuts != [] {
        var s2 := HandOut(g, s1);
        if s1.cuts[0].filler { DropLast(g, s2, |s1.out|); }
      }
    }
  }

  lemma DropLast(g: Geometry, s: Strq, i: nat)
    requires i + 1 == |s.out|
    ensures var r := Return(g, s, i, true);
            && r.out == s.out[..i] && r.cuts == s.cuts && r.done == s.done && r.rx.posted == s.rx.posted
            && RefOf(r.refs, s.out[i].rwqe) == RefOf(s.refs, s.out[i].rwqe) - s.out[i].k
  {
    assert s.out[i + 1..] == [];
  }

  /** Strides by where they lie. */
  datatype Span = Span(rwqe: Buf, off: nat, k: nat)

  function Spans(out: seq<Stride>): (r: seq<Span>)
    ensures |r| == |out|
  {
    if out == [] then [] else Spans(out[..|out| - 1]) + [SpanOf(out[|out| - 1])]
  }

  function SpanOf(st: Stride): Span
  {
    Span(st.rwqe, st.off, st.k)
  }

  /**
   The strides that polling should leave with the upper layer, from the completions alone: those of
   every completion without the filler mark that is accepted, entry by entry.  Polling stops after `max`
   strides, and at a filler that does not complete its entry.
   */
  function Handed(strides: nat, posted: seq<Buf>, done: nat, cuts: seq<Cut>, es: seq<StrideChoice>, max: nat): seq<Span>
    decreases |es|
  {
    if posted == [] || cuts == [] || es == [] || max == 0 then []
    else
      var last := done + cuts[0].k >= strides;
      var posted', done' := if last then posted[1..] else posted, if last then 0 else done + cuts[0].k;
      if !cuts[0].filler then
        (if es[0].accept then [Span(posted[0], done, cuts[0].k)] else []) +
        Handed(strides, posted', done', cuts[1..], es[1..], max - 1)
      else if last then Handed(strides, posted', done', cuts[1..], es[1..], max)
      else []
  }

  /** Entries posted behind those that the completions are for do not matter. */
  lemma {:induction false} HandedMore(strides: nat, posted: seq<Buf>, more: seq<Buf>, done: nat, cuts: seq<Cut>,
                                      es: seq<StrideChoice>, max: nat)
    requires Fits(strides, done, cuts, |posted|) && posted <= more
    ensures Handed(strides, more, done, cuts, es, max) == Handed(strides, posted, done, cuts, es, max)
    decreases |es|
  {
    if cuts != [] && es != [] && max > 0 {
      var last := done + cuts[0].k >= strides;
      if last { HandedMore(strides, posted[1..], more[1..], 0, cuts[1..], es[1..], if cuts[0].filler then max else max - 1); }
      else if !cuts[0].filler { HandedMore(strides, posted, more, done + cuts[0].k, cuts[1..], es[1..], max - 1); }
    }
  }

  /** No descriptor is left to reserve. */
  predicate OutOfDescs(s: Strq)
  {
    s.hotStride == 0 && s.cache == []
  }

  lemma NoDescNoCache(c: Config, g: Geometry, s: Strq, extra: seq<Buf>)
    requires StrideInv(c, g, s) && s.rx.posted != [] && NextDesc(g, s, extra) == 0
    ensures OutOfDescs(Poll(g, s, extra).1)
  {
    hide RingInv, CountsExact, StridesApart, Restock;
    var s0 := SetHot(g, s);
    RestockDescs(g, s0, extra);
    CacheNotNull(if s0.cache == [] then Restock(g, s0, extra) else s0);
  }

  lemma CacheNotNull(s: Strq)
    requires DescInv(s)
    ensures s.cache != [] ==> s.cache[|s.cache| - 1] != 0
  {
    MemberCount(s.cache, 0);
    assert DescPlaces(s)[0] == multiset(s.descs)[0] == 0;
  }

  lemma SpansSnoc(out: seq<Stride>, st: Stride)
    ensures Spans(out + [st]) == Spans(out) + [SpanOf(st)]
  {
    assert (out + [st])[..|out|] == out;
  }

  /** What one turn leaves with the upper layer. */
  lemma TurnHandsOut(c: Config, g: Geometry, s: Strq, e: StrideChoice)
    requires StrideInv(c, g, s)
    ensures var (p, r) := Turn(c, g, s, e);
            if s.rx.posted == [] || s.cuts == [] || NextDesc(g, s, e.strides) == 0 then
              && !p.stride && !p.wqe && r.out == s.out
              && (s.rx.posted != [] && NextDesc(g, s, e.strides) == 0 ==> OutOfDescs(r))
            else
              var last := s.done + s.cuts[0].k >= g.strides;
              && p.stride == !s.cuts[0].filler && p.wqe == last
              && r.cuts == s.cuts[1..] && r.done == (if last then 0 else s.done + s.cuts[0].k)
              && (if last then s.rx.posted[1..] else s.rx.posted) <= r.rx.posted
              && Spans(r.out) == Spans(s.out) + (if !s.cuts[0].filler && e.accept
                                                 then [Span(s.rx.posted[0], s.done, s.cuts[0].k)] else [])
  {
    hide StrideInv, Poll, NextDesc, OutOfDescs, Spans, Charge, Offer;
    PollHandsOut(c, g, s, e.strides);
    PollKeeps(c, g, s, e.strides);
    var (p, s1) := Poll(g, s, e.strides);
    if s.rx.posted != [] && NextDesc(g, s, e.strides) == 0 { NoDescNoCache(c, g, s, e.strides); }
    if p.wqe { ChargeAdds(c, g, s1, e.buffers); }
    var s2 := if p.wqe then Charge(c, s1, e.buffers) else s1;
    if p.stride {
      var st := Stride(NextDesc(g, s, e.strides), s.rx.posted[0], s.done, s.cuts[0].k);
      SpansSnoc(s.out, st);
      OfferLeaves(g, s2, e.accept, s.out, st);
    }
  }

  /** An accepted stride stays out; a refused one comes back at once. */
  lemma OfferLeaves(g: Geometry, s: Strq, accept: bool, out: seq<Stride>, st: Stride)
    requires s.out == out + [st]
    ensures var r := Offer(g, s, accept);
            r.out == (if accept then s.out else out) && r.cuts == s.cuts && r.done == s.done && r.rx.posted == s.rx.posted
  {
    hide Return;
    DropLast(g, s, |out|);
    assert s.out[..|out|] == out;
  }

  /** Charging an entry adds to the ring, and leaves a batch of debt only when no buffer is left. */
  lemma ChargeAdds(c: Config, g: Geometry, s: Strq, buffers: seq<Buf>)
    requires StrideInv(c, g, s)
    ensures var r := Charge(c, s, buffers);
            && r == s.(rx := r.rx) && s.rx.posted <= r.rx.posted
            && (r.rx.debt < c.batch || r.rx.pool == [])
  {
    hide CountsExact, StridesApart, DescInv, Compensate;
    CompensateFinds(c, s.rx.(debt := s.rx.debt + 1), buffers);
  }

  /**
   Over the polling loop the upper layer is left with exactly the strides of the completions without the
   filler mark that it accepted, in order, unless the descriptors run out on the way.
   */
  lemma {:induction false} TurnsHandOut(c: Config, g: Geometry, s: Strq, es: seq<StrideChoice>, max: nat)
    requires StrideInv(c, g, s)
    ensures var r := Turns(c, g, s, es, max).1;
            var goal := Spans(s.out) + Handed(g.strides, s.rx.posted, s.done, s.cuts, es, max);
            Spans(r.out) == goal || (Spans(r.out) <= goal && OutOfDescs(r))
    decreases |es|
  {
    hide StrideInv, Turn, NextDesc, OutOfDescs, Spans, Fits, Handed;
    HandedIs(g.strides, s.rx.posted, s.done, s.cuts, es, max);
    if es != [] && max > 0 {
      TurnHandsOut(c, g, s, es[0]);
      TurnKeeps(c, g, s, es[0]);
      var (p, s1) := Turn(c, g, s, es[0]);
      if p.stride || p.wqe {
        var max' := if p.stride then max - 1 else max;
        TurnsHandOut(c, g, s1, es[1..], max');
        RestFits(c, g, s);
        var posted := if p.wqe then s.rx.posted[1..] else s.rx.posted;
        HandedMore(g.strides, posted, s1.rx.posted, s1.done, s1.cuts, es[1..], max');
        var now := if p.stride && es[0].accept then [Span(s.rx.posted[0], s.done, s.cuts[0].k)] else [];
        var rest := Handed(g.strides, posted, s1.done, s1.cuts, es[1..], max');
        AfterNow(Spans(s.out), now, rest);
      }
    }
  }

  lemma AfterNow(before: seq<Span>, now: seq<Span>, rest: seq<Span>)
    ensures before + now + rest == before + (now + rest)
  {
  }

  lemma HandedIs(strides: nat, posted: seq<Buf>, done: nat, cuts: seq<Cut>, es: seq<StrideChoice>, max: nat)
    ensures posted == [] || cuts == [] || es == [] || max == 0 ==> Handed(strides, posted, done, cuts, es, max) == []
    ensures posted != [] && cuts != [] && es != [] && max > 0 ==>
            var last := done + cuts[0].k >= strides;
            var posted', done' := if last then posted[1..] else posted, if last then 0 else done + cuts[0].k;
            Handed(strides, posted, done, cuts, es, max) ==
              if !cuts[0].filler then
                (if es[0].accept then [Span(posted[0], done, cuts[0].k)] else []) +
                Handed(strides, posted', done', cuts[1..], es[1..], max - 1)
              else if last then [] + Handed(strides, posted', done', cuts[1..], es[1..], max)
              else []
  {
  }

  /** A polling call that receives nothing pays what it owes as far as buffers can be had. */
  lemma StridePollPays(c: Config, g: Geometry, s: Strq, es: seq<StrideChoice>, max: nat, extra: seq<Buf>)
    requires StrideInv(c, g, s) && Turns(c, g, s, es, max).0 == 0
    ensures var r := StridePoll(c, g, s, es, max, extra); r.rx.debt == 0 || r.rx.pool == []
  {
    hide CountsExact, StridesApart, DescInv, Compensate, Turns;
    TurnsKeeps(c, g, s, es, max);
    CompensateFinds(c, Turns(c, g, s, es, max).1.rx, extra);
  }

  /** The cache of descriptors never reaches two batches, and nothing leaves it before. */
  lemma CacheBounded(g: Geometry, s: Strq, d: Buf)
    requires g.level >= 1 && |s.cache| < 2 * g.level
    ensures var r := GiveBack(g, s, d);
            && |r.cache| < 2 * g.level && multiset(r.cache) + multiset(r.spare) == multiset(s.cache) + multiset(s.spare) + multiset{d}
            && (|s.cache| + 1 < 2 * g.level ==> r.spare == s.spare)
            && (|s.cache| + 1 == 2 * g.level ==> |r.cache| == g.level)
  {
    var cache := s.cache + [d];
    PushContents(s.cache, d);
    if |cache| >= g.level * 2 { SplitContents(cache, g.level); }
  }

  /**
   Where a returned stride goes.  Through the queue its descriptor goes to the cache, and a buffer it was
   the last stride of to the pool of the queue; otherwise both go to the front of the global pools.
   */
  lemma ReturnGoes(g: Geometry, s: Strq, i: nat, viaQueue: bool)
    requires i < |s.out| && (RefOf(s.refs, s.out[i].rwqe) == s.out[i].k ==> s.out[i].rwqe in s.rx.upper)
    ensures var r, st := Return(g, s, i, viaQueue), s.out[i];
            var last := RefOf(s.refs, st.rwqe) == st.k;
            && r.out == s.out[..i] + s.out[i + 1..]
            && RefOf(r.refs, st.rwqe) == RefOf(s.refs, st.rwqe) - st.k
            && (!viaQueue ==> r.cache == s.cache && r.spare == [st.desc] + s.spare)
            && (viaQueue && |s.cache| + 1 < 2 * g.level ==> r.cache == s.cache + [st.desc] && r.spare == s.spare)
            && r.rx.pool == s.rx.pool + (if last && viaQueue then [st.rwqe] else [])
            && r.rx.global == (if last && !viaQueue then [st.rwqe] else []) + s.rx.global
            && (!last ==> r.rx == s.rx)
  {
    var w := s.out[i].rwqe;
    assert w in s.rx.upper ==> multiset([w]) <= s.rx.upper;
    assert [w][1..] == [] && Reversed([]) == [] && Reversed([w]) == [] + [w];
  }

  /** What is left of the completions fits in what is left of the entries. */
  lemma RestFits(c: Config, g: Geometry, s: Strq)
    requires StrideInv(c, g, s) && s.cuts != []
    ensures s.rx.posted != []
    ensures var last := s.done + s.cuts[0].k >= g.strides;
            Fits(g.strides, if last then 0 else s.done + s.cuts[0].k, s.cuts[1..],
                 |if last then s.rx.posted[1..] else s.rx.posted|)
  {
  }
}
