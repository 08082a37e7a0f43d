/**
 Cycle detection on a linked list whose links may be corrupt: a quick test, and
 the full search for where a cycle starts and how long it is.
 */
module CycleFinding {
  import opened Bits
  import opened Buffers

  const MAX_STEPS: nat := 0x100_0000

  /** Nodes link to nodes of the structure, or to nothing (zero). */
  ghost predicate Closed(next: map<Buf, Buf>)
  {
    0 !in next && forall x :: x in next ==> next[x] == 0 || next[x] in next
  }

  /** The node `k` links behind `x`; nothing follows the end of a list. */
  function Walk(next: map<Buf, Buf>, x: Buf, k: nat): Buf
  {
    if k == 0 then x
    else
      var y := Walk(next, x, k - 1);
      if y in next then next[y] else 0
  }

  ghost predicate Endless(next: map<Buf, Buf>, x: Buf)
  {
    forall k: nat :: Walk(next, x, k) != 0
  }

  /**
   The walk from `x` is a stem of `mu` nodes and then a cycle of `lambda`: the first mu + lambda
   nodes differ and the next is the one at mu.
   */
  ghost predicate Rho(next: map<Buf, Buf>, x: Buf, mu: nat, lambda: nat)
  {
    && lambda >= 1
    && Walk(next, x, mu) == Walk(next, x, mu + lambda) != 0
    && Differ(next, x, mu + lambda)
  }

  ghost predicate Differ(next: map<Buf, Buf>, x: Buf, n: nat)
  {
    forall i: nat, j: nat {:trigger Walk(next, x, i), Walk(next, x, j)} ::
      i < j < n ==> Walk(next, x, i) != Walk(next, x, j)
  }

  lemma {:induction false} WalkIn(next: map<Buf, Buf>, x: Buf, k: nat)
    requires Closed(next) && x in next
    ensures Walk(next, x, k) == 0 || Walk(next, x, k) in next
  {
    if k > 0 { WalkIn(next, x, k - 1); }
  }

  lemma {:induction false} WalkOn(next: map<Buf, Buf>, x: Buf, i: nat, j: nat, k: nat)
    requires Walk(next, x, i) == Walk(next, x, j)
    ensures Walk(next, x, i + k) == Walk(next, x, j + k)
  {
    if k > 0 { WalkOn(next, x, i, j, k - 1); }
  }

  lemma {:induction false} EndStays(next: map<Buf, Buf>, x: Buf, i: nat, k: nat)
    requires Closed(next) && Walk(next, x, i) == 0
    ensures Walk(next, x, i + k) == 0
  {
    if k > 0 { EndStays(next, x, i, k - 1); }
  }

  /** A node met again, and again after every further round. */
  lemma {:induction false} Rounds(next: map<Buf, Buf>, x: Buf, i: nat, l: nat, q: nat)
    requires Walk(next, x, i) == Walk(next, x, i + l)
    ensures q * l >= 0 && Walk(next, x, i + q * l) == Walk(next, x, i)
  {
    if q > 0 {
      Rounds(next, x, i, l, q - 1);
      WalkOn(next, x, i, i + l, (q - 1) * l);
      assert i + l + (q - 1) * l == i + q * l;
    }
  }

  lemma MetAgainIsEndless(next: map<Buf, Buf>, x: Buf, i: nat, l: nat)
    requires Closed(next) && l >= 1 && Walk(next, x, i) == Walk(next, x, i + l) != 0
    ensures Endless(next, x)
  {
    forall k: nat
      ensures Walk(next, x, k) != 0
    {
      if Walk(next, x, k) == 0 {
        Rounds(next, x, i, l, k);
        Scale(l, k + 1);
        assert k * l >= k;
        EndStays(next, x, k, i + k * l - k);
      }
    }
  }

  // ---------- the shape of a walk ----------

  /** The first occurrence of the node at index `i`. */
  function Fold(i: nat, mu: nat, lambda: nat): nat
    requires lambda >= 1
  {
    if i < mu then i else mu + Wrap(i - mu, lambda)
  }

  lemma {:induction false} FoldSame(next: map<Buf, Buf>, x: Buf, mu: nat, lambda: nat, i: nat)
    requires Rho(next, x, mu, lambda)
    ensures Walk(next, x, i) == Walk(next, x, Fold(i, mu, lambda))
  {
    if i >= mu + lambda {
      FoldSame(next, x, mu, lambda, i - lambda);
      WalkOn(next, x, mu, mu + lambda, i - lambda - mu);
    }
  }

  /** Indices of the same node: both on the cycle, whole rounds apart. */
  lemma SameNode(next: map<Buf, Buf>, x: Buf, mu: nat, lambda: nat, i: nat, j: nat)
    requires Rho(next, x, mu, lambda) && i < j
    ensures Walk(next, x, i) == Walk(next, x, j) <==> mu <= i && Wrap(j - i, lambda) == 0
  {
    FoldSame(next, x, mu, lambda, i);
    FoldSame(next, x, mu, lambda, j);
    var a, b := Fold(i, mu, lambda), Fold(j, mu, lambda);
    if i >= mu {
      WrapSame(i - mu, j - mu, lambda);
    }
    assert a != b ==> Walk(next, x, a) != Walk(next, x, b);
  }

  /** The stem and the cycle are the shortest possible: no earlier node is met again, none sooner. */
  lemma RhoLeast(next: map<Buf, Buf>, x: Buf, mu: nat, lambda: nat, i: nat, j: nat)
    requires Rho(next, x, mu, lambda) && i < j && Walk(next, x, i) == Walk(next, x, j)
    ensures mu <= i && lambda <= j - i
  {
    SameNode(next, x, mu, lambda, i, j);
  }

  function Nodes(next: map<Buf, Buf>, x: Buf, n: nat): set<Buf>
  {
    if n == 0 then {} else Nodes(next, x, n - 1) + {Walk(next, x, n - 1)}
  }

  lemma {:induction false} NodesCount(next: map<Buf, Buf>, x: Buf, n: nat)
    requires Closed(next) && x in next && Differ(next, x, n)
    requires forall k: nat :: k < n ==> Walk(next, x, k) != 0
    ensures |Nodes(next, x, n)| == n && Nodes(next, x, n) <= next.Keys
  {
    if n > 0 {
      NodesCount(next, x, n - 1);
      WalkIn(next, x, n - 1);
      NotYet(next, x, n - 1, Walk(next, x, n - 1));
    }
  }

  lemma {:induction false} NotYet(next: map<Buf, Buf>, x: Buf, n: nat, y: Buf)
    requires forall k: nat :: k < n ==> Walk(next, x, k) != y
    ensures y !in Nodes(next, x, n)
  {
    if n > 0 { NotYet(next, x, n - 1, y); }
  }

  lemma {:induction false} SubsetSize(a: set<Buf>, b: set<Buf>)
    requires a <= b
    ensures |a| <= |b|
  {
    if a != {} {
      var x :| x in a;
      SubsetSize(a - {x}, b - {x});
    }
  }

  /** A walk that outlasts the number of nodes has met a node again. */
  lemma FindRho(next: map<Buf, Buf>, x: Buf) returns (mu: nat, lambda: nat)
    requires Closed(next) && x in next
    requires forall k: nat :: k <= |next| ==> Walk(next, x, k) != 0
    ensures Rho(next, x, mu, lambda) && mu + lambda <= |next|
  {
    var j: nat := 0;
    while true
      invariant j <= |next| && Differ(next, x, j)
      decreases |next| - j
    {
      if i: nat :| i < j && Walk(next, x, i) == Walk(next, x, j) {
        return i, j - i;
      }
      assert Differ(next, x, j + 1);
      NodesCount(next, x, j + 1);
      SubsetSize(Nodes(next, x, j + 1), next.Keys);
      j := j + 1;
    }
  }

  /** A walk either ends or has the shape of a stem and a cycle. */
  lemma EndlessIsRho(next: map<Buf, Buf>, x: Buf)
    requires Closed(next) && x in next
    ensures Endless(next, x) <==> exists mu: nat, lambda: nat :: Rho(next, x, mu, lambda)
  {
    if Endless(next, x) {
      var mu, lambda := FindRho(next, x);
    }
    if mu: nat, lambda: nat :| Rho(next, x, mu, lambda) {
      MetAgainIsEndless(next, x, mu, lambda);
    }
  }

  /** On the cycle there is an index that counts whole rounds: there the slow and the fast walker meet. */
  lemma MeetingPoint(next: map<Buf, Buf>, x: Buf, mu: nat, lambda: nat) returns (t: nat)
    requires Rho(next, x, mu, lambda)
    ensures 1 <= t <= mu + lambda && Walk(next, x, t) == Walk(next, x, 2 * t)
  {
    if mu == 0 {
      t := lambda;
    } else {
      WrapToEnd(mu, lambda);
      t := if Wrap(mu, lambda) == 0 then mu else mu + (lambda - Wrap(mu, lambda));
    }
    SameNode(next, x, mu, lambda, t, 2 * t);
  }

  lemma MeetsInTime(next: map<Buf, Buf>, x: Buf, n: nat)
    requires Closed(next) && x in next && n >= |next|
    requires forall k: nat :: k <= n ==> Walk(next, x, k) != 0
    ensures exists t: nat :: 1 <= t <= |next| && Walk(next, x, t) == Walk(next, x, 2 * t)
  {
    var mu, lambda := FindRho(next, x);
    var t := MeetingPoint(next, x, mu, lambda);
  }

  // ---------- the algorithms ----------

  /** Does following the links from `x` go round for ever? */
  method IsCircle(next: map<Buf, Buf>, x: Buf) returns (r: bool)
    requires Closed(next) && (x == 0 || x in next)
    ensures r <==> Endless(next, x)
  {
    if x == 0 {
      assert Walk(next, x, 0) == 0;
      return false;
    }
    var p1, p2 := x, x;
    ghost var i: nat := 0;
    while next[p2] != 0 && next[next[p2]] != 0
      invariant p1 == Walk(next, x, i) && p2 == Walk(next, x, 2 * i) && p1 in next && p2 in next
      invariant forall k: nat :: k <= 2 * i ==> Walk(next, x, k) != 0
      invariant forall t: nat :: 1 <= t <= i ==> Walk(next, x, t) != Walk(next, x, 2 * t)
      decreases |next| - i
    {
      if i >= |next| {
        MeetsInTime(next, x, i);
      }
      TwoSteps(next, x, i);
      WalkIn(next, x, i + 1);
      p1, p2, i := next[p1], next[next[p2]], i + 1;
      if p1 == p2 {
        MetAgainIsEndless(next, x, i, i);
        return true;
      }
    }
    assert Walk(next, x, 2 * i + 1) == 0 || Walk(next, x, 2 * i + 2) == 0;
    return false;
  }

  lemma TwoSteps(next: map<Buf, Buf>, x: Buf, i: nat)
    requires Walk(next, x, 2 * i) in next && next[Walk(next, x, 2 * i)] in next
    ensures Walk(next, x, 2 * i + 1) == next[Walk(next, x, 2 * i)]
    ensures Walk(next, x, 2 * (i + 1)) == next[next[Walk(next, x, 2 * i)]]
  {
    assert 2 * (i + 1) == 2 * i + 2;
  }

  /** First phase: the fast walker catches up with the slow one. */
  method Meet(next: map<Buf, Buf>, x: Buf) returns (node: Buf, ghost t: nat)
    requires Closed(next) && x in next && Endless(next, x)
    ensures t >= 1 && node == Walk(next, x, t) == Walk(next, x, 2 * t)
  {
    WalkIn(next, x, 1);
    WalkIn(next, x, 2);
    node, t := next[x], 1;
    var hare := next[next[x]];
    while node != hare
      invariant t >= 1 && node == Walk(next, x, t) && hare == Walk(next, x, 2 * t)
      invariant forall s: nat :: 1 <= s < t ==> Walk(next, x, s) != Walk(next, x, 2 * s)
      invariant node in next && hare in next
      decreases |next| - t
    {
      if t >= |next| {
        MeetsInTime(next, x, t);
      }
      WalkIn(next, x, t + 1);
      WalkIn(next, x, 2 * t + 1);
      TwoSteps(next, x, t);
      WalkIn(next, x, 2 * (t + 1));
      node, hare, t := next[node], next[next[hare]], t + 1;
    }
  }

  function Cap(n: nat): nat
  {
    if n <= MAX_STEPS + 1 then n else MAX_STEPS + 1
  }

  /** Second phase: from the start and from the meeting point, in step, to the first node of the cycle. */
  method FindStart(next: map<Buf, Buf>, x: Buf, node: Buf, ghost t: nat, ghost m: nat, ghost l: nat)
    returns (mu: nat, entry: Buf)
    requires Closed(next) && x in next && Endless(next, x) && Rho(next, x, m, l)
    requires t >= 1 && node == Walk(next, x, t) == Walk(next, x, 2 * t)
    ensures mu == Cap(m) && entry == Walk(next, x, mu)
  {
    hide Rho;
    SameNode(next, x, m, l, t, 2 * t);
    var hare := node;
    mu, entry := 0, x;
    WalkIn(next, x, t);
    SameNode(next, x, m, l, 0, t);
    while entry != hare
      invariant entry == Walk(next, x, mu) && hare == Walk(next, x, t + mu) && entry in next && hare in next
      invariant mu <= m && mu <= MAX_STEPS && (entry == hare <==> mu == m)
      decreases m - mu
    {
      WalkIn(next, x, mu + 1);
      WalkIn(next, x, t + mu + 1);
      SameNode(next, x, m, l, mu + 1, t + mu + 1);
      entry, hare, mu := next[entry], next[hare], mu + 1;
      if mu > MAX_STEPS {
        break;
      }
    }
  }

  /** Third phase: once round, from the node found. */
  method FindLength(next: map<Buf, Buf>, x: Buf, entry: Buf, ghost at: nat, ghost m: nat, ghost l: nat)
    returns (lambda: nat)
    requires Closed(next) && x in next && Endless(next, x) && Rho(next, x, m, l)
    requires entry == Walk(next, x, at) && at <= m
    ensures lambda == if at == m then Cap(l) else MAX_STEPS + 1
  {
    WalkIn(next, x, at);
    WalkIn(next, x, at + 1);
    lambda := 1;
    var hare := next[entry];
    SameNode(next, x, m, l, at, at + 1);
    while entry != hare
      invariant hare == Walk(next, x, at + lambda) && hare in next && 1 <= lambda <= MAX_STEPS
      invariant entry == hare <==> at == m && Wrap(lambda, l) == 0
      invariant at == m ==> lambda <= l
      decreases MAX_STEPS - lambda
    {
      WalkIn(next, x, at + lambda + 1);
      SameNode(next, x, m, l, at, at + lambda + 1);
      hare, lambda := next[hare], lambda + 1;
      if lambda > MAX_STEPS {
        break;
      }
    }
  }

  lemma RhoUnique(next: map<Buf, Buf>, x: Buf, m: nat, l: nat, mu: nat, lambda: nat)
    requires Rho(next, x, m, l) && Rho(next, x, mu, lambda)
    ensures m == mu && l == lambda
  {
    RhoLeast(next, x, m, l, mu, mu + lambda);
    RhoLeast(next, x, mu, lambda, m, m + l);
  }

  /**
   Index of the cycle's first node, and the cycle's length.  A safety limit stops either count one
   past 2^24: the start is exact up to that limit, and the length is exact when both are, or when it
   is the limit itself.
   */
  method FloydCircleInfo(next: map<Buf, Buf>, x: Buf) returns (mu: nat, lambda: nat)
    requires Closed(next) && x in next && Endless(next, x)
    ensures forall m: nat, l: nat :: Rho(next, x, m, l) ==>
              && (mu == m <==> m <= MAX_STEPS + 1) && mu == Cap(m)
              && (lambda == l <==> (m <= MAX_STEPS + 1 && l <= MAX_STEPS + 1) || l == MAX_STEPS + 1)
              && (m <= MAX_STEPS + 1 ==> lambda == Cap(l))
  {
    ghost var m, l := FindRho(next, x);
    forall m0: nat, l0: nat | Rho(next, x, m0, l0)
      ensures m0 == m && l0 == l
    {
      RhoUnique(next, x, m, l, m0, l0);
    }
    var node, t := Meet(next, x);
    var entry;
    mu, entry := FindStart(next, x, node, t, m, l);
    lambda := FindLength(next, x, entry, mu, m, l);
  }
}
