/**
 The Internet checksum as the daemon computes it over packet headers: a plain sum
 of 16-bit words, folded twice and complemented; against the definition in
 sections 1 and 2 of RFC 1071, addition of words with end-around carry.
 */
module Checksum {
  import opened Bits
  import opened Sums

  type Bytes = seq<nat>

  const MAX16: nat := 0xFFFF
  const WIDE: nat := 0x1_0000

  /** The longest input for which two folds always suffice. */
  const LONGEST: nat := 131076

  ghost predicate AreBytes(s: Bytes)
  {
    forall i :: 0 <= i < |s| ==> s[i] < 256
  }

  ghost predicate AreWords(ws: seq<nat>)
  {
    forall i :: 0 <= i < |ws| ==> ws[i] <= MAX16
  }

  /** Memory read as little-endian words; a last odd byte is padded with zero. */
  function Words(s: Bytes): seq<nat>
  {
    if s == [] then [] else if |s| == 1 then [s[0]] else [s[0] + 256 * s[1]] + Words(s[2..])
  }

  /** The complement of the twice folded sum. */
  function Csum(s: Bytes): (c: nat)
    ensures c <= MAX16
  {
    MAX16 - Folded(Sum(Words(s)))
  }

  /** Carries added back twice; then the low sixteen bits. */
  function Folded(sum: nat): (r: nat)
    ensures r <= MAX16
  {
    var once := sum / WIDE + sum % WIDE;
    (once + once / WIDE) % WIDE
  }

  // ---------- one's complement arithmetic ----------

  function OnesAdd(a: nat, b: nat): nat
  {
    if a + b > MAX16 then a + b - MAX16 else a + b
  }

  function OnesSum(ws: seq<nat>): (r: nat)
    ensures AreWords(ws) ==> r <= MAX16
  {
    if ws == [] then 0 else OnesAdd(OnesSum(ws[1..]), ws[0])
  }

  /** The sum as a one's complement number: zero only when there is nothing to add. */
  function Norm(s: nat): (r: nat)
    ensures r <= MAX16 && (s > 0 ==> r > 0)
  {
    if s == 0 then 0 else (s - 1) % MAX16 + 1
  }

  lemma NormIs(s: nat, k: int, r: nat)
    requires s > 0 && s == MAX16 * k + r && 1 <= r <= MAX16
    ensures Norm(s) == r
  {
    DivModUnique(s - 1, MAX16, k, r - 1);
  }

  lemma NormQuotient(s: nat) returns (k: nat)
    requires s > 0
    ensures s == MAX16 * k + Norm(s)
  {
    k := (s - 1) / MAX16;
  }

  lemma {:induction false} OnesSumIsNorm(ws: seq<nat>)
    requires AreWords(ws)
    ensures OnesSum(ws) == Norm(Sum(ws))
  {
    if ws != [] {
      OnesSumIsNorm(ws[1..]);
      var s, w := Sum(ws[1..]), ws[0];
      if s == 0 {
        if w > 0 { NormIs(w, 0, w); }
      } else {
        var k := NormQuotient(s);
        if Norm(s) + w > MAX16 {
          NormIs(s + w, k + 1, Norm(s) + w - MAX16);
        } else {
          NormIs(s + w, k, Norm(s) + w);
        }
      }
    }
  }

  /** Two folds give the one's complement sum unless the first leaves all of seventeen bits set. */
  lemma FoldExact(sum: nat)
    requires sum / WIDE + sum % WIDE <= 0x1_FFFF
    ensures Folded(sum) == Norm(sum) <==> sum / WIDE + sum % WIDE != 0x1_FFFF
  {
    var q, r := sum / WIDE, sum % WIDE;
    var once := q + r;
    if once == 0 {
    } else if once <= MAX16 {
      NormIs(sum, q, once);
    } else {
      assert once / WIDE == 1;
      if once < 0x1_FFFF {
        NormIs(sum, q + 1, once - MAX16);
      }
    }
  }

  // ---------- sums of words and bytes ----------

  lemma {:induction false} WordsBound(s: Bytes)
    requires AreBytes(s)
    ensures AreWords(Words(s)) && 2 * Sum(Words(s)) <= MAX16 * |s| && |Words(s)| == (|s| + 1) / 2
  {
    if |s| >= 2 { WordsBound(s[2..]); }
  }

  /** For every input up to the limit the result is the complement of the one's complement sum. */
  lemma CsumExact(s: Bytes)
    requires AreBytes(s) && |s| <= LONGEST
    ensures Csum(s) == MAX16 - OnesSum(Words(s))
  {
    WordsBound(s);
    OnesSumIsNorm(Words(s));
    FoldExact(Sum(Words(s)));
  }

  /** Beyond it there is, at every length, an input that comes out wrong. */
  function Bad(n: nat): (s: Bytes)
    ensures |s| == n && AreBytes(s)
  {
    seq(n, i => if i < LONGEST then 255 else if i == LONGEST then 1 else 0)
  }

  lemma {:induction false} SumOfOnes(s: Bytes, m: nat)
    requires m <= |s| && m % 2 == 0 && forall i :: 0 <= i < m ==> s[i] == 255
    ensures 2 * Sum(Words(s)) == MAX16 * m + 2 * Sum(Words(s[m..]))
    decreases m
  {
    if m == 0 {
      assert s[0..] == s;
    } else {
      SumOfOnes(s[2..], m - 2);
      assert s[2..][m - 2..] == s[m..];
    }
  }

  lemma {:induction false} SumOfZeros(s: Bytes)
    requires forall i :: 0 <= i < |s| ==> s[i] == 0
    ensures Sum(Words(s)) == 0
  {
    if |s| >= 2 { SumOfZeros(s[2..]); }
  }

  lemma CsumWrong(n: nat)
    requires n > LONGEST
    ensures Csum(Bad(n)) != MAX16 - OnesSum(Words(Bad(n)))
  {
    var s := Bad(n);
    var rest := s[LONGEST..];
    SumOfOnes(s, LONGEST);
    assert rest[0] == 1;
    if |rest| >= 2 { SumOfZeros(rest[2..]); }
    assert Sum(Words(rest)) == 1;
    WordsBound(s);
    OnesSumIsNorm(Words(s));
    FoldExact(Sum(Words(s)));
  }

  // ---------- what the checksum is for ----------

  lemma {:induction false} WordsUpdate(s: Bytes, i: nat, c: nat)
    requires 2 * i + 1 < |s| && c <= MAX16
    ensures |Words(s)| > i
    ensures Words(s[2 * i := c % 256][2 * i + 1 := c / 256]) == Words(s)[i := c]
  {
    var t := s[2 * i := c % 256][2 * i + 1 := c / 256];
    if i == 0 {
      assert t[2..] == s[2..];
    } else {
      WordsUpdate(s[2..], i - 1, c);
      assert t[2..] == s[2..][2 * (i - 1) := c % 256][2 * (i - 1) + 1 := c / 256];
    }
  }

  lemma Completes(sum: nat)
    ensures Norm(sum + (MAX16 - Norm(sum))) == MAX16
  {
    if sum > 0 {
      var k := NormQuotient(sum);
      NormIs(sum + (MAX16 - Norm(sum)), k, MAX16);
    } else {
      NormIs(MAX16, 0, MAX16);
    }
  }

  /** Storing the checksum in its zeroed field makes the whole verify. */
  lemma StoredVerifies(s: Bytes, i: nat)
    requires AreBytes(s) && |s| <= LONGEST && 2 * i + 1 < |s| && s[2 * i] == 0 && s[2 * i + 1] == 0
    ensures var c := Csum(s); Csum(s[2 * i := c % 256][2 * i + 1 := c / 256]) == 0
  {
    hide Words, Sum, Norm, OnesSum, Folded;
    var c := Csum(s);
    var t := s[2 * i := c % 256][2 * i + 1 := c / 256];
    CsumNorm(s);
    CsumNorm(t);
    WordsUpdate(s, i, 0);
    assert s[2 * i := 0][2 * i + 1 := 0] == s;
    WordsUpdate(s, i, c);
    SumUpdate(Words(s), i, c);
    Completes(Sum(Words(s)));
  }

  lemma CsumNorm(s: Bytes)
    requires AreBytes(s) && |s| <= LONGEST
    ensures Csum(s) == MAX16 - Norm(Sum(Words(s)))
  {
    CsumExact(s);
    WordsBound(s);
    OnesSumIsNorm(Words(s));
  }

  /** The order of the words does not matter. */
  lemma {:induction false} SumOfMultiset(a: seq<nat>, b: seq<nat>)
    requires multiset(a) == multiset(b)
    ensures Sum(a) == Sum(b)
  {
    if a == [] {
      assert |b| == |multiset(b)| == |multiset(a)| == 0;
    } else {
      assert a[0] in multiset(b);
      var i :| 0 <= i < |b| && b[i] == a[0];
      TakeOut(a, 0);
      TakeOut(b, i);
      Cancel(a[0], a[..0] + a[1..], b[..i] + b[i + 1..]);
      SumOfMultiset(a[..0] + a[1..], b[..i] + b[i + 1..]);
    }
  }

  lemma Cancel(x: nat, a: seq<nat>, b: seq<nat>)
    requires multiset{x} + multiset(a) == multiset{x} + multiset(b)
    ensures multiset(a) == multiset(b)
  {
    assert multiset(a) == multiset{x} + multiset(a) - multiset{x};
    assert multiset(b) == multiset{x} + multiset(b) - multiset{x};
  }

  lemma TakeOut(s: seq<nat>, i: nat)
    requires i < |s|
    ensures Sum(s) == s[i] + Sum(s[..i] + s[i + 1..])
    ensures multiset(s) == multiset{s[i]} + multiset(s[..i] + s[i + 1..])
  {
    hide Sum;
    var a, x, b := s[..i], s[i], s[i + 1..];
    assert s == a + [x] + b;
    SumConcat(a, b);
    SumSnoc(a, x);
    SumConcat(a + [x], b);
    Contents(a, x, b);
  }

  lemma Contents(a: seq<nat>, x: nat, b: seq<nat>)
    ensures multiset(a + [x] + b) == multiset{x} + multiset(a + b)
  {
  }

  lemma OrderIrrelevant(s: Bytes, t: Bytes)
    requires multiset(Words(s)) == multiset(Words(t))
    ensures Csum(s) == Csum(t)
  {
    SumOfMultiset(Words(s), Words(t));
  }

  // ---------- byte order ----------

  function Swap(w: nat): nat
    requires w <= MAX16
  {
    w % 256 * 256 + w / 256
  }

  function SwapAll(ws: seq<nat>): (r: seq<nat>)
    requires AreWords(ws)
    ensures |r| == |ws| && AreWords(r)
  {
    if ws == [] then [] else [Swap(ws[0])] + SwapAll(ws[1..])
  }

  lemma {:induction false} SwapSum(ws: seq<nat>) returns (k: nat)
    requires AreWords(ws)
    ensures 256 * Sum(ws) == Sum(SwapAll(ws)) + MAX16 * k
    ensures Sum(ws) > 0 ==> Sum(SwapAll(ws)) > 0
  {
    if ws == [] {
      k := 0;
    } else {
      var j := SwapSum(ws[1..]);
      k := j + ws[0] / 256;
      assert SwapAll(ws)[1..] == SwapAll(ws[1..]);
    }
  }

  /** A machine of the other byte order gets the same two bytes in memory (section 2(B) of RFC 1071). */
  lemma ByteOrderIrrelevant(ws: seq<nat>)
    requires AreWords(ws)
    ensures OnesSum(SwapAll(ws)) == Swap(OnesSum(ws))
  {
    OnesSumIsNorm(ws);
    OnesSumIsNorm(SwapAll(ws));
    var j := SwapSum(ws);
    var sum, r := Sum(ws), Norm(Sum(ws));
    if sum > 0 {
      var k := NormQuotient(sum);
      NormIs(Sum(SwapAll(ws)), 256 * k + r / 256 - j, Swap(r));
    }
  }

  // ---------- the code ----------

  /** The daemon's loop over a header in memory. */
  method CalcCsum(s: Bytes) returns (answer: nat)
    requires AreBytes(s)
    ensures answer == Csum(s)
  {
    var sum, at, nbytes := 0, 0, |s|;
    assert s[0..] == s;
    while nbytes > 1
      invariant 0 <= at && at + nbytes == |s| && nbytes >= 0
      invariant sum + Sum(Words(s[at..])) == Sum(Words(s))
    {
      assert s[at..][2..] == s[at + 2..];
      sum := sum + s[at] + 256 * s[at + 1];
      at, nbytes := at + 2, nbytes - 2;
    }
    if nbytes == 1 {
      sum := sum + s[at];
    }
    sum := sum / WIDE + sum % WIDE;
    sum := sum + sum / WIDE;
    answer := MAX16 - sum % WIDE;
  }
}
