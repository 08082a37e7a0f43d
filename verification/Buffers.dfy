/**
 Buffer descriptors and the abstract free list of a buffer pool: what taking
 and returning buffers does to the list, head first.
 */
module Buffers {

  /** The address of a buffer descriptor; zero is the null pointer. */
  type Buf = nat

  datatype Got = Refused(free: seq<Buf>) | Granted(taken: seq<Buf>, free: seq<Buf>)

  /** Taking `count` buffers is all or nothing, and takes them from the head in order. */
  function Take(free: seq<Buf>, count: nat): Got
  {
    if |free| < count then Refused(free) else Granted(free[..count], free[count..])
  }

  function Elements(s: seq<Buf>): set<Buf>
  {
    set b | b in s
  }

  /** Buffers that a pool may add: real, distinct, and not in existence yet. */
  predicate Admissible(extra: seq<Buf>, created: set<Buf>)
  {
    && 0 !in extra
    && multiset(created + Elements(extra)) == multiset(created) + multiset(extra)
  }

  // The contents of a queue when it is split, popped or extended.

  lemma SplitContents(s: seq<Buf>, n: nat)
    requires n <= |s|
    ensures multiset(s) == multiset(s[..n]) + multiset(s[n..])
  {
    assert s == s[..n] + s[n..];
  }

  lemma PopContents(s: seq<Buf>)
    requires s != []
    ensures multiset(s) == multiset{s[0]} + multiset(s[1..])
  {
    assert s == [s[0]] + s[1..];
  }

  lemma PushContents(s: seq<Buf>, b: Buf)
    ensures multiset(s + [b]) == multiset(s) + multiset{b}
    ensures multiset([b] + s) == multiset(s) + multiset{b}
  {
  }

  lemma MemberCount(s: seq<Buf>, b: Buf)
    ensures b in s <==> multiset(s)[b] > 0
  {
  }

  function Reversed(s: seq<Buf>): seq<Buf>
  {
    if s == [] then [] else Reversed(s[1..]) + [s[0]]
  }

  lemma {:induction false} ReversedContents(s: seq<Buf>)
    ensures |Reversed(s)| == |s| && multiset(Reversed(s)) == multiset(s)
  {
    if s != [] {
      ReversedContents(s[1..]);
      PopContents(s);
    }
  }

  lemma {:induction false} ReversedSnoc(s: seq<Buf>, b: Buf)
    ensures Reversed(s + [b]) == [b] + Reversed(s)
  {
    if s == [] {
      assert (s + [b])[1..] == [];
    } else {
      ReversedSnoc(s[1..], b);
      assert (s + [b])[1..] == s[1..] + [b];
    }
  }
}
