/**
 * The two sequence operations of JavaScript that the reducer relies on:
 * `slice` (with its negative, clamped indices) and `filter`.
 */
module Sequences {

  /** How `slice` turns a relative index into a position in a sequence of length `len`. */
  function SliceIndex(len: nat, rel: int): (k: nat)
    ensures k <= len
    ensures rel < 0 ==> k == if len + rel < 0 then 0 else len + rel
    ensures rel >= 0 ==> k == if rel < len then rel else len
  {
    if rel < 0 then (if len + rel < 0 then 0 else len + rel)
    else (if rel < len then rel else len)
  }

  /** `s.slice(start, end)`: the elements from `start` up to, not including, `end`. */
  function Slice<T>(s: seq<T>, start: int, end: int): (r: seq<T>)
    ensures |r| <= |s|
  {
    var from := SliceIndex(|s|, start);
    var to := SliceIndex(|s|, end);
    if from < to then s[from..to] else []
  }

  /** `s.slice(start)`: everything from `start` on. */
  function SliceFrom<T>(s: seq<T>, start: int): (r: seq<T>)
    ensures |r| <= |s|
  {
    Slice(s, start, |s|)
  }

  /** `s.slice(0, -1)` drops the last element, and leaves the empty sequence empty. */
  lemma SliceDropLast<T>(s: seq<T>)
    ensures s == [] ==> Slice(s, 0, -1) == []
    ensures s != [] ==> Slice(s, 0, -1) + [s[|s| - 1]] == s
  {
    if s != [] {
      assert Slice(s, 0, -1) == s[..|s| - 1];
    }
  }

  /** `s.filter(p)`: the elements that satisfy `p`, in their original order. */
  function Filter<T>(s: seq<T>, p: T -> bool): (r: seq<T>)
    ensures |r| <= |s|
  {
    if s == [] then []
    else (if p(s[0]) then [s[0]] else []) + Filter(s[1..], p)
  }

  /** The filter keeps only elements of the input that satisfy the predicate, and every such element. */
  lemma {:induction false} FilterMembers<T>(s: seq<T>, p: T -> bool)
    ensures forall i :: 0 <= i < |Filter(s, p)| ==> Filter(s, p)[i] in s && p(Filter(s, p)[i])
    ensures forall i :: 0 <= i < |s| && p(s[i]) ==> s[i] in Filter(s, p)
  {
    if s != [] {
      FilterMembers(s[1..], p);
      var h := if p(s[0]) then [s[0]] else [];
      var t := Filter(s[1..], p);
      assert Filter(s, p) == h + t;
      forall i | 0 <= i < |Filter(s, p)|
        ensures Filter(s, p)[i] in s && p(Filter(s, p)[i])
      {
        if i >= |h| {
          assert Filter(s, p)[i] == t[i - |h|];
        }
      }
      forall i | 0 <= i < |s| && p(s[i])
        ensures s[i] in Filter(s, p)
      {
        if i > 0 {
          assert s[i] == s[1..][i - 1];
        }
      }
    }
  }

  /** Filtering distributes over concatenation: the order of the kept elements is the original one. */
  lemma {:induction false} FilterConcat<T>(a: seq<T>, b: seq<T>, p: T -> bool)
    ensures Filter(a + b, p) == Filter(a, p) + Filter(b, p)
  {
    if a == [] {
      assert a + b == b;
    } else {
      var h := if p(a[0]) then [a[0]] else [];
      assert (a + b)[0] == a[0];
      assert (a + b)[1..] == a[1..] + b;
      assert Filter(a + b, p) == h + Filter(a[1..] + b, p);
      FilterConcat(a[1..], b, p);
      ConcatAssoc(h, Filter(a[1..], p), Filter(b, p));
    }
  }

  /** Concatenation is associative; stated once so that proofs can name the step. */
  lemma ConcatAssoc<T>(a: seq<T>, b: seq<T>, c: seq<T>)
    ensures (a + b) + c == a + (b + c)
  {
  }

  /** A filter that keeps every element is the identity. */
  lemma {:induction false} FilterKeepsAll<T>(s: seq<T>, p: T -> bool)
    requires forall i :: 0 <= i < |s| ==> p(s[i])
    ensures Filter(s, p) == s
  {
    if s != [] {
      FilterKeepsAll(s[1..], p);
    }
  }

  /** A filter that keeps no element yields the empty sequence. */
  lemma {:induction false} FilterKeepsNone<T>(s: seq<T>, p: T -> bool)
    requires forall i :: 0 <= i < |s| ==> !p(s[i])
    ensures Filter(s, p) == []
  {
    if s != [] {
      FilterKeepsNone(s[1..], p);
    }
  }

  /** Filtering twice by the same predicate is filtering once. */
  lemma FilterIdempotent<T>(s: seq<T>, p: T -> bool)
    ensures Filter(Filter(s, p), p) == Filter(s, p)
  {
    FilterMembers(s, p);
    FilterKeepsAll(Filter(s, p), p);
  }

  /** Two filters can be applied in either order. */
  lemma {:induction false} FilterCommute<T>(s: seq<T>, p: T -> bool, q: T -> bool)
    ensures Filter(Filter(s, p), q) == Filter(Filter(s, q), p)
  {
    if s != [] {
      var h := [s[0]];
      assert s == h + s[1..];
      FilterConcat(if p(s[0]) then h else [], Filter(s[1..], p), q);
      FilterConcat(if q(s[0]) then h else [], Filter(s[1..], q), p);
      FilterCommute(s[1..], p, q);
    }
  }

  /** How many times each value occurs after a filter. */
  lemma {:induction false} FilterMultiset<T>(s: seq<T>, p: T -> bool)
    ensures forall x :: multiset(Filter(s, p))[x] == if p(x) then multiset(s)[x] else 0
  {
    if s != [] {
      FilterMultiset(s[1..], p);
      assert s == [s[0]] + s[1..];
      assert multiset(s) == multiset{s[0]} + multiset(s[1..]);
    }
  }

  /** Rearranging the input rearranges the output: permutations have equal filters up to order. */
  lemma FilterPermutation<T>(a: seq<T>, b: seq<T>, p: T -> bool)
    requires multiset(a) == multiset(b)
    ensures multiset(Filter(a, p)) == multiset(Filter(b, p))
    ensures |Filter(a, p)| == |Filter(b, p)|
  {
    var fa, fb := Filter(a, p), Filter(b, p);
    FilterMultiset(a, p);
    FilterMultiset(b, p);
    forall x
      ensures multiset(fa)[x] == multiset(fb)[x]
    {
      assert multiset(a)[x] == multiset(b)[x];
    }
    MultisetExtensionality(multiset(fa), multiset(fb));
    assert |multiset(fa)| == |fa| && |multiset(fb)| == |fb|;
  }

  /** The elements of a non-empty sequence are its head and the elements of its tail. */
  lemma MultisetHead<T>(s: seq<T>)
    requires s != []
    ensures multiset(s) == multiset{s[0]} + multiset(s[1..])
  {
    assert s == [s[0]] + s[1..];
  }

  /** The elements of a non-empty sequence are its last element and the elements before it. */
  lemma MultisetLast<T>(s: seq<T>)
    requires s != []
    ensures multiset(s) == multiset(s[..|s| - 1]) + multiset{s[|s| - 1]}
  {
    assert s == s[..|s| - 1] + [s[|s| - 1]];
  }

  /** Multisets with the same count for every value are equal. */
  lemma MultisetExtensionality<T>(m: multiset<T>, n: multiset<T>)
    requires forall x :: m[x] == n[x]
    ensures m == n
  {
  }

  /** Sequences that agree on the predicate position by position keep equally many elements. */
  lemma {:induction false} FilterLengthPointwise<T, U>(a: seq<T>, p: T -> bool, b: seq<U>, q: U -> bool)
    requires |a| == |b|
    requires forall i :: 0 <= i < |a| ==> p(a[i]) == q(b[i])
    ensures |Filter(a, p)| == |Filter(b, q)|
  {
    if a != [] {
      FilterLengthPointwise(a[1..], p, b[1..], q);
    }
  }
}
