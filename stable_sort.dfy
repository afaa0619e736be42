/**
 * `Array.prototype.sort` with the comparator `(a, b) => key(b) - key(a)`:
 * a stable sort into non-increasing order of an integer key. The sort is
 * specified by three properties (ordered, a permutation, and every class of
 * equal keys keeps its order), which determine its result uniquely.
 */
module StableSort {
  import opened Sequences

  predicate SortedDesc<T>(s: seq<T>, key: T -> int) {
    forall i, j :: 0 <= i < j < |s| ==> key(s[i]) >= key(s[j])
  }

  /** The test "has key `v`", as one named value so that every use is the same function. */
  function HasKey<T>(key: T -> int, v: int): (p: T -> bool) {
    x => key(x) == v
  }

  /** The elements whose key is `v`, in the order they appear. */
  function KeyClass<T>(s: seq<T>, key: T -> int, v: int): (r: seq<T>) {
    Filter(s, HasKey(key, v))
  }

  /** Insert `x` into a sorted sequence after every element whose key is at least `x`'s. */
  function Insert<T>(s: seq<T>, x: T, key: T -> int): (r: seq<T>)
    requires SortedDesc(s, key)
    ensures multiset(r) == multiset(s) + multiset{x}
    ensures SortedDesc(r, key)
  {
    if s == [] then [x]
    else if key(s[0]) >= key(x) then
      var t := Insert(s[1..], x, key);
      MultisetHead(s);
      SortedCons(s, x, t, key);
      [s[0]] + t
    else [x] + s
  }

  /** Putting the head of `s` in front of a sorted rearrangement `t` of `s`'s tail and `x` keeps it sorted. */
  lemma SortedCons<T>(s: seq<T>, x: T, t: seq<T>, key: T -> int)
    requires s != [] && SortedDesc(s, key) && key(s[0]) >= key(x)
    requires SortedDesc(t, key) && multiset(t) == multiset(s[1..]) + multiset{x}
    ensures SortedDesc([s[0]] + t, key)
  {
    forall i | 0 <= i < |t|
      ensures key(s[0]) >= key(t[i])
    {
      assert t[i] in multiset(t);
      if t[i] != x {
        assert t[i] in s[1..];
        var j :| 0 <= j < |s[1..]| && s[1..][j] == t[i];
        assert s[j + 1] == t[i];
      }
    }
  }

  /** The stable sort: insert the elements one by one, first to last. */
  function Sort<T>(s: seq<T>, key: T -> int): (r: seq<T>)
    ensures multiset(r) == multiset(s)
    ensures SortedDesc(r, key)
  {
    if s == [] then []
    else
      assert s == s[..|s| - 1] + [s[|s| - 1]];
      Insert(Sort(s[..|s| - 1], key), s[|s| - 1], key)
  }

  /** The elements of a sorted sequence with a key above `key(x)` all come before it. */
  lemma SortedAbove<T>(s: seq<T>, x: T, key: T -> int)
    requires SortedDesc(s, key) && s != [] && key(s[0]) < key(x)
    ensures forall i :: 0 <= i < |s| ==> !HasKey(key, key(x))(s[i])
  {
  }

  /** Filtering a sequence with a known first element. */
  lemma FilterCons<T>(h: T, t: seq<T>, p: T -> bool)
    ensures Filter([h] + t, p) == (if p(h) then [h] else []) + Filter(t, p)
  {
    assert ([h] + t)[1..] == t;
  }

  /** Inserting `x` puts it last among the elements with its key and leaves the other keys' order alone. */
  lemma {:induction false} InsertStable<T>(s: seq<T>, x: T, key: T -> int, v: int)
    requires SortedDesc(s, key)
    ensures KeyClass(Insert(s, x, key), key, v) == KeyClass(s, key, v) + KeyClass([x], key, v)
  {
    var p := HasKey(key, v);
    FilterCons(x, [], p);
    assert [x] + [] == [x];
    if s == [] {
    } else if key(s[0]) >= key(x) {
      InsertStable(s[1..], x, key, v);
      InsertBehindHead(s, x, key, v);
    } else {
      InsertAheadOfAll(s, x, key, v);
    }
  }

  /** The step of `InsertStable` where `x` goes behind the head of `s`. */
  lemma InsertBehindHead<T>(s: seq<T>, x: T, key: T -> int, v: int)
    requires SortedDesc(s, key) && s != [] && key(s[0]) >= key(x)
    requires KeyClass(Insert(s[1..], x, key), key, v) == KeyClass(s[1..], key, v) + KeyClass([x], key, v)
    ensures KeyClass(Insert(s, x, key), key, v) == KeyClass(s, key, v) + KeyClass([x], key, v)
  {
    var t := Insert(s[1..], x, key);
    FilterConsShift(t, s, KeyClass([x], key, v), HasKey(key, v));
  }

  /** A tail whose filter is the filter of `u`'s tail followed by `y` keeps that relation under `u`'s head. */
  lemma FilterConsShift<T>(t: seq<T>, u: seq<T>, y: seq<T>, p: T -> bool)
    requires u != [] && Filter(t, p) == Filter(u[1..], p) + y
    ensures Filter([u[0]] + t, p) == Filter(u, p) + y
  {
    FilterCons(u[0], t, p);
    ConcatAssoc(if p(u[0]) then [u[0]] else [], Filter(u[1..], p), y);
  }

  /** The step of `InsertStable` where `x` goes in front of all of `s`. */
  lemma InsertAheadOfAll<T>(s: seq<T>, x: T, key: T -> int, v: int)
    requires SortedDesc(s, key) && s != [] && key(s[0]) < key(x)
    ensures KeyClass(Insert(s, x, key), key, v) == KeyClass(s, key, v) + KeyClass([x], key, v)
  {
    var p := HasKey(key, v);
    FilterCons(x, [], p);
    assert [x] + [] == [x];
    assert Insert(s, x, key) == [x] + s;
    FilterCons(x, s, p);
    if v == key(x) {
      SortedAbove(s, x, key);
      FilterKeepsNone(s, p);
    }
  }

  /**
   * Sorting a sequence with one element appended: the result is ordered,
   * holds the old elements and the new one, and the new one comes last
   * among the elements with its key.
   */
  lemma SortAppended<T>(s: seq<T>, x: T, key: T -> int)
    ensures SortedDesc(Sort(s + [x], key), key)
    ensures multiset(Sort(s + [x], key)) == multiset(s) + multiset{x}
    ensures forall v :: KeyClass(Sort(s + [x], key), key, v) == KeyClass(s, key, v) + (if v == key(x) then [x] else [])
  {
    forall v
      ensures KeyClass(Sort(s + [x], key), key, v) == KeyClass(s, key, v) + (if v == key(x) then [x] else [])
    {
      SortStable(s + [x], key, v);
      FilterConcat(s, [x], HasKey(key, v));
      FilterCons(x, [], HasKey(key, v));
      assert [x] + [] == [x];
    }
  }

  /** Sorting keeps the relative order of elements with equal keys. */
  lemma {:induction false} SortStable<T>(s: seq<T>, key: T -> int, v: int)
    ensures KeyClass(Sort(s, key), key, v) == KeyClass(s, key, v)
  {
    if s != [] {
      var init, last := s[..|s| - 1], s[|s| - 1];
      SortStable(init, key, v);
      InsertStable(Sort(init, key), last, key, v);
      assert s == init + [last];
      FilterConcat(init, [last], HasKey(key, v));
    }
  }

  /** The first element of a sorted sequence carries its largest key. */
  lemma SortedHeadIsMax<T>(s: seq<T>, key: T -> int, x: T)
    requires SortedDesc(s, key) && x in s
    ensures key(s[0]) >= key(x)
  {
  }

  /** Sequences whose classes of equal keys agree are empty together. */
  lemma ClassesAgreeEmpty<T>(r: seq<T>, t: seq<T>, key: T -> int)
    requires forall v :: KeyClass(r, key, v) == KeyClass(t, key, v)
    ensures r == [] <==> t == []
  {
    if t != [] {
      FilterMembers(t, HasKey(key, key(t[0])));
      assert t[0] in KeyClass(t, key, key(t[0]));
    }
    if r != [] {
      FilterMembers(r, HasKey(key, key(r[0])));
      assert r[0] in KeyClass(r, key, key(r[0]));
    }
  }

  /** Two sorted sequences whose classes of equal keys agree are equal. */
  lemma {:induction false} SortedUnique<T>(r: seq<T>, t: seq<T>, key: T -> int)
    requires SortedDesc(r, key) && SortedDesc(t, key)
    requires forall v :: KeyClass(r, key, v) == KeyClass(t, key, v)
    ensures r == t
  {
    ClassesAgreeEmpty(r, t, key);
    if r != [] {
      var m, n := key(r[0]), key(t[0]);
      FilterMembers(r, HasKey(key, m));
      FilterMembers(t, HasKey(key, m));
      FilterMembers(r, HasKey(key, n));
      FilterMembers(t, HasKey(key, n));
      assert r[0] in KeyClass(t, key, m);
      SortedHeadIsMax(t, key, r[0]);
      assert t[0] in KeyClass(r, key, n);
      SortedHeadIsMax(r, key, t[0]);
      assert m == n;
      assert KeyClass(r, key, m) == [r[0]] + KeyClass(r[1..], key, m);
      assert KeyClass(t, key, m) == [t[0]] + KeyClass(t[1..], key, m);
      assert r[0] == KeyClass(r, key, m)[0] == KeyClass(t, key, m)[0] == t[0];
      forall v
        ensures KeyClass(r[1..], key, v) == KeyClass(t[1..], key, v)
      {
        var h := if HasKey(key, v)(r[0]) then [r[0]] else [];
        assert KeyClass(r, key, v) == h + KeyClass(r[1..], key, v);
        assert KeyClass(t, key, v) == h + KeyClass(t[1..], key, v);
        assert KeyClass(r[1..], key, v) == (h + KeyClass(r[1..], key, v))[|h|..];
        assert KeyClass(t[1..], key, v) == (h + KeyClass(t[1..], key, v))[|h|..];
      }
      SortedUnique(r[1..], t[1..], key);
      assert r == [r[0]] + r[1..];
      assert t == [t[0]] + t[1..];
    }
  }

  /**
   * `Sort` is THE stable sort: a sequence is `Sort(s, key)` exactly when it is
   * sorted and each class of equal keys is the same as in `s`.
   */
  lemma SortCharacterization<T>(s: seq<T>, r: seq<T>, key: T -> int)
    ensures r == Sort(s, key) <==> SortedDesc(r, key) && forall v :: KeyClass(r, key, v) == KeyClass(s, key, v)
  {
    forall v
      ensures KeyClass(Sort(s, key), key, v) == KeyClass(s, key, v)
    {
      SortStable(s, key, v);
    }
    if SortedDesc(r, key) && forall v :: KeyClass(r, key, v) == KeyClass(s, key, v) {
      SortedUnique(r, Sort(s, key), key);
    }
  }
}
