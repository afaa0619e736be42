/**
 * The two rotations of the turn order, written with JavaScript's `slice` and
 * `concat` exactly as the reducer writes them.
 */
module TurnOrder {
  import opened Sequences

  /** `next`: `l.slice(1).concat(l.slice(0, 1))`, the head moves to the tail. */
  function Next<T>(l: seq<T>): (r: seq<T>) {
    SliceFrom(l, 1) + Slice(l, 0, 1)
  }

  /** `next` leaves the empty list empty and otherwise moves the head behind the rest. */
  lemma NextShape<T>(l: seq<T>)
    ensures l == [] ==> Next(l) == []
    ensures l != [] ==> Next(l) == l[1..] + [l[0]]
  {
    if l != [] {
      assert Slice(l, 0, 1) == [l[0]];
    }
  }

  /** `back`: `l.slice(-1).concat(l.slice(0, -1))`, the tail moves to the head. */
  function Back<T>(l: seq<T>): (r: seq<T>) {
    SliceFrom(l, -1) + Slice(l, 0, -1)
  }

  /** `back` leaves the empty list empty and otherwise moves the last element in front of the rest. */
  lemma BackShape<T>(l: seq<T>)
    ensures l == [] ==> Back(l) == []
    ensures l != [] ==> Back(l) == [l[|l| - 1]] + l[..|l| - 1]
  {
    if l != [] {
      assert SliceFrom(l, -1) == [l[|l| - 1]];
    }
  }

  /** `back` undoes `next`. */
  lemma BackNext<T>(l: seq<T>)
    ensures Back(Next(l)) == l
  {
    NextShape(l);
    BackShape(Next(l));
    if l != [] {
      var r := Next(l);
      assert r[|r| - 1] == l[0];
      assert r[..|r| - 1] == l[1..];
      assert [l[0]] + l[1..] == l;
    }
  }

  /** `next` undoes `back`. */
  lemma NextBack<T>(l: seq<T>)
    ensures Next(Back(l)) == l
  {
    BackShape(l);
    NextShape(Back(l));
    if l != [] {
      var r := Back(l);
      assert r[0] == l[|l| - 1];
      assert r[1..] == l[..|l| - 1];
      assert l[..|l| - 1] + [l[|l| - 1]] == l;
    }
  }

  /** Both rotations are permutations: same length, same elements with the same multiplicities. */
  lemma RotationsPermute<T>(l: seq<T>)
    ensures |Next(l)| == |l| && multiset(Next(l)) == multiset(l)
    ensures |Back(l)| == |l| && multiset(Back(l)) == multiset(l)
  {
    NextShape(l);
    BackShape(l);
    if l != [] {
      MultisetHead(l);
      MultisetLast(l);
    }
  }
}
