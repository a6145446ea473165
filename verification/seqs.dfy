/** Generic sequence helpers that mirror Python list operations. */
module Seqs {

  /** `list.reverse()`. */
  function Reverse<T>(s: seq<T>): (r: seq<T>)
    ensures |r| == |s|
    ensures forall i :: 0 <= i < |s| ==> r[i] == s[|s| - 1 - i]
  {
    seq(|s|, i requires 0 <= i < |s| => s[|s| - 1 - i])
  }

  /** The last element comes first. */
  lemma ReverseSnoc<T>(s: seq<T>)
    requires |s| > 0
    ensures Reverse(s) == [s[|s| - 1]] + Reverse(s[..|s| - 1])
  {
  }

  lemma ReverseReverse<T>(s: seq<T>)
    ensures Reverse(Reverse(s)) == s
  {
  }

  /** `list.remove(x)`: drops the first occurrence of `x`. */
  function RemoveFirst<T(==)>(s: seq<T>, x: T): (r: seq<T>)
    requires x in s
    ensures |r| == |s| - 1
    ensures multiset(r) == multiset(s) - multiset{x}
  {
    assert s == [s[0]] + s[1..];
    if s[0] == x then s[1..]
    else [s[0]] + RemoveFirst(s[1..], x)
  }

  /** The elements of `s` sit at pairwise distinct positions. */
  predicate Distinct<T(==)>(s: seq<T>) {
    forall i, j :: 0 <= i < j < |s| ==> s[i] != s[j]
  }

  /** Removing an element of a list without repeats removes it entirely and keeps the rest distinct. */
  lemma {:induction false} RemoveFirstDistinct<T>(s: seq<T>, x: T)
    requires Distinct(s) && x in s
    ensures x !in RemoveFirst(s, x)
    ensures Distinct(RemoveFirst(s, x))
  {
    if s[0] != x {
      RemoveFirstDistinct(s[1..], x);
      var r := RemoveFirst(s[1..], x);
      assert s[0] !in multiset(s[1..]);
      assert s[0] !in multiset(r);
      assert RemoveFirst(s, x) == [s[0]] + r;
    }
  }

  /** Splitting off the head of `a` commutes with appending `b`. */
  lemma ConsAppend<T>(a: seq<T>, b: seq<T>)
    requires |a| > 0
    ensures [a[0]] + (a[1..] + b) == a + b
  {
    assert a == [a[0]] + a[1..];
  }

  /** Removing the first occurrence of an element that the prefix lacks cuts it out in place. */
  lemma {:induction false} RemoveFirstAt<T>(a: seq<T>, x: T, b: seq<T>)
    requires x !in a
    ensures RemoveFirst(a + [x] + b, x) == a + b
    decreases |a|
  {
    var s := a + [x] + b;
    if |a| == 0 {
      assert s == [x] + b;
      assert s[0] == x && s[1..] == b;
    } else {
      var tail := a[1..] + [x] + b;
      assert s[0] == a[0] && a[0] != x;
      assert s[1..] == tail;
      RemoveFirstAt(a[1..], x, b);
      calc {
        RemoveFirst(s, x);
        [a[0]] + RemoveFirst(tail, x);
        [a[0]] + (a[1..] + b);
        { ConsAppend(a, b); }
        a + b;
      }
    }
  }

  /** The elements at odd positions, in order: `s[1::2]` in Python. */
  function OddPositions<T>(s: seq<T>): (r: seq<T>)
    ensures |r| == |s| / 2
    ensures forall i :: 0 <= i < |r| ==> r[i] == s[2 * i + 1]
  {
    if |s| < 2 then [] else [s[1]] + OddPositions(s[2..])
  }
}
