/** Ordering by integer keys, as `sortedByDescending` uses it for the version
    lists of both view models. */
module Sorting {

  /** Lexicographic order on integer sequences; a proper prefix comes first. */
  predicate LexLe(a: seq<int>, b: seq<int>)
    decreases |a|
  {
    a == [] || (b != [] && (a[0] < b[0] || (a[0] == b[0] && LexLe(a[1..], b[1..]))))
  }

  /** One step of the order: heads first, then the tails. */
  lemma LexLeCons(x: int, a: seq<int>, y: int, b: seq<int>)
    ensures LexLe([x] + a, [y] + b) <==> x < y || (x == y && LexLe(a, b))
  {
    assert ([x] + a)[1..] == a && ([y] + b)[1..] == b;
  }

  lemma {:induction false} LexLeReflexive(a: seq<int>)
    ensures LexLe(a, a)
    decreases |a|
  {
    if a != [] {
      LexLeReflexive(a[1..]);
    }
  }

  lemma {:induction false} LexLeTotal(a: seq<int>, b: seq<int>)
    ensures LexLe(a, b) || LexLe(b, a)
    decreases |a|
  {
    if a != [] && b != [] && a[0] == b[0] {
      LexLeTotal(a[1..], b[1..]);
    }
  }

  lemma {:induction false} LexLeAntisymmetric(a: seq<int>, b: seq<int>)
    requires LexLe(a, b) && LexLe(b, a)
    ensures a == b
    decreases |a|
  {
    if a != [] {
      LexLeAntisymmetric(a[1..], b[1..]);
      assert a == [a[0]] + a[1..] && b == [b[0]] + b[1..];
    }
  }

  lemma {:induction false} LexLeTransitive(a: seq<int>, b: seq<int>, c: seq<int>)
    requires LexLe(a, b) && LexLe(b, c)
    ensures LexLe(a, c)
    decreases |a|
  {
    if a != [] && a[0] == b[0] && b[0] == c[0] {
      LexLeTransitive(a[1..], b[1..], c[1..]);
    }
  }

  /** `xs` is in descending order of `key`. */
  ghost predicate SortedDesc<T>(xs: seq<T>, key: T -> seq<int>) {
    forall i, j :: 0 <= i < j < |xs| ==> LexLe(key(xs[j]), key(xs[i]))
  }

  /** An element whose key is not below the head's goes in front. */
  lemma InsertInFront<T>(x: T, xs: seq<T>, key: T -> seq<int>)
    requires SortedDesc(xs, key) && xs != [] && LexLe(key(xs[0]), key(x))
    ensures SortedDesc([x] + xs, key)
  {
    var ys := [x] + xs;
    forall i, j | 0 <= i < j < |ys| ensures LexLe(key(ys[j]), key(ys[i])) {
      assert ys[j] == xs[j - 1];
      if i == 0 && j > 1 {
        LexLeTransitive(key(xs[j - 1]), key(xs[0]), key(x));
      } else if i > 0 {
        assert ys[i] == xs[i - 1];
      }
    }
  }

  /** An element whose key is below the head's goes behind it, among the rest. */
  lemma InsertBehind<T>(x: T, xs: seq<T>, rest: seq<T>, key: T -> seq<int>)
    requires SortedDesc(xs, key) && xs != [] && LexLe(key(x), key(xs[0]))
    requires SortedDesc(rest, key) && multiset(rest) == multiset(xs[1..]) + multiset{x}
    ensures SortedDesc([xs[0]] + rest, key)
  {
    var ys := [xs[0]] + rest;
    forall i, j | 0 <= i < j < |ys| ensures LexLe(key(ys[j]), key(ys[i])) {
      assert ys[j] == rest[j - 1];
      if i == 0 {
        assert rest[j - 1] in multiset(xs[1..]) + multiset{x} by {
          assert rest[j - 1] in multiset(rest);
        }
        if rest[j - 1] != x {
          var k :| 0 <= k < |xs[1..]| && xs[1..][k] == rest[j - 1];
          assert xs[k + 1] == rest[j - 1];
        }
      } else {
        assert ys[i] == rest[i - 1];
      }
    }
  }

  /** Inserts `x` into a list sorted by descending key, before every element
      whose key is not greater than its own. */
  function Insert<T>(x: T, xs: seq<T>, key: T -> seq<int>): (r: seq<T>)
    requires SortedDesc(xs, key)
    ensures SortedDesc(r, key)
    ensures multiset(r) == multiset(xs) + multiset{x}
    ensures |r| == |xs| + 1
  {
    if xs == [] then [x]
    else if LexLe(key(xs[0]), key(x)) then
      InsertInFront(x, xs, key);
      [x] + xs
    else
      LexLeTotal(key(xs[0]), key(x));
      var rest := Insert(x, xs[1..], key);
      InsertBehind(x, xs, rest, key);
      assert xs == [xs[0]] + xs[1..];
      [xs[0]] + rest
  }

  /** Sorts by descending key (an insertion sort, stable like `sortedByDescending`). */
  function SortDescending<T>(xs: seq<T>, key: T -> seq<int>): (r: seq<T>)
    ensures SortedDesc(r, key)
    ensures multiset(r) == multiset(xs)
  {
    if xs == [] then []
    else
      assert xs == [xs[0]] + xs[1..];
      Insert(xs[0], SortDescending(xs[1..], key), key)
  }

  /** Sorting keeps the length and the elements. */
  lemma SortedKeepsElements<T>(xs: seq<T>, key: T -> seq<int>)
    ensures |SortDescending(xs, key)| == |xs|
    ensures forall v :: v in SortDescending(xs, key) <==> v in xs
  {
    var r := SortDescending(xs, key);
    assert |r| == |multiset(r)| == |multiset(xs)| == |xs|;
    forall v
      ensures v in r <==> v in xs
    {
      assert v in r <==> v in multiset(r);
      assert v in xs <==> v in multiset(xs);
    }
  }
}
