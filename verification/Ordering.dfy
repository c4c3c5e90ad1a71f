/** The string order used to sort vault paths, and a stable sort by key. */
module Ordering {

  /** `a <= b` in code-point order, which is also the order of the UTF-8 bytes. */
  predicate StrLe(a: string, b: string) {
    a == "" || (b != "" && (a[0] < b[0] || (a[0] == b[0] && StrLe(a[1..], b[1..]))))
  }

  lemma {:induction false} StrLeTotal(a: string, b: string)
    ensures StrLe(a, b) || StrLe(b, a)
    ensures StrLe(a, b) && StrLe(b, a) ==> a == b
  {
    if a != "" && b != "" && a[0] == b[0] {
      StrLeTotal(a[1..], b[1..]);
      assert a == [a[0]] + a[1..] && b == [b[0]] + b[1..];
    }
  }

  lemma {:induction false} StrLeTransitive(a: string, b: string, c: string)
    requires StrLe(a, b) && StrLe(b, c)
    ensures StrLe(a, c)
  {
    if a != "" && b != "" && c != "" && a[0] == b[0] == c[0] {
      StrLeTransitive(a[1..], b[1..], c[1..]);
    }
  }

  predicate Sorted<T>(key: T -> string, xs: seq<T>) {
    forall i, j :: 0 <= i < j < |xs| ==> StrLe(key(xs[i]), key(xs[j]))
  }

  /** Places `x` after every element whose key does not exceed its own. */
  function Insert<T>(key: T -> string, x: T, xs: seq<T>): (r: seq<T>)
    ensures multiset(r) == multiset(xs) + multiset{x}
    ensures |r| == |xs| + 1
  {
    if xs == [] then [x]
    else if StrLe(key(xs[0]), key(x)) then
      assert xs == [xs[0]] + xs[1..];
      [xs[0]] + Insert(key, x, xs[1..])
    else [x] + xs
  }

  /** `sort_by` on the key: stable, since equal keys keep their relative order. */
  function SortBy<T>(key: T -> string, xs: seq<T>): (r: seq<T>)
    ensures multiset(r) == multiset(xs)
    ensures |r| == |xs|
  {
    if xs == [] then [] else
      assert xs == xs[..|xs| - 1] + [xs[|xs| - 1]];
      Insert(key, xs[|xs| - 1], SortBy(key, xs[..|xs| - 1]))
  }

  lemma {:induction false} InsertSorted<T>(key: T -> string, x: T, xs: seq<T>)
    requires Sorted(key, xs)
    ensures Sorted(key, Insert(key, x, xs))
  {
    if xs != [] {
      var r := Insert(key, x, xs);
      if StrLe(key(xs[0]), key(x)) {
        InsertSorted(key, x, xs[1..]);
        forall j | 0 < j < |r|
          ensures StrLe(key(r[0]), key(r[j]))
        {
          InsertElements(key, x, xs[1..], r[j]);
        }
      } else {
        StrLeTotal(key(xs[0]), key(x));
        forall j | 0 < j < |r|
          ensures StrLe(key(r[0]), key(r[j]))
        {
          if j > 1 {
            StrLeTransitive(key(x), key(xs[0]), key(xs[j - 1]));
          }
        }
      }
    }
  }

  lemma InsertElements<T>(key: T -> string, x: T, xs: seq<T>, y: T)
    requires y in Insert(key, x, xs)
    ensures y == x || y in xs
  {
  }

  lemma {:induction false} SortBySorted<T>(key: T -> string, xs: seq<T>)
    ensures Sorted(key, SortBy(key, xs))
  {
    if xs != [] {
      SortBySorted(key, xs[..|xs| - 1]);
      InsertSorted(key, xs[|xs| - 1], SortBy(key, xs[..|xs| - 1]));
    }
  }

  /** Sorting neither adds nor drops elements. */
  lemma SortBySameElements<T>(key: T -> string, xs: seq<T>)
    ensures forall x | x in SortBy(key, xs) :: x in xs
    ensures forall x | x in xs :: x in SortBy(key, xs)
  {
    forall x | x in SortBy(key, xs)
      ensures x in xs
    {
      assert x in multiset(SortBy(key, xs));
    }
    forall x | x in xs
      ensures x in SortBy(key, xs)
    {
      assert x in multiset(xs);
    }
  }

  /** No two elements share a key. */
  predicate DistinctKeys<T>(key: T -> string, xs: seq<T>) {
    forall i, j :: 0 <= i < j < |xs| ==> key(xs[i]) != key(xs[j])
  }

  lemma {:induction false} InsertDistinct<T>(key: T -> string, x: T, xs: seq<T>)
    requires DistinctKeys(key, xs) && forall y :: y in xs ==> key(y) != key(x)
    ensures DistinctKeys(key, Insert(key, x, xs))
  {
    if xs != [] && StrLe(key(xs[0]), key(x)) {
      var rest := Insert(key, x, xs[1..]);
      InsertDistinct(key, x, xs[1..]);
      forall j | 0 <= j < |rest|
        ensures key(rest[j]) != key(xs[0])
      {
        InsertElements(key, x, xs[1..], rest[j]);
      }
    }
  }

  lemma {:induction false} SortByDistinct<T>(key: T -> string, xs: seq<T>)
    requires DistinctKeys(key, xs)
    ensures DistinctKeys(key, SortBy(key, xs))
  {
    if xs != [] {
      var front := xs[..|xs| - 1];
      SortByDistinct(key, front);
      SortBySameElements(key, front);
      forall y | y in SortBy(key, front)
        ensures key(y) != key(xs[|xs| - 1])
      {
        assert y in front;
      }
      InsertDistinct(key, xs[|xs| - 1], SortBy(key, front));
    }
  }
}
