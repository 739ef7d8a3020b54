/** Generic sequence and map vocabulary shared by the widget's modules:
    an optional value, order-preserving subsequences, duplicate-freedom and
    the ascending key order in which JavaScript enumerates array-index keys
    of an object. */
module Collections {

  /** `undefined`-or-value, as returned by `Array.prototype.find`. */
  datatype Option<+T> = None | Some(value: T)

  /** `a` is obtained from `b` by deleting elements, keeping the order of the rest. */
  ghost predicate IsSubseq<T>(a: seq<T>, b: seq<T>)
    decreases |b|
  {
    if a == [] then true
    else if b == [] then false
    else (a[0] == b[0] && IsSubseq(a[1..], b[1..])) || IsSubseq(a, b[1..])
  }

  /** No element occurs twice. */
  predicate NoDup<T(==)>(s: seq<T>)
  {
    forall i, j :: 0 <= i < j < |s| ==> s[i] != s[j]
  }

  /** A non-empty set has an element. */
  lemma NonEmptyHasElement(s: set<int>)
    requires s != {}
    ensures exists y :: y in s
  {
    if forall y :: y !in s {
      assert false;
    }
  }

  /** `m` is a lower bound of `s`. */
  predicate IsLeast(m: int, s: set<int>)
  {
    forall x :: x in s ==> m <= x
  }

  /** Every non-empty finite set of integers has a least element. */
  lemma {:induction false} MinExists(s: set<int>)
    requires s != {}
    ensures exists m :: m in s && IsLeast(m, s)
    decreases |s|
  {
    NonEmptyHasElement(s);
    var y :| y in s;
    if s == {y} {
      assert IsLeast(y, s);
    } else {
      MinExists(s - {y});
      var m :| m in s - {y} && IsLeast(m, s - {y});
      var least := if y < m then y else m;
      forall x | x in s
        ensures least <= x
      {
        if x != y {
          assert x in s - {y};
        }
      }
      assert least in s && IsLeast(least, s);
    }
  }

  /** The least element of a non-empty set. */
  function Min(s: set<int>): (m: int)
    requires s != {}
    ensures m in s && forall x :: x in s ==> m <= x
  {
    MinExists(s);
    var m :| m in s && IsLeast(m, s);
    m
  }

  /** The keys of a set in ascending order: the order in which `Object.entries`
      enumerates the keys of an object that are array indices (0 to 2^32 - 2). */
  function SortedKeys(s: set<int>): (r: seq<int>)
    ensures forall k :: k in r <==> k in s
    ensures forall i, j :: 0 <= i < j < |r| ==> r[i] < r[j]
    ensures |r| == |s|
    decreases |s|
  {
    if s == {} then []
    else
      var m := Min(s);
      var rest := SortedKeys(s - {m});
      SortedCons(m, rest, s);
      [m] + rest
  }

  /** Putting the least element in front of the ascending order of the
      others gives the ascending order of the whole set. */
  lemma SortedCons(m: int, rest: seq<int>, s: set<int>)
    requires m in s && forall x :: x in s ==> m <= x
    requires forall k :: k in rest <==> k in s - {m}
    requires forall i, j :: 0 <= i < j < |rest| ==> rest[i] < rest[j]
    ensures forall k :: k in [m] + rest <==> k in s
    ensures forall i, j :: 0 <= i < j < |[m] + rest| ==> ([m] + rest)[i] < ([m] + rest)[j]
  {
    var r := [m] + rest;
    forall i, j | 0 <= i < j < |r| ensures r[i] < r[j] {
      assert r[j] == rest[j - 1];
      if i > 0 { assert r[i] == rest[i - 1]; }
      else { assert rest[j - 1] in rest; }
    }
  }
}
