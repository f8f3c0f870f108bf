/**
 * The two query shapes the model's scopes are built from: a SQL `WHERE`
 * (keep the rows a predicate accepts; the model's filter keeps its input
 * order, which SQL leaves open) and a SQL `ORDER BY`
 * (a permutation of the rows that is sorted by a total preorder; the order
 * among rows the preorder ties is not fixed by SQL and is not promised here).
 * Also the two orders the scopes' keys need: nullable integers, where the
 * placement of NULL is the database's choice, and strings.
 */
module Query {
  import opened Wrappers

  // ---------------------------------------------------------------- WHERE

  /** The rows of `s` that `p` accepts, in the order of `s`. */
  function Where<T(!new)>(s: seq<T>, p: T -> bool): (r: seq<T>)
    ensures forall x :: multiset(r)[x] == if p(x) then multiset(s)[x] else 0
    ensures forall x :: x in r <==> x in s && p(x)
    ensures forall i :: 0 <= i < |r| ==> p(r[i])
    ensures |r| <= |s|
  {
    if s == [] then []
    else
      var rest := Where(s[1..], p);
      assert s == [s[0]] + s[1..];
      if p(s[0]) then [s[0]] + rest else rest
  }

  /** The model's filter keeps its input order (SQL leaves it open): it
      distributes over concatenation. */
  lemma {:induction false} WhereAppend<T(!new)>(a: seq<T>, b: seq<T>, p: T -> bool)
    ensures Where(a + b, p) == Where(a, p) + Where(b, p)
  {
    if a == [] {
      assert a + b == b;
    } else {
      assert (a + b)[1..] == a[1..] + b;
      WhereAppend(a[1..], b, p);
    }
  }

  /** Nothing is left exactly when `p` rejects every row. */
  lemma WhereEmpty<T(!new)>(s: seq<T>, p: T -> bool)
    ensures Where(s, p) == [] <==> forall x :: x in s ==> !p(x)
  {
    var r := Where(s, p);
    if r != [] {
      assert r[0] in r;
    }
  }

  /** Filtering with a predicate that accepts every row changes nothing. */
  lemma {:induction false} WhereAll<T(!new)>(s: seq<T>, p: T -> bool)
    requires forall i :: 0 <= i < |s| ==> p(s[i])
    ensures Where(s, p) == s
  {
    if s != [] {
      WhereAll(s[1..], p);
    }
  }

  /** Filtering twice, the second time by a stricter predicate, is filtering
      once by the stricter one. */
  lemma {:induction false} WhereOfWhere<T(!new)>(s: seq<T>, p: T -> bool, q: T -> bool)
    requires forall x :: q(x) ==> p(x)
    ensures Where(Where(s, p), q) == Where(s, q)
  {
    if s != [] {
      WhereOfWhere(s[1..], p, q);
    }
  }

  /** No two rows of `s` share a key: a unique column. */
  predicate DistinctBy<T, K(==)>(s: seq<T>, key: T -> K) {
    forall i, j :: 0 <= i < j < |s| ==> key(s[i]) != key(s[j])
  }

  lemma ConsDistinctBy<T, K>(x: T, s: seq<T>, key: T -> K)
    requires DistinctBy(s, key)
    requires forall k :: 0 <= k < |s| ==> key(x) != key(s[k])
    ensures DistinctBy([x] + s, key)
  {
    var r := [x] + s;
    forall i, j | 0 <= i < j < |r| ensures key(r[i]) != key(r[j]) {
      if i > 0 {
        assert r[i] == s[i - 1] && r[j] == s[j - 1];
      } else {
        assert r[j] == s[j - 1];
      }
    }
  }

  /** Removing rows keeps a unique column unique. */
  lemma {:induction false} WhereDistinctBy<T(!new), K>(s: seq<T>, key: T -> K, p: T -> bool)
    requires DistinctBy(s, key)
    ensures DistinctBy(Where(s, p), key)
  {
    if s != [] {
      var tail := s[1..];
      var rest := Where(tail, p);
      WhereDistinctBy(tail, key, p);
      if p(s[0]) {
        forall k | 0 <= k < |rest| ensures key(s[0]) != key(rest[k]) {
          assert rest[k] in tail;
          var m :| 0 <= m < |tail| && tail[m] == rest[k];
          assert s[m + 1] == rest[k];
        }
        ConsDistinctBy(s[0], rest, key);
      }
    }
  }

  // -------------------------------------------------------------- ORDER BY

  /** `le` is total and transitive: a sort key, possibly with ties. */
  ghost predicate TotalPreorder<T(!new)>(le: (T, T) -> bool) {
    && (forall x, y :: le(x, y) || le(y, x))
    && (forall x, y, z :: le(x, y) && le(y, z) ==> le(x, z))
  }

  ghost predicate SortedBy<T>(s: seq<T>, le: (T, T) -> bool) {
    forall i, j :: 0 <= i < j < |s| ==> le(s[i], s[j])
  }

  /** Inserts `x` into the sorted `s` before the first element it may precede. */
  function Insert<T(!new)>(x: T, s: seq<T>, le: (T, T) -> bool): (r: seq<T>)
    requires TotalPreorder(le)
    requires SortedBy(s, le)
    ensures SortedBy(r, le)
    ensures multiset(r) == multiset(s) + multiset{x}
  {
    if s == [] then [x]
    else if le(x, s[0]) then
      assert s == [s[0]] + s[1..];
      [x] + s
    else
      assert s == [s[0]] + s[1..];
      var rest := Insert(x, s[1..], le);
      assert forall k :: 0 <= k < |rest| ==> rest[k] in multiset(rest);
      assert forall k :: 0 <= k < |rest| ==> le(s[0], rest[k]);
      [s[0]] + rest
  }

  /** `ORDER BY le`: a permutation of `s` that is sorted by `le`. */
  function OrderBy<T(!new)>(s: seq<T>, le: (T, T) -> bool): (r: seq<T>)
    requires TotalPreorder(le)
    ensures SortedBy(r, le)
    ensures multiset(r) == multiset(s)
  {
    if s == [] then []
    else
      assert s == [s[0]] + s[1..];
      Insert(s[0], OrderBy(s[1..], le), le)
  }

  // ------------------------------------------------------------ key orders

  /** Where the database puts NULL when it compares a column: as larger than
      every value (PostgreSQL) or as smaller than every value (SQLite, MySQL). */
  datatype NullOrder = NullsHigh | NullsLow

  /** `x <= y` on a nullable integer column, ascending. */
  predicate NullableLe(x: Option<int>, y: Option<int>, nulls: NullOrder) {
    match (x, y)
    case (Some(a), Some(b)) => a <= b
    case (None, None) => true
    case (None, Some(_)) => nulls == NullsLow
    case (Some(_), None) => nulls == NullsHigh
  }

  lemma NullableLeTotalOrder(nulls: NullOrder)
    ensures forall x, y :: NullableLe(x, y, nulls) || NullableLe(y, x, nulls)
    ensures forall x, y :: NullableLe(x, y, nulls) && NullableLe(y, x, nulls) ==> x == y
    ensures forall x, y, z :: NullableLe(x, y, nulls) && NullableLe(y, z, nulls) ==> NullableLe(x, z, nulls)
  {
  }

  /** `a <= b` on strings, by code points, position by position (a binary collation). */
  predicate StringLe(a: string, b: string) {
    a == [] || (b != [] && (a[0] < b[0] || (a[0] == b[0] && StringLe(a[1..], b[1..]))))
  }

  lemma {:induction false} StringLeTotal(a: string, b: string)
    ensures StringLe(a, b) || StringLe(b, a)
  {
    if a != [] && b != [] && a[0] == b[0] {
      StringLeTotal(a[1..], b[1..]);
    }
  }

  lemma {:induction false} StringLeAntisymmetric(a: string, b: string)
    requires StringLe(a, b) && StringLe(b, a)
    ensures a == b
  {
    if a != [] && b != [] {
      StringLeAntisymmetric(a[1..], b[1..]);
      assert a == [a[0]] + a[1..] && b == [b[0]] + b[1..];
    }
  }

  lemma {:induction false} StringLeTransitive(a: string, b: string, c: string)
    requires StringLe(a, b) && StringLe(b, c)
    ensures StringLe(a, c)
  {
    if a != [] && b != [] && c != [] && a[0] == b[0] == c[0] {
      StringLeTransitive(a[1..], b[1..], c[1..]);
    }
  }
}
