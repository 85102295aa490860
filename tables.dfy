/** What the portal's SQL queries do to a table, independent of its rows:
    selection (`WHERE`), projection of columns, `ORDER BY … DESC` and `TOP n`.
    A table is a sequence of rows in storage order. */
module Tables {

  /** `SELECT … WHERE keep`: the rows satisfying `keep`, in storage order,
      each with its multiplicity in `s`. */
  function Filter<T(!new)>(s: seq<T>, keep: T -> bool): (r: seq<T>)
    ensures |r| <= |s|
    ensures forall x :: multiset(r)[x] == if keep(x) then multiset(s)[x] else 0
    ensures forall x :: x in r <==> x in s && keep(x)
  {
    if s == [] then []
    else
      var rest := Filter(s[1..], keep);
      assert s == [s[0]] + s[1..];
      (if keep(s[0]) then [s[0]] else []) + rest
  }

  /** No two rows share a key: the key is the table's primary key. */
  ghost predicate DistinctKeys<T>(s: seq<T>, key: T -> int) {
    forall i, j :: 0 <= i < j < |s| ==> key(s[i]) != key(s[j])
  }

  /** Deleting rows keeps a primary key unique. */
  lemma {:induction false} FilterKeepsKeysDistinct<T(!new)>(s: seq<T>, keep: T -> bool, key: T -> int)
    ensures DistinctKeys(s, key) ==> DistinctKeys(Filter(s, keep), key)
  {
    if s != [] && DistinctKeys(s, key) {
      var tail := s[1..];
      assert DistinctKeys(tail, key) by {
        forall i, j | 0 <= i < j < |tail| ensures key(tail[i]) != key(tail[j]) {
          assert tail[i] == s[i + 1] && tail[j] == s[j + 1];
        }
      }
      FilterKeepsKeysDistinct(tail, keep, key);
      var rest := Filter(tail, keep);
      forall k | 0 <= k < |rest| ensures key(rest[k]) != key(s[0]) {
        assert rest[k] in rest;
        var j :| 0 <= j < |tail| && tail[j] == rest[k];
        assert s[j + 1] == rest[k];
      }
    }
  }

  /** Projection of each row to some of its columns. */
  function MapSeq<T, U(!new)>(s: seq<T>, f: T -> U): (r: seq<U>)
    ensures |r| == |s|
    ensures forall i :: 0 <= i < |s| ==> r[i] == f(s[i])
    ensures forall y :: y in r <==> exists i :: 0 <= i < |s| && y == f(s[i])
  {
    var r := seq(|s|, i requires 0 <= i < |s| => f(s[i]));
    assert forall i :: 0 <= i < |s| ==> r[i] in r;
    r
  }

  /** Rows ordered so that `key` never increases. */
  ghost predicate SortedDesc<T>(s: seq<T>, key: T -> int) {
    forall i, j :: 0 <= i < j < |s| ==> key(s[i]) >= key(s[j])
  }

  /** Inserts `x` into a descending sequence, after every row whose key is at least `key(x)`. */
  function InsertDesc<T>(x: T, s: seq<T>, key: T -> int): (r: seq<T>)
    requires SortedDesc(s, key)
    ensures SortedDesc(r, key)
    ensures multiset(r) == multiset(s) + multiset{x}
    ensures r[0] == x || (s != [] && r[0] == s[0])
  {
    if s == [] || key(x) > key(s[0]) then [x] + s
    else
      var rest := InsertDesc(x, s[1..], key);
      assert s == [s[0]] + s[1..];
      assert key(s[0]) >= key(rest[0]);
      [s[0]] + rest
  }

  /** `ORDER BY key DESC`. Rows with equal keys come out latest-stored first;
      SQL leaves their order unspecified. */
  function SortDesc<T(!new)>(s: seq<T>, key: T -> int): (r: seq<T>)
    ensures SortedDesc(r, key)
    ensures multiset(r) == multiset(s)
    ensures forall x :: x in r <==> x in s
  {
    if s == [] then []
    else
      assert s == [s[0]] + s[1..];
      var r := InsertDesc(s[0], SortDesc(s[1..], key), key);
      assert forall x :: x in r <==> x in s by {
        forall x ensures x in r <==> x in s {
          assert x in r <==> x in multiset(r);
          assert x in s <==> x in multiset(s);
        }
      }
      r
  }

  /** `TOP n`: the first `n` rows, or all of them when there are fewer. */
  function Top<T>(s: seq<T>, n: nat): (r: seq<T>)
    ensures |r| == if |s| <= n then |s| else n
    ensures r == s[..|r|]
  {
    if |s| <= n then s else s[..n]
  }

  /** The first rows of a descending table are descending. */
  lemma TopOfSorted<T>(sorted: seq<T>, key: T -> int, n: nat)
    requires SortedDesc(sorted, key)
    ensures SortedDesc(Top(sorted, n), key)
  {
    var r := Top(sorted, n);
    forall i, j | 0 <= i < j < |r| ensures key(r[i]) >= key(r[j]) {
      assert r[i] == sorted[i] && r[j] == sorted[j];
    }
  }

  /** No row past the first `n` of a descending table has a larger key than one of the first `n`. */
  lemma TopDominatesRest<T>(sorted: seq<T>, key: T -> int, n: nat)
    requires SortedDesc(sorted, key)
    ensures var r := Top(sorted, n);
      forall y, k :: y in multiset(sorted) - multiset(r) && 0 <= k < |r| ==> key(y) <= key(r[k])
  {
    var r := Top(sorted, n);
    var rest := sorted[|r|..];
    assert sorted == r + rest;
    assert multiset(sorted) - multiset(r) == multiset(rest);
    forall y, k | y in multiset(sorted) - multiset(r) && 0 <= k < |r|
      ensures key(y) <= key(r[k])
    {
      assert y in rest;
      var j :| 0 <= j < |rest| && rest[j] == y;
      assert sorted[|r| + j] == y && sorted[k] == r[k];
    }
  }

  /** `SELECT TOP n … ORDER BY key DESC` returns at most `n` rows of `s`,
      newest first, and no row it leaves out has a larger key than a row it returns. */
  lemma NewestFirst<T(!new)>(s: seq<T>, key: T -> int, n: nat)
    ensures var r := Top(SortDesc(s, key), n);
      && |r| == (if |s| <= n then |s| else n)
      && SortedDesc(r, key)
      && multiset(r) <= multiset(s)
      && forall y, k :: y in multiset(s) - multiset(r) && 0 <= k < |r| ==> key(y) <= key(r[k])
  {
    var sorted := SortDesc(s, key);
    var r := Top(sorted, n);
    assert |sorted| == |multiset(sorted)| == |s|;
    assert sorted == r + sorted[|r|..];
    assert multiset(sorted) == multiset(r) + multiset(sorted[|r|..]);
    TopOfSorted(sorted, key, n);
    TopDominatesRest(sorted, key, n);
  }
}
