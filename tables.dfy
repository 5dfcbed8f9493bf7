/** The pandas operations the matcher performs on its scored table, as
    operations on sequences of rows: selecting rows by a boolean mask,
    Series.max, Series.idxmax and DataFrame.sort_values. A column is read
    through a `key` function on rows. */
module Tables {

  /** table[mask]: the rows satisfying `keep`, in their original order. */
  function Filter<T(!new)>(s: seq<T>, keep: T -> bool): (r: seq<T>)
    ensures |r| <= |s|
    ensures forall x :: x in r <==> x in s && keep(x)
  {
    if |s| == 0 then []
    else if keep(s[0]) then [s[0]] + Filter(s[1..], keep)
    else Filter(s[1..], keep)
  }

  /** The rows of `s` appear in strictly increasing `rank`. */
  predicate Increasing<T>(s: seq<T>, rank: T -> int) {
    forall i, j :: 0 <= i < j < |s| ==> rank(s[i]) < rank(s[j])
  }

  /** A boolean mask keeps the order of the rows it selects. */
  lemma {:induction false} FilterIncreasing<T(!new)>(s: seq<T>, keep: T -> bool, rank: T -> int)
    requires Increasing(s, rank)
    ensures Increasing(Filter(s, keep), rank)
  {
    if |s| > 0 {
      FilterIncreasing(s[1..], keep, rank);
      var rest := Filter(s[1..], keep);
      if keep(s[0]) {
        forall j | 0 <= j < |rest| ensures rank(s[0]) < rank(rest[j]) {
          assert rest[j] in rest;
          var p :| 0 <= p < |s[1..]| && s[1..][p] == rest[j];
          assert s[p + 1] == rest[j];
        }
      }
    }
  }

  /** A sequence in strictly increasing rank has two or more rows exactly
      when two of its rows differ in rank. */
  lemma MoreThanOne<T>(s: seq<T>, rank: T -> int)
    requires Increasing(s, rank)
    ensures |s| > 1 <==> exists x, y :: x in s && y in s && rank(x) < rank(y)
  {
    if |s| > 1 {
      assert s[0] in s && s[1] in s;
    } else {
      forall x, y | x in s && y in s ensures x == y { }
    }
  }

  /** Series.max(): the largest key of a non-empty column. */
  function MaxOf<T(!new)>(s: seq<T>, key: T -> int): (m: int)
    requires |s| > 0
    ensures forall x :: x in s ==> key(x) <= m
    ensures exists x :: x in s && key(x) == m
  {
    if |s| == 1 then key(s[0])
    else
      var m := MaxOf(s[1..], key);
      assert forall x :: x in s ==> x == s[0] || x in s[1..];
      if key(s[0]) >= m then key(s[0]) else m
  }

  /** Series.idxmax(): the position of the first row whose key is maximal. */
  function IdxMax<T(!new)>(s: seq<T>, key: T -> int): (k: nat)
    requires |s| > 0
    ensures k < |s|
    ensures forall x :: x in s ==> key(x) <= key(s[k])
    ensures forall j :: 0 <= j < k ==> key(s[j]) < key(s[k])
  {
    if |s| == 1 then 0
    else
      var k := IdxMax(s[1..], key);
      assert forall x :: x in s ==> x == s[0] || x in s[1..];
      if key(s[0]) >= key(s[1..][k]) then 0 else k + 1
  }

  /** table[table.key == table.key.max()]: the rows at the largest key, in
      their original order. */
  function AtMax<T(!new)>(s: seq<T>, key: T -> int): (r: seq<T>)
    requires |s| > 0
    ensures |r| > 0
    ensures forall x :: x in r <==> x in s && key(x) == MaxOf(s, key)
  {
    var m := MaxOf(s, key);
    var r := Filter(s, x => key(x) == m);
    assert |r| > 0 by {
      var x :| x in s && key(x) == m;
      assert x in r;
    }
    r
  }

  lemma AtMaxIncreasing<T(!new)>(s: seq<T>, key: T -> int, rank: T -> int)
    requires |s| > 0 && Increasing(s, rank)
    ensures Increasing(AtMax(s, key), rank)
  {
    var m := MaxOf(s, key);
    FilterIncreasing(s, x => key(x) == m, rank);
  }

  /** All rows at the largest key tie, so idxmax among them is the first. */
  lemma IdxMaxAtMax<T(!new)>(s: seq<T>, key: T -> int)
    requires |s| > 0
    ensures IdxMax(AtMax(s, key), key) == 0
  {
    var r := AtMax(s, key);
    var k := IdxMax(r, key);
    assert r[0] in r && r[k] in r;
  }

  /** The first maximal row is the maximum computed by MaxOf. */
  lemma IdxMaxIsMax<T(!new)>(s: seq<T>, key: T -> int)
    requires |s| > 0
    ensures key(s[IdxMax(s, key)]) == MaxOf(s, key)
  {
    var k := IdxMax(s, key);
    assert s[k] in s;
    var x :| x in s && key(x) == MaxOf(s, key);
  }

  /** Among the rows at the largest `key`, the first of those at the largest
      `key2` has no rival in `key2` and precedes, in `rank`, every row that
      equals it in both. */
  lemma FirstAtMaxMax<T(!new)>(s: seq<T>, key: T -> int, key2: T -> int, rank: T -> int)
    requires |s| > 0 && Increasing(s, rank)
    ensures var d := AtMax(AtMax(s, key), key2);
      forall x :: x in s && key(x) == key(d[0]) ==>
        && key2(x) <= key2(d[0])
        && (key2(x) == key2(d[0]) ==> rank(d[0]) <= rank(x))
  {
    var among := AtMax(s, key);
    AtMaxIncreasing(s, key, rank);
    AtMaxIncreasing(among, key2, rank);
    var d := AtMax(among, key2);
    assert d[0] in d && d[0] in among;
    forall x | x in s && key(x) == key(d[0])
      ensures key2(x) <= key2(d[0])
      ensures key2(x) == key2(d[0]) ==> rank(d[0]) <= rank(x)
    {
      assert x in among;
      if key2(x) == key2(d[0]) {
        assert x in d;
        var p :| 0 <= p < |d| && d[p] == x;
      }
    }
  }

  predicate SortedBy<T>(s: seq<T>, key: T -> int) {
    forall i, j :: 0 <= i < j < |s| ==> key(s[i]) <= key(s[j])
  }

  /** A row no larger than the head of an ascending sequence may go in front of it. */
  lemma SortedCons<T>(x: T, s: seq<T>, key: T -> int)
    requires SortedBy(s, key)
    requires |s| > 0 ==> key(x) <= key(s[0])
    ensures SortedBy([x] + s, key)
  {
    var r := [x] + s;
    forall i, j | 0 <= i < j < |r| ensures key(r[i]) <= key(r[j]) {
      if i == 0 && j > 1 {
        assert key(s[0]) <= key(s[j - 1]);
      }
    }
  }

  /** Places `x` into an ascending sequence. */
  function Insert<T>(x: T, s: seq<T>, key: T -> int): (r: seq<T>)
    requires SortedBy(s, key)
    ensures SortedBy(r, key)
    ensures multiset(r) == multiset(s) + multiset{x}
    ensures |r| > 0 && (r[0] == x || (|s| > 0 && r[0] == s[0]))
  {
    if |s| == 0 then [x]
    else if key(x) <= key(s[0]) then
      SortedCons(x, s, key);
      [x] + s
    else
      var rest := Insert(x, s[1..], key);
      assert s == [s[0]] + s[1..];
      SortedCons(s[0], rest, key);
      [s[0]] + rest
  }

  /** sort_values(key): the rows in ascending order of the key. pandas'
      default sort is not stable, so nothing is promised about the order
      of rows with equal keys. */
  function SortBy<T>(s: seq<T>, key: T -> int): (r: seq<T>)
    ensures SortedBy(r, key)
    ensures multiset(r) == multiset(s)
  {
    if |s| == 0 then []
    else
      assert s == [s[0]] + s[1..];
      Insert(s[0], SortBy(s[1..], key), key)
  }

  /** No two rows share a `rank`. */
  predicate Distinct<T>(s: seq<T>, rank: T -> int) {
    forall i, j :: 0 <= i < j < |s| ==> rank(s[i]) != rank(s[j])
  }

  /** A row whose rank no row of `s` shares may go in front of it. */
  lemma DistinctCons<T>(x: T, s: seq<T>, rank: T -> int)
    requires Distinct(s, rank)
    requires forall y :: y in s ==> rank(y) != rank(x)
    ensures Distinct([x] + s, rank)
  {
    var r := [x] + s;
    forall i, j | 0 <= i < j < |r| ensures rank(r[i]) != rank(r[j]) {
      assert r[j] == s[j - 1] && s[j - 1] in s;
    }
  }

  lemma {:induction false} InsertDistinct<T>(x: T, s: seq<T>, key: T -> int, rank: T -> int)
    requires SortedBy(s, key) && Distinct(s, rank)
    requires forall y :: y in s ==> rank(y) != rank(x)
    ensures Distinct(Insert(x, s, key), rank)
  {
    if |s| > 0 && key(x) > key(s[0]) {
      var rest := Insert(x, s[1..], key);
      forall y | y in s[1..] ensures rank(y) != rank(x) && rank(y) != rank(s[0]) {
        var p :| 0 <= p < |s[1..]| && s[1..][p] == y;
        assert s[p + 1] == y;
      }
      InsertDistinct(x, s[1..], key, rank);
      forall y | y in rest ensures rank(y) != rank(s[0]) {
        assert y in multiset(rest);
      }
      DistinctCons(s[0], rest, rank);
    } else {
      DistinctCons(x, s, rank);
    }
  }

  /** Sorting moves rows but never duplicates one, so distinct ranks stay distinct. */
  lemma {:induction false} SortDistinct<T>(s: seq<T>, key: T -> int, rank: T -> int)
    requires Distinct(s, rank)
    ensures Distinct(SortBy(s, key), rank)
  {
    if |s| > 0 {
      SortDistinct(s[1..], key, rank);
      var sorted := SortBy(s[1..], key);
      forall y | y in sorted ensures rank(y) != rank(s[0]) {
        assert y in multiset(sorted);
        var p :| 0 <= p < |s[1..]| && s[1..][p] == y;
        assert s[p + 1] == y;
      }
      InsertDistinct(s[0], sorted, key, rank);
    }
  }
}
