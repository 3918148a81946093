/** Sums over rows and over groups: SUM, COUNT and GROUP BY of the view queries. */
module Sums {

  // Everything the queries sum is pointwise; these lemmas compare two sums row by row.
  ghost function Sum<T>(rows: seq<T>, f: T -> int): int {
    if rows == [] then 0 else Sum(rows[..|rows| - 1], f) + f(rows[|rows| - 1])
  }

  lemma SumOne<T>(x: T, f: T -> int)
    ensures Sum([x], f) == f(x)
  {
    assert [x][..0] == [];
  }

  lemma {:induction false} SumConcat<T>(a: seq<T>, b: seq<T>, f: T -> int)
    ensures Sum(a + b, f) == Sum(a, f) + Sum(b, f)
    decreases |b|
  {
    if b == [] {
      assert a + b == a;
    } else {
      assert (a + b)[..|a + b| - 1] == a + b[..|b| - 1];
      SumConcat(a, b[..|b| - 1], f);
    }
  }

  lemma {:induction false} SumSame<T>(rows: seq<T>, f: T -> int, g: T -> int)
    requires forall x :: x in rows ==> f(x) == g(x)
    ensures Sum(rows, f) == Sum(rows, g)
  {
    if rows != [] {
      assert rows[|rows| - 1] in rows;
      SumSame(rows[..|rows| - 1], f, g);
    }
  }

  lemma {:induction false} SumPlus<T>(rows: seq<T>, f: T -> int, g: T -> int, both: T -> int)
    requires forall x :: x in rows ==> both(x) == f(x) + g(x)
    ensures Sum(rows, both) == Sum(rows, f) + Sum(rows, g)
  {
    if rows != [] {
      assert rows[|rows| - 1] in rows;
      SumPlus(rows[..|rows| - 1], f, g, both);
    }
  }

  lemma {:induction false} SumScaled<T>(rows: seq<T>, f: T -> int, factor: int, scaled: T -> int)
    requires forall x :: x in rows ==> scaled(x) == factor * f(x)
    ensures Sum(rows, scaled) == factor * Sum(rows, f)
  {
    if rows != [] {
      var init, last := rows[..|rows| - 1], rows[|rows| - 1];
      assert last in rows;
      SumScaled(init, f, factor, scaled);
      assert factor * (Sum(init, f) + f(last)) == factor * Sum(init, f) + factor * f(last);
    }
  }

  /** A sum of non-negative terms is zero exactly when every term is. */
  lemma {:induction false} SumZero<T>(rows: seq<T>, f: T -> int)
    requires forall x :: x in rows ==> f(x) >= 0
    ensures Sum(rows, f) >= 0
    ensures Sum(rows, f) == 0 <==> forall x :: x in rows ==> f(x) == 0
  {
    if rows != [] {
      var init, last := rows[..|rows| - 1], rows[|rows| - 1];
      assert last in rows;
      SumZero(init, f);
      assert forall x :: x in rows ==> x in init || x == last;
    }
  }

  // A term is at most the sum.
  lemma {:induction false} SumBounds<T>(rows: seq<T>, f: T -> int, x: T)
    requires (forall y :: y in rows ==> f(y) >= 0) && x in rows
    ensures f(x) <= Sum(rows, f)
  {
    var init, last := rows[..|rows| - 1], rows[|rows| - 1];
    assert last in rows;
    SumZero(init, f);
    if x != last {
      assert x in init;
      SumBounds(init, f, x);
    }
  }

  ghost function Filter<T>(rows: seq<T>, keep: T -> bool): seq<T> {
    if rows == [] then []
    else
      var last := rows[|rows| - 1];
      Filter(rows[..|rows| - 1], keep) + (if keep(last) then [last] else [])
  }

  lemma {:induction false} FilterConcat<T>(a: seq<T>, b: seq<T>, keep: T -> bool)
    ensures Filter(a + b, keep) == Filter(a, keep) + Filter(b, keep)
    decreases |b|
  {
    if b == [] {
      assert a + b == a;
    } else {
      assert (a + b)[..|a + b| - 1] == a + b[..|b| - 1];
      FilterConcat(a, b[..|b| - 1], keep);
    }
  }

  lemma {:induction false} FilterTwice<T>(rows: seq<T>, p: T -> bool, q: T -> bool, both: T -> bool)
    requires forall x :: x in rows ==> (both(x) <==> p(x) && q(x))
    ensures Filter(Filter(rows, p), q) == Filter(rows, both)
  {
    if rows != [] {
      var init, last := rows[..|rows| - 1], rows[|rows| - 1];
      assert last in rows;
      FilterTwice(init, p, q, both);
      FilterConcat(Filter(init, p), if p(last) then [last] else [], q);
    }
  }

  // Summing what a filter keeps.
  lemma {:induction false} SumFilter<T>(rows: seq<T>, keep: T -> bool, f: T -> int, kept: T -> int)
    requires forall x :: x in rows ==> kept(x) == if keep(x) then f(x) else 0
    ensures Sum(Filter(rows, keep), f) == Sum(rows, kept)
  {
    if rows != [] {
      var init, last := rows[..|rows| - 1], rows[|rows| - 1];
      assert last in rows;
      SumFilter(init, keep, f, kept);
      SumConcat(Filter(init, keep), if keep(last) then [last] else [], f);
    }
  }

  ghost function SumOver<K>(keys: set<K>, f: K -> int): int {
    if keys == {} then 0
    else
      var k :| k in keys;
      f(k) + SumOver(keys - {k}, f)
  }

  lemma {:induction false} SumOverRemove<K>(keys: set<K>, f: K -> int, k: K)
    requires k in keys
    ensures SumOver(keys, f) == f(k) + SumOver(keys - {k}, f)
  {
    var first :| first in keys && SumOver(keys, f) == f(first) + SumOver(keys - {first}, f);
    if first != k {
      SumOverRemove(keys - {first}, f, k);
      SumOverRemove(keys - {k}, f, first);
      assert keys - {first} - {k} == keys - {k} - {first};
    }
  }

  lemma {:induction false} SumOverSame<K>(keys: set<K>, f: K -> int, g: K -> int)
    requires forall k :: k in keys ==> f(k) == g(k)
    ensures SumOver(keys, f) == SumOver(keys, g)
  {
    if keys != {} {
      var k :| k in keys;
      SumOverSame(keys - {k}, f, g);
      SumOverRemove(keys, f, k);
      SumOverRemove(keys, g, k);
    }
  }

  /** GROUP BY: summing the sums of the groups sums the rows over their groups. */
  lemma {:induction false} SumOfGroups<K, T>(keys: set<K>, rows: seq<T>, column: K -> T -> int,
                                             row: T -> K -> int, total: K -> int, flat: T -> int)
    requires forall k, x :: column(k)(x) == row(x)(k)
    requires forall k :: k in keys ==> total(k) == Sum(rows, column(k))
    requires forall x :: x in rows ==> flat(x) == SumOver(keys, row(x))
    ensures SumOver(keys, total) == Sum(rows, flat)
    decreases |keys|
  {
    if keys == {} {
      SumZero(rows, flat);
    } else {
      var k :| k in keys;
      var rest := x => SumOver(keys - {k}, row(x));
      SumOfGroups(keys - {k}, rows, column, row, total, rest);
      SumOverRemove(keys, total, k);
      forall x | x in rows
        ensures flat(x) == column(k)(x) + rest(x)
      {
        SumOverRemove(keys, row(x), k);
      }
      SumPlus(rows, column(k), rest, flat);
    }
  }

  // At most one group holds a row.
  lemma {:induction false} SumOverOne<K>(keys: set<K>, f: K -> int, k: K)
    requires k in keys && forall j :: j in keys && j != k ==> f(j) == 0
    ensures SumOver(keys, f) == f(k)
  {
    SumOverRemove(keys, f, k);
    SumOverNone(keys - {k}, f);
  }

  lemma {:induction false} SumOverNone<K>(keys: set<K>, f: K -> int)
    requires forall j :: j in keys ==> f(j) == 0
    ensures SumOver(keys, f) == 0
  {
    if keys != {} {
      var k :| k in keys;
      SumOverNone(keys - {k}, f);
      SumOverRemove(keys, f, k);
    }
  }

  /** COUNT(DISTINCT ...): keys that identify their row count the rows. */
  lemma {:induction false} CountDistinct<K, V>(rows: set<K>, key: K -> V, keys: set<V>)
    requires forall i, j :: i in rows && j in rows && key(i) == key(j) ==> i == j
    requires forall i :: i in rows ==> key(i) in keys
    requires forall v :: v in keys ==> exists i :: i in rows && key(i) == v
    ensures |keys| == |rows|
    decreases |rows|
  {
    if rows == {} {
      assert keys == {};
    } else {
      var i :| i in rows;
      var rest := keys - {key(i)};
      forall v | v in rest
        ensures exists j :: j in rows - {i} && key(j) == v
      {
        var j :| j in rows && key(j) == v;
        assert j in rows - {i};
      }
      CountDistinct(rows - {i}, key, rest);
      assert keys == rest + {key(i)};
    }
  }
}
