/**
 * Counting the rows of a query: `queryset.filter(...).count()` over a table
 * given as the sequence of its rows.
 */
module Counting {
  import opened Models

  /** Number of rows that satisfy f. */
  function Count(rows: seq<Product>, f: Product -> bool): (n: nat)
    ensures n <= |rows|
    ensures n == 0 <==> forall x :: x in rows ==> !f(x)
    ensures n == |rows| <==> forall x :: x in rows ==> f(x)
  {
    if rows == [] then 0
    else
      var init := rows[..|rows| - 1];
      assert rows == init + [rows[|rows| - 1]];
      Count(init, f) + (if f(rows[|rows| - 1]) then 1 else 0)
  }

  /** One more row adds one to the count exactly when it satisfies f. */
  lemma CountSnoc(rows: seq<Product>, x: Product, f: Product -> bool)
    ensures Count(rows + [x], f) == Count(rows, f) + (if f(x) then 1 else 0)
  {
    assert (rows + [x])[..|rows|] == rows;
  }

  /** Counting distributes over concatenation of tables. */
  lemma {:induction false} CountAppend(a: seq<Product>, b: seq<Product>, f: Product -> bool)
    ensures Count(a + b, f) == Count(a, f) + Count(b, f)
  {
    if b == [] {
      assert a + b == a;
    } else {
      var b' := b[..|b| - 1];
      assert (a + b)[..|a + b| - 1] == a + b';
      assert (a + b)[|a + b| - 1] == b[|b| - 1];
      CountAppend(a, b', f);
    }
  }

  /** A stronger filter never counts more rows. */
  lemma {:induction false} CountMonotone(rows: seq<Product>, f: Product -> bool, g: Product -> bool)
    requires forall x :: x in rows && f(x) ==> g(x)
    ensures Count(rows, f) <= Count(rows, g)
  {
    if rows != [] {
      CountMonotone(rows[..|rows| - 1], f, g);
    }
  }

  /** Filters that agree on every row count the same. */
  lemma {:induction false} CountSame(rows: seq<Product>, f: Product -> bool, g: Product -> bool)
    requires forall x :: x in rows ==> (f(x) <==> g(x))
    ensures Count(rows, f) == Count(rows, g)
  {
    if rows != [] {
      CountSame(rows[..|rows| - 1], f, g);
    }
  }

  /** A filter that is the disjoint union of two others counts their sum. */
  lemma {:induction false} CountSplit(rows: seq<Product>, h: Product -> bool, f: Product -> bool, g: Product -> bool)
    requires forall x :: x in rows ==> (h(x) <==> f(x) || g(x))
    requires forall x :: x in rows ==> !(f(x) && g(x))
    ensures Count(rows, h) == Count(rows, f) + Count(rows, g)
  {
    if rows != [] {
      CountSplit(rows[..|rows| - 1], h, f, g);
    }
  }

  /** Two disjoint filters together count at most every row. */
  lemma CountDisjointBound(rows: seq<Product>, f: Product -> bool, g: Product -> bool)
    requires forall x :: x in rows ==> !(f(x) && g(x))
    ensures Count(rows, f) + Count(rows, g) <= |rows|
  {
    CountSplit(rows, x => f(x) || g(x), f, g);
  }

  /** Two disjoint filters inside a third together count at most what the third counts. */
  lemma {:induction false} CountDisjointWithin(rows: seq<Product>, f: Product -> bool, g: Product -> bool, h: Product -> bool)
    requires forall x :: x in rows ==> (f(x) ==> h(x)) && (g(x) ==> h(x)) && !(f(x) && g(x))
    ensures Count(rows, f) + Count(rows, g) <= Count(rows, h)
  {
    if rows != [] {
      CountDisjointWithin(rows[..|rows| - 1], f, g, h);
    }
  }

  /** The rows that satisfy f, in table order: `queryset.filter(...)`. */
  function Filter(rows: seq<Product>, f: Product -> bool): (r: seq<Product>)
    ensures |r| == Count(rows, f)
    ensures forall x :: x in r <==> x in rows && f(x)
  {
    if rows == [] then []
    else
      var init, x := rows[..|rows| - 1], rows[|rows| - 1];
      assert rows == init + [x];
      Filter(init, f) + (if f(x) then [x] else [])
  }

  /** Filtering one more row appends it exactly when it satisfies f. */
  lemma FilterSnoc(rows: seq<Product>, x: Product, f: Product -> bool)
    ensures Filter(rows + [x], f) == Filter(rows, f) + (if f(x) then [x] else [])
  {
    assert (rows + [x])[..|rows|] == rows;
  }
}
