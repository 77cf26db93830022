/** Squaring by columns: products of bigits grouped by the weight they have. */
module Convolution {
  import opened U32
  import opened BigNum
  import Arith

  /** What row `r` of the product table adds to column `c`. */
  function Cell(s: seq<u32>, r: nat, c: nat): nat
    requires r < |s|
  {
    if r <= c < r + |s| then s[r] as nat * s[c - r] as nat else 0
  }

  /** Column `c`, from the first `k` rows. */
  function Column(s: seq<u32>, k: nat, c: nat): nat
    requires k <= |s|
  {
    if k == 0 then 0 else Column(s, k - 1, c) + Cell(s, k - 1, c)
  }

  /** The first `n` columns with their weights. */
  function Columns(s: seq<u32>, k: nat, n: nat): nat
    requires k <= |s|
  {
    if n == 0 then 0 else Columns(s, k, n - 1) + Column(s, k, n - 1) * Base(n - 1)
  }

  /** The first `n` columns of one row. */
  function Row(s: seq<u32>, r: nat, n: nat): nat
    requires r < |s|
  {
    if n == 0 then 0 else Row(s, r, n - 1) + Cell(s, r, n - 1) * Base(n - 1)
  }

  lemma {:induction false} RowIs(s: seq<u32>, r: nat, n: nat)
    requires r < |s|
    ensures n <= r ==> Row(s, r, n) == 0
    ensures r <= n <= r + |s| ==> Row(s, r, n) == s[r] * Base(r) * Num(s[..n - r])
    ensures r + |s| <= n ==> Row(s, r, n) == s[r] * Base(r) * Num(s)
  {
    if n > 0 {
      RowIs(s, r, n - 1);
    }
    if n == r {
      assert s[..0] == [] && Num([]) == 0;
    } else if r < n <= r + |s| {
      hide Num, Base;
      BaseSum(r, n - 1 - r);
      NumPrefix(s, n - 1 - r);
      RowStep(s[r], Base(r), Num(s[..n - 1 - r]), s[n - 1 - r], Base(n - 1 - r), Base(n - 1), Num(s[..n - r]));
      assert n == r + |s| ==> s[..n - r] == s;
    }
  }

  lemma RowStep(x: int, p: int, m: int, y: int, q: int, pq: int, m': int)
    requires pq == p * q && m' == m + y * q
    ensures x * p * m + x * y * pq == x * p * m'
  {
    assert x * p * (m + y * q) == x * p * m + x * p * (y * q);
    Regroup(x, y, p, q);
  }

  lemma {:induction false} OneMoreRow(s: seq<u32>, k: nat, n: nat)
    requires 0 < k <= |s|
    ensures Columns(s, k, n) == Columns(s, k - 1, n) + Row(s, k - 1, n)
  {
    if n > 0 {
      OneMoreRow(s, k, n - 1);
      hide Cell, Base;
      AddScaled(Column(s, k, n - 1), Column(s, k - 1, n - 1), Cell(s, k - 1, n - 1), Base(n - 1));
    }
  }

  lemma AddScaled(m: int, x: int, y: int, p: int)
    requires m == x + y
    ensures m * p == x * p + y * p
  {
  }

  /** The weighted columns add up to the product. */
  lemma {:induction false} ColumnsAreProduct(s: seq<u32>, k: nat, n: nat)
    requires k <= |s| && 2 * |s| <= n
    ensures Columns(s, k, n) == Num(s[..k]) * Num(s)
  {
    hide Num, Base, Columns, Row;
    if k == 0 {
      NoRows(s, n);
    } else {
      ColumnsAreProduct(s, k - 1, n);
      OneMoreRow(s, k, n);
      RowIs(s, k - 1, n);
      NumPrefix(s, k - 1);
      var x, p, m := s[k - 1], Base(k - 1), Num(s);
      Arith.MulAssociative(x, p, m);
      ScaleSum(Num(s[..k]), Num(s[..k - 1]), x, p, m, p * m);
    }
  }

  lemma {:induction false} NoRows(s: seq<u32>, n: nat)
    ensures Columns(s, 0, n) == 0 && Num(s[..0]) == 0
  {
    if n > 0 {
      NoRows(s, n - 1);
    }
  }

  /** Rows beyond the column's diagonal add nothing to it. */
  lemma {:induction false} ColumnFull(s: seq<u32>, k: nat, c: nat)
    requires c + 1 <= k <= |s|
    ensures Column(s, k, c) == Column(s, c + 1, c)
  {
    if k > c + 1 {
      ColumnFull(s, k - 1, c);
    }
  }

  /** Nor do rows too far below it. */
  lemma {:induction false} ColumnEmpty(s: seq<u32>, k: nat, c: nat)
    requires k <= |s| && k + |s| <= c + 1
    ensures Column(s, k, c) == 0
  {
    if k > 0 {
      ColumnEmpty(s, k - 1, c);
    }
  }

  lemma {:induction false} ColumnBound(s: seq<u32>, k: nat, c: nat)
    requires k <= |s|
    ensures Column(s, k, c) <= k * ((MODULUS - 1) * (MODULUS - 1))
  {
    if k > 0 {
      ColumnBound(s, k - 1, c);
      if k - 1 <= c < k - 1 + |s| {
        MulMonotone(s[k - 1], MODULUS - 1, s[c - (k - 1)], MODULUS - 1);
      }
    }
  }
}
