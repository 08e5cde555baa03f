/** Division facts used where block and inode numbers are split into group and index. */
module Arith {

  lemma MulLe(a: nat, b: nat, d: nat)
    requires a <= b
    ensures a * d <= b * d
  {
  }

  lemma DivMod(q: nat, d: nat, r: nat)
    requires r < d
    ensures (q * d + r) / d == q && (q * d + r) % d == r
  {
    var a := q * d + r;
    assert a == (a / d) * d + a % d;
    if a / d < q {
      MulLe(a / d + 1, q, d);
    } else if a / d > q {
      MulLe(q + 1, a / d, d);
    }
  }

  /** The index*size byte offset, cut into blocks holding n items each. */
  lemma ItemOffset(index: nat, size: nat, n: nat)
    requires size > 0 && n > 0
    ensures n * size > 0
    ensures (index * size) / (n * size) == index / n
    ensures (index * size) % (n * size) == (index % n) * size
    ensures (index % n) * size + size <= n * size
  {
    var q, r := index / n, index % n;
    assert index == q * n + r;
    assert index * size == q * (n * size) + r * size by {
      assert (q * n + r) * size == q * n * size + r * size;
      assert q * n * size == q * (n * size);
    }
    MulLe(r + 1, n, size);
    assert (r + 1) * size == r * size + size;
    DivMod(q, n * size, r * size);
  }

  /** A number is determined by quotient and remainder. */
  lemma SplitUnique(a: nat, b: nat, d: nat)
    requires d > 0 && a / d == b / d && a % d == b % d
    ensures a == b
  {
    assert a == a / d * d + a % d;
    assert b == b / d * d + b % d;
  }

  lemma Quotient(a: nat, d: nat)
    requires d > 0
    ensures a / d * d <= a
  {
    assert a == a / d * d + a % d;
  }

  /** Division keeps the order. */
  lemma QuotientLe(a: nat, b: nat, d: nat)
    requires d > 0 && a <= b
    ensures a / d <= b / d
  {
    var p, q := a / d, b / d;
    assert a == p * d + a % d;
    assert b == q * d + b % d;
    assert (q + 1) * d == q * d + d;
    if p > q {
      MulLe(q + 1, p, d);
      assert false;
    }
  }

  /** Items i < j of a size each do not overlap. */
  lemma ItemsApart(i: nat, j: nat, size: nat)
    requires i < j
    ensures i * size + size <= j * size
  {
    MulLe(i + 1, j, size);
    assert (i + 1) * size == i * size + size;
  }
}
