/** Integer arithmetic behind the board's boxes: the box dimension that the
    constructor derives from the side length, and the top-left corner of the
    box that holds a given row (or column). */
module BoxArith {

  /** The side length `n` is `k * k`: the box dimension divides the board exactly. */
  predicate Square(n: nat, k: nat) {
    k * k == n
  }

  /** The square root of `n`, rounded down: the exact-integer reading of the
      constructor's `static_cast<int>(sqrt(size))`. */
  function FloorSqrt(n: nat): (r: nat)
    ensures r * r <= n < (r + 1) * (r + 1)
  {
    SqrtFrom(n, 0)
  }

  /** Counts up from `k` to the largest root whose square does not exceed `n`. */
  function SqrtFrom(n: nat, k: nat): (r: nat)
    requires k * k <= n
    ensures k <= r && r * r <= n < (r + 1) * (r + 1)
    decreases n - k
  {
    if n < (k + 1) * (k + 1) then k
    else
      assert k + 1 <= (k + 1) * (k + 1);
      SqrtFrom(n, k + 1)
  }

  lemma MulMonotone(a: int, b: int, c: nat)
    requires a <= b
    ensures a * c <= b * c
  {
    assert b * c - a * c == (b - a) * c;
  }

  lemma SquareMonotone(a: nat, b: nat)
    requires a <= b
    ensures a * a <= b * b
  {
    MulMonotone(a, b, a);
    MulMonotone(a, b, b);
  }

  /** On a perfect square the constructor's box dimension is the exact root. */
  lemma FloorSqrtOfSquare(k: nat)
    ensures FloorSqrt(k * k) == k
    ensures Square(k * k, FloorSqrt(k * k))
  {
    var r := FloorSqrt(k * k);
    if r < k {
      SquareMonotone(r + 1, k);
      assert false;
    } else if r > k {
      assert false;
    }
  }

  /** The first row (or column) of the box that holds row (or column) `x`,
      as computed at main.cpp:69-70. */
  function BoxStart(x: int, k: nat): (r: int)
    requires x >= 1 && k > 0
    ensures 1 <= r <= x < r + k && (r - 1) % k == 0
  {
    var q := (x - 1) / k;
    assert x - 1 == q * k + (x - 1) % k;
    MulMonotone(0, q, k);
    DivUnique(q * k, k, q);
    1 + q * k
  }

  /** The only quotient of `a` by `k` is the one whose multiple brackets `a`. */
  lemma DivUnique(a: int, k: nat, q: int)
    requires a >= 0 && k > 0
    requires q * k <= a < q * k + k
    ensures a / k == q
  {
    var d, m := a / k, a % k;
    assert a == d * k + m && 0 <= m < k;
    if d < q {
      MulMonotone(d + 1, q, k);
      assert false;
    } else if d > q {
      MulMonotone(q + 1, d, k);
      assert false;
    }
  }

  /** Rows `x` and `i` fall in the same band of `k` rows exactly when `i`
      lies in the `k` rows that start at `BoxStart(x, k)`: the scan of
      main.cpp:71-77 visits precisely the cells of the box. */
  lemma SameBandIff(k: nat, x: int, i: int)
    requires k > 0 && x >= 1 && i >= 1
    ensures (i - 1) / k == (x - 1) / k <==> BoxStart(x, k) <= i < BoxStart(x, k) + k
  {
    var q := (x - 1) / k;
    if BoxStart(x, k) <= i < BoxStart(x, k) + k {
      DivUnique(i - 1, k, q);
    }
    if (i - 1) / k == q {
      assert (i - 1) / k * k + (i - 1) % k == i - 1;
    }
  }

  /** When `k * k == n`, every index `BoxStart(x, k) + r` that the box scan
      of main.cpp:71-73 reads stays inside `1..n`. */
  lemma BoxIndexInRange(n: nat, k: nat, x: int, r: int)
    requires Square(n, k) && 1 <= x <= n && 0 <= r < k
    ensures 1 <= BoxStart(x, k) + r <= n
  {
    var q, m := (x - 1) / k, (x - 1) % k;
    assert x - 1 == q * k + m && 0 <= m < k;
    assert q >= 0;
    if q >= k {
      MulMonotone(k, q, k);
      assert false;
    }
    MulMonotone(q, k - 1, k);
    assert (k - 1) * k == k * k - k;
  }

  /** With a side length that is not a perfect square the box scan leaves
      the board: for side 5 the box dimension is 2, the box of row 5 starts
      at row 5, and its second row is row 6, past the last index 5. */
  lemma BoxScanOverrun()
    ensures FloorSqrt(5) == 2
    ensures BoxStart(5, FloorSqrt(5)) + 1 > 5
  {
    assert SqrtFrom(5, 2) == 2;
  }
}
