/** Integer arithmetic of the patch grid: Python's floor division, the size
    truncation, the `range` of patch origins, the row-major enumeration of the
    partition and the index-to-offset mapping of the reassembly. */
module Grid {

  /** Python's `a // b`: the quotient rounded toward minus infinity. */
  function FloorDiv(a: int, b: int): (q: int)
    requires b != 0
    ensures b > 0 ==> q * b <= a < q * b + b
    ensures b < 0 ==> q * b + b < a <= q * b
  {
    if b > 0 || a % b == 0 then a / b else a / b - 1
  }

  /** Python's `a % b`: the remainder takes the sign of the divisor. */
  function FloorMod(a: int, b: int): (m: int)
    requires b != 0
    ensures a == FloorDiv(a, b) * b + m
    ensures b > 0 ==> 0 <= m < b
    ensures b < 0 ==> b < m <= 0
  {
    a - FloorDiv(a, b) * b
  }

  /** For a positive divisor Python's `//` and `%` agree with Dafny's. */
  lemma FloorAgreesForPositive(a: int, b: int)
    requires b > 0
    ensures FloorDiv(a, b) == a / b && FloorMod(a, b) == a % b
  {
  }

  /** Euclidean division: `a` is `a / d` whole blocks of `d` plus `a % d`. */
  lemma DivMod(a: int, d: int)
    requires d > 0
    ensures a == (a / d) * d + a % d && 0 <= a % d < d
  {
  }

  lemma MulMonotone(a: int, b: int, d: int)
    requires a <= b && d > 0
    ensures a * d <= b * d
  {
    assert b * d - a * d == (b - a) * d;
  }

  /** `x` lies in the `q`-th block of `d` consecutive integers exactly when
      `x / d` is `q`; the offset inside the block is `x % d`. */
  lemma DivModUnique(x: int, d: int, q: int)
    requires d > 0 && q * d <= x < q * d + d
    ensures x / d == q && x % d == x - q * d
  {
    var q' := x / d;
    DivMod(x, d);
    if q' < q {
      MulMonotone(q' + 1, q, d);
      assert false;
    } else if q' > q {
      MulMonotone(q + 1, q', d);
      assert false;
    }
  }

  lemma DivModOfCombination(a: int, b: int, d: int)
    requires d > 0 && 0 <= b < d
    ensures (a * d + b) / d == a && (a * d + b) % d == b
  {
    DivModUnique(a * d + b, d, a);
  }

  /** A multiple of `p` leaves no remainder, whatever the sign of `p`. */
  lemma MultipleMod(q: int, p: int)
    requires p != 0
    ensures (q * p) % p == 0
  {
    if p > 0 {
      DivModOfCombination(q, 0, p);
    } else {
      assert q * p == (-q) * p + 2 * q * p;
      var x := q * p;
      assert x == (x / p) * p + x % p;
      assert x == (-q) * (-p);
      DivModOfCombination(-q, 0, -p);
      assert x % (-p) == 0;
      assert x == (x / (-p)) * (-p);
      assert x == (-(x / (-p))) * p;
      assert 0 <= x % p < -p;
      var k := x / p + x / (-p);
      assert x % p == k * (-p);
      if k > 0 { MulMonotone(1, k, -p); assert false; }
      if k < 0 { MulMonotone(k, -1, -p); assert false; }
    }
  }

  /** `(dim // p) * p`, the size truncation of `resize_image`. For a positive
      patch dimension it is the largest multiple of `p` not above `dim`; for a
      negative one Python's floor division rounds the other way and yields the
      smallest multiple not below `dim`. A size that is already a multiple is
      left alone. */
  function TruncatedDim(dim: nat, p: int): (r: nat)
    requires p != 0
    ensures r % p == 0
    ensures p > 0 ==> r <= dim && dim - r < p
    ensures p < 0 ==> dim <= r && r - dim < -p
    ensures dim % p == 0 ==> r == dim
  {
    TruncationBounds(dim, p);
    FloorDiv(dim, p) * p
  }

  lemma TruncationBounds(dim: nat, p: int)
    requires p != 0
    ensures 0 <= FloorDiv(dim, p) * p
    ensures (FloorDiv(dim, p) * p) % p == 0
    ensures dim % p == 0 ==> FloorDiv(dim, p) * p == dim
  {
    var q := FloorDiv(dim, p);
    MultipleMod(q, p);
    if dim % p == 0 {
      assert q == dim / p;
      if p > 0 {
        DivMod(dim, p);
      } else {
        assert dim == (dim / p) * p + dim % p;
      }
    }
  }

  /** Python's `range(0, stop, step)`: the multiples of `step` from 0 upward
      and below `stop`, none left out; empty for a negative step. */
  function Range(stop: nat, step: int): (r: seq<int>)
    requires step != 0
    ensures step < 0 ==> r == []
    ensures forall i :: 0 <= i < |r| ==> r[i] == i * step && 0 <= r[i] < stop
    ensures step > 0 ==> stop <= |r| * step
  {
    if step < 0 then []
    else
      var n := (stop + step - 1) / step;
      CeilingBounds(stop, step);
      seq(n, i requires 0 <= i < n => i * step)
  }

  /** `(stop + step - 1) / step` blocks of `step` reach `stop`, and every
      block but the last starts below it. */
  lemma CeilingBounds(stop: nat, step: int)
    requires step > 0
    ensures stop <= ((stop + step - 1) / step) * step
    ensures forall i :: 0 <= i < (stop + step - 1) / step ==> 0 <= i * step < stop
  {
    var n := (stop + step - 1) / step;
    DivMod(stop + step - 1, step);
    forall i | 0 <= i < n
      ensures 0 <= i * step < stop
    {
      MulMonotone(i, n - 1, step);
      MulMonotone(0, i, step);
      assert (n - 1) * step == n * step - step;
    }
  }

  /** When `step` divides `stop` the range holds exactly `stop / step` origins. */
  lemma RangeLength(stop: nat, step: int)
    requires step > 0 && stop % step == 0
    ensures |Range(stop, step)| == stop / step
  {
    var r := Range(stop, step);
    var m, n := |r|, stop / step;
    DivMod(stop, step);
    if m > 0 {
      assert r[m - 1] == (m - 1) * step < n * step;
      MulCancel(m - 1, n, step);
    }
    MulCancel(n - 1, m, step);
  }

  /** Multiplication by a positive number preserves strict order backwards. */
  lemma MulCancel(a: int, b: int, d: int)
    requires d > 0 && a * d < b * d
    ensures a < b
  {
    if a >= b {
      MulMonotone(b, a, d);
    }
  }

  /** The pairs `(x, y)` in the order of the double loop `for y in ys: for x in xs`. */
  function RowMajor(ys: seq<int>, xs: seq<int>): (r: seq<(int, int)>)
    ensures |r| == |ys| * |xs|
  {
    if |ys| == 0 then []
    else seq(|xs|, i requires 0 <= i < |xs| => (xs[i], ys[0])) + RowMajor(ys[1..], xs)
  }

  /** The `k`-th pair of the double loop takes its `x` from position `k % |xs|`
      and its `y` from position `k / |xs|`. */
  lemma {:induction false} RowMajorIndex(ys: seq<int>, xs: seq<int>, k: int)
    requires 0 <= k < |ys| * |xs|
    ensures |xs| > 0 && k / |xs| < |ys|
    ensures RowMajor(ys, xs)[k] == (xs[k % |xs|], ys[k / |xs|])
  {
    var n := |xs|;
    PositiveFactors(|ys|, n);
    QuotientBound(k, |ys|, n);
    RowMajorUnfold(ys, xs, k);
    if k < n {
      DivModOfCombination(0, k, n);
    } else {
      RowMajorIndex(ys[1..], xs, k - n);
      DivModStep(k, n);
    }
  }

  /** The first row of the double loop, then the rest. */
  lemma RowMajorUnfold(ys: seq<int>, xs: seq<int>, k: int)
    requires 0 <= k < |ys| * |xs|
    ensures |ys| > 0
    ensures k < |xs| ==> RowMajor(ys, xs)[k] == (xs[k], ys[0])
    ensures k >= |xs| ==>
      0 <= k - |xs| < (|ys| - 1) * |xs| && RowMajor(ys, xs)[k] == RowMajor(ys[1..], xs)[k - |xs|]
  {
    PositiveFactors(|ys|, |xs|);
    LengthOfTail(|ys|, |xs|);
  }

  /** An index below `rows * n` lies in one of the first `rows` blocks of `n`. */
  lemma QuotientBound(k: int, rows: int, n: int)
    requires n > 0 && 0 <= k < rows * n
    ensures 0 <= k / n < rows
  {
    DivMod(k, n);
    MulCancel(k / n, rows, n);
  }

  lemma PositiveFactors(a: nat, b: nat)
    requires a * b > 0
    ensures a > 0 && b > 0
  {
  }

  lemma LengthOfTail(rows: nat, n: nat)
    requires rows > 0 || n == 0
    ensures rows * n == (rows - 1) * n + n
  {
  }

  /** One block of `n` fewer: the quotient drops by one, the remainder stays. */
  lemma DivModStep(k: int, n: int)
    requires n > 0
    ensures (k - n) / n + 1 == k / n && (k - n) % n == k % n
  {
    var q, m := (k - n) / n, (k - n) % n;
    DivMod(k - n, n);
    assert k == (q + 1) * n + m;
    DivModOfCombination(q + 1, m, n);
  }

  /** The patch origins visited by the nested loop of `image_to_patches` over
      a `width` x `height` image, in row-major order. */
  function PatchOrigins(width: nat, height: nat, pw: int, ph: int): (r: seq<(int, int)>)
    requires pw != 0 && ph != 0
    ensures pw < 0 || ph < 0 ==> r == []
  {
    RowMajor(Range(height, ph), Range(width, pw))
  }

  /** The offset at which `patches_to_image` pastes patch `i`: column `i % cols`,
      row `i // cols`, scaled by the patch size. */
  function CellOrigin(i: int, cols: int, pw: int, ph: int): (r: (int, int))
    requires cols != 0
    ensures i >= 0 && cols > 0 && pw > 0 && ph > 0 ==>
      && 0 <= r.0 < cols * pw && 0 <= r.1
      && CellIndex(r.0, r.1, cols, pw, ph) == i
  {
    CellOriginInverse(i, cols, pw, ph);
    (FloorMod(i, cols) * pw, FloorDiv(i, cols) * ph)
  }

  /** The pixel at the origin of patch `i`'s cell lies in cell `i`. */
  lemma CellOriginInverse(i: int, cols: int, pw: int, ph: int)
    requires cols != 0
    ensures i >= 0 && cols > 0 && pw > 0 && ph > 0 ==>
      var (ox, oy) := (FloorMod(i, cols) * pw, FloorDiv(i, cols) * ph);
      && 0 <= ox < cols * pw && 0 <= oy
      && (oy / ph) * cols + ox / pw == i
  {
    if i >= 0 && cols > 0 && pw > 0 && ph > 0 {
      FloorAgreesForPositive(i, cols);
      DivMod(i, cols);
      DivModOfCombination(i % cols, 0, pw);
      DivModOfCombination(i / cols, 0, ph);
      MulMonotone(i % cols, cols - 1, pw);
      MulMonotone(0, i / cols, ph);
      MulMonotone(0, i % cols, pw);
    }
  }

  /** Does the cell of patch `i` contain pixel (`x`, `y`)? */
  predicate InCell(i: int, cols: int, pw: int, ph: int, x: int, y: int)
    requires cols != 0
  {
    var (ox, oy) := CellOrigin(i, cols, pw, ph);
    ox <= x < ox + pw && oy <= y < oy + ph
  }

  /** The index of the patch whose cell holds pixel (`x`, `y`). */
  function CellIndex(x: nat, y: nat, cols: nat, pw: nat, ph: nat): nat
    requires pw > 0 && ph > 0
  {
    (y / ph) * cols + x / pw
  }

  /** On an aligned image the partition's `k`-th origin is the reassembly's
      offset for index `k`: the loop's enumeration and the index arithmetic
      name the same cells, and there are `rows * cols` of them. */
  lemma PartitionMatchesReassembly(width: nat, height: nat, pw: int, ph: int, k: int)
    requires pw > 0 && ph > 0 && width % pw == 0 && height % ph == 0
    ensures |PatchOrigins(width, height, pw, ph)| == (height / ph) * (width / pw)
    ensures 0 <= k < (height / ph) * (width / pw) ==>
      width / pw > 0 && PatchOrigins(width, height, pw, ph)[k] == CellOrigin(k, width / pw, pw, ph)
  {
    var xs, ys := Range(width, pw), Range(height, ph);
    var rows, cols := height / ph, width / pw;
    assert |xs| == cols && |ys| == rows by {
      RangeLength(width, pw);
      RangeLength(height, ph);
    }
    if 0 <= k < rows * cols {
      var i, j := k % cols, k / cols;
      assert PatchOrigins(width, height, pw, ph)[k] == (i * pw, j * ph) by {
        RowMajorIndex(ys, xs, k);
        assert xs[i] == i * pw && ys[j] == j * ph;
      }
      assert CellOrigin(k, cols, pw, ph) == (i * pw, j * ph) by {
        FloorAgreesForPositive(k, cols);
      }
    }
  }

  /** Pixel (`x`, `y`) of a canvas `cols * pw` wide lies in the cell of patch
      `i` exactly when `i` is its cell index: the cells do not overlap. */
  lemma CellMembership(i: nat, cols: nat, pw: nat, ph: nat, x: nat, y: nat)
    requires pw > 0 && ph > 0 && cols > 0 && x < cols * pw
    ensures InCell(i, cols, pw, ph, x, y) <==> i == CellIndex(x, y, cols, pw, ph)
  {
    FloorAgreesForPositive(i, cols);
    QuotientBound(x, cols, pw);
    var c, r := i % cols, i / cols;
    assert CellOrigin(i, cols, pw, ph) == (c * pw, r * ph);
    DivMod(i, cols);
    DivMod(x, pw);
    DivMod(y, ph);
    if InCell(i, cols, pw, ph, x, y) {
      DivModUnique(x, pw, c);
      DivModUnique(y, ph, r);
    }
    if i == CellIndex(x, y, cols, pw, ph) {
      DivModOfCombination(y / ph, x / pw, cols);
    }
  }

  /** Each of the `rows * cols` cells lies inside the `cols * pw` x `rows * ph`
      canvas: no paste falls off it, and no crop leaves it. */
  lemma CellInsideCanvas(i: int, rows: nat, cols: nat, pw: nat, ph: nat)
    requires pw > 0 && ph > 0 && cols > 0 && 0 <= i < rows * cols
    ensures 0 <= CellOrigin(i, cols, pw, ph).0 && CellOrigin(i, cols, pw, ph).0 + pw <= cols * pw
    ensures 0 <= CellOrigin(i, cols, pw, ph).1 && CellOrigin(i, cols, pw, ph).1 + ph <= rows * ph
  {
    FloorAgreesForPositive(i, cols);
    QuotientBound(i, rows, cols);
    var c, r := i % cols, i / cols;
    MulMonotone(0, c, pw);
    MulMonotone(c + 1, cols, pw);
    assert (c + 1) * pw == c * pw + pw;
    MulMonotone(0, r, ph);
    MulMonotone(r + 1, rows, ph);
    assert (r + 1) * ph == r * ph + ph;
  }

  /** Every pixel of the `cols * pw` x `rows * ph` canvas belongs to the cell
      of one of the `rows * cols` patches. */
  lemma CellIndexInRange(x: nat, y: nat, rows: nat, cols: nat, pw: nat, ph: nat)
    requires pw > 0 && ph > 0 && x < cols * pw && y < rows * ph
    ensures CellIndex(x, y, cols, pw, ph) < rows * cols
  {
    QuotientBound(x, cols, pw);
    QuotientBound(y, rows, ph);
    var r := y / ph;
    MulMonotone(r + 1, rows, cols);
    assert (r + 1) * cols == r * cols + cols;
  }

  /** The cell holding pixel (`x`, `y`) starts at the pixel rounded down to
      whole patches: the offset inside the patch is `(x % pw, y % ph)`. */
  lemma CellOffset(x: nat, y: nat, cols: nat, pw: nat, ph: nat)
    requires pw > 0 && ph > 0 && x < cols * pw
    ensures cols > 0
    ensures CellOrigin(CellIndex(x, y, cols, pw, ph), cols, pw, ph) == (x - x % pw, y - y % ph)
  {
    QuotientBound(x, cols, pw);
    var i := CellIndex(x, y, cols, pw, ph);
    DivModOfCombination(y / ph, x / pw, cols);
    FloorAgreesForPositive(i, cols);
    DivMod(x, pw);
    DivMod(y, ph);
  }
}
