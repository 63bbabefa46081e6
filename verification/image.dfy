/** Conversion of a frame's pixel temperatures into an 8-bit grey image of
    24 rows by 32 columns, scaled to the frame's own temperature range.
    Arithmetic is exact: the division is on reals and the cast to a byte
    truncates. */
module Image {
  import opened Wire
  import opened Frame

  /** Image height. */
  const Rows := 24
  /** Image width. */
  const Cols := 32

  /** A sequence of `Rows` rows of `Cols` cells each. */
  ghost predicate IsGrid<T>(g: seq<seq<T>>)
  {
    |g| == Rows && forall r :: 0 <= r < Rows ==> |g[r]| == Cols
  }

  /** Cuts a flat sequence into rows, row-major: cell (r, c) is element
      `Cols * r + c`. */
  function Reshape<T>(s: seq<T>): (g: seq<seq<T>>)
    requires |s| == Rows * Cols
    ensures IsGrid(g)
    ensures forall r, c :: 0 <= r < Rows && 0 <= c < Cols ==> g[r][c] == s[Cols * r + c]
  {
    seq(Rows, r requires 0 <= r < Rows => s[Cols * r .. Cols * r + Cols])
  }

  /** Concatenates the rows of a grid. */
  function Flatten<T>(g: seq<seq<T>>): (s: seq<T>)
  {
    if g == [] then [] else g[0] + Flatten(g[1..])
  }

  /** The rows `Cols * k ..` of `s`, from row `k` on, flatten back to the
      tail of `s` they were cut from. */
  lemma {:induction false} FlattenSlices<T>(s: seq<T>, k: nat)
    requires |s| == Rows * Cols
    requires k <= Rows
    ensures Flatten(Reshape(s)[k..]) == s[Cols * k..]
    decreases Rows - k
  {
    var g := Reshape(s);
    if k < Rows {
      FlattenSlices(s, k + 1);
      assert g[k..][1..] == g[k + 1..];
      assert g[k] == s[Cols * k .. Cols * k + Cols];
      assert s[Cols * k..] == s[Cols * k .. Cols * k + Cols] + s[Cols * (k + 1)..];
    }
  }

  /** Flattening a reshaped sequence gives the sequence back. */
  lemma FlattenReshape<T>(s: seq<T>)
    requires |s| == Rows * Cols
    ensures Flatten(Reshape(s)) == s
  {
    FlattenSlices(s, 0);
    assert Reshape(s)[0..] == Reshape(s);
  }

  /** Flattening `k` rows of `Cols` cells yields `Cols * k` cells, and cell
      `c` of row `r` lands at `Cols * r + c`. */
  lemma {:induction false} FlattenAt<T>(g: seq<seq<T>>)
    requires forall r :: 0 <= r < |g| ==> |g[r]| == Cols
    ensures |Flatten(g)| == Cols * |g|
    ensures forall r, c :: 0 <= r < |g| && 0 <= c < Cols ==> Flatten(g)[Cols * r + c] == g[r][c]
  {
    if g != [] {
      FlattenAt(g[1..]);
      var rest := Flatten(g[1..]);
      assert Flatten(g) == g[0] + rest;
      forall r, c | 0 <= r < |g| && 0 <= c < Cols
        ensures Flatten(g)[Cols * r + c] == g[r][c]
      {
        if r > 0 {
          assert g[r] == g[1..][r - 1];
          assert Flatten(g)[Cols * r + c] == rest[Cols * (r - 1) + c];
        }
      }
    }
  }

  /** Reshaping a flattened grid gives the grid back. */
  lemma ReshapeFlatten<T>(g: seq<seq<T>>)
    requires IsGrid(g)
    ensures |Flatten(g)| == Rows * Cols
    ensures Reshape(Flatten(g)) == g
  {
    FlattenAt(g);
    var h := Reshape(Flatten(g));
    forall r | 0 <= r < Rows
      ensures h[r] == g[r]
    {
      assert forall c :: 0 <= c < Cols ==> h[r][c] == g[r][c];
    }
  }

  /** The value computed for sample `v` (hundredths of a degree) against
      a range given in degrees, before it is cast to a byte. */
  function Scaled(v: int, tminDeg: real, tmaxDeg: real): (x: real)
    requires tminDeg != tmaxDeg
    ensures x * (tmaxDeg - tminDeg) == (Celsius(v) - tminDeg) * 255.0
  {
    (Celsius(v) - tminDeg) * 255.0 / (tmaxDeg - tminDeg)
  }

  /** The byte for one sample: the scaled value truncated. The cast is only
      defined for values a byte can hold. */
  function Pixel(v: int, tminDeg: real, tmaxDeg: real): (p: uint8)
    requires tminDeg != tmaxDeg
    requires 0.0 <= Scaled(v, tminDeg, tmaxDeg) < 256.0
    ensures p as real <= Scaled(v, tminDeg, tmaxDeg) < p as real + 1.0
  {
    Scaled(v, tminDeg, tmaxDeg).Floor
  }

  /** Every sample can be cast. */
  ghost predicate Castable(f: seq<int16>, tminDeg: real, tmaxDeg: real)
  {
    tminDeg != tmaxDeg &&
    forall i :: 0 <= i < |f| ==> 0.0 <= Scaled(f[i], tminDeg, tmaxDeg) < 256.0
  }

  /** Scales every sample of a frame to a byte and lays the bytes out as
      the 24-by-32 image, row-major. */
  function TdToImage(f: seq<int16>, tminDeg: real, tmaxDeg: real): (img: seq<seq<uint8>>)
    requires |f| == Rows * Cols
    requires Castable(f, tminDeg, tmaxDeg)
    ensures IsGrid(img)
    ensures forall r, c :: 0 <= r < Rows && 0 <= c < Cols ==>
      img[r][c] == Pixel(f[Cols * r + c], tminDeg, tmaxDeg)
    ensures forall r, c :: 0 <= r < Rows && 0 <= c < Cols ==>
      img[r][c] as real <= Scaled(f[Cols * r + c], tminDeg, tmaxDeg) < img[r][c] as real + 1.0
  {
    var bytes := seq(|f|, i requires 0 <= i < |f| => Pixel(f[i], tminDeg, tmaxDeg));
    Reshape(bytes)
  }

  /** For a range given as centi-degree bounds divided by 100, the scaled
      value equals `(v - lo) * 255 / (hi - lo)` in exact arithmetic: the
      divisions by 100 cancel. */
  lemma ScaledCenti(v: int, lo: int, hi: int)
    requires lo < hi
    ensures Scaled(v, Celsius(lo), Celsius(hi))
      == ((v - lo) * 255) as real / (hi - lo) as real
  {
    var a := Celsius(v) - Celsius(lo);
    var b := Celsius(hi) - Celsius(lo);
    assert a == (v - lo) as real / 100.0;
    assert b == (hi - lo) as real / 100.0;
    assert a * 255.0 == ((v - lo) * 255) as real / 100.0;
  }

  /** The byte for centi-degree sample `v` against centi-degree bounds
      `lo`, `hi`, in integer arithmetic. */
  function ScaleCenti(v: int, lo: int, hi: int): int
    requires lo < hi
  {
    (v - lo) * 255 / (hi - lo)
  }

  /** Truncating an exact quotient of integers is integer division. */
  lemma FloorOfQuotient(n: int, m: int)
    requires n >= 0 && m > 0
    ensures (n as real / m as real).Floor == n / m
  {
    var q, r := n / m, n % m;
    assert n == q * m + r;
    var x := n as real / m as real;
    assert x == q as real + r as real / m as real;
    assert 0.0 <= r as real / m as real < 1.0;
  }

  /** An exact quotient of integers is bounded as the integers are. */
  lemma QuotientAtMost(n: int, m: int, k: int)
    requires 0 <= n <= k * m && m > 0
    ensures 0.0 <= n as real / m as real <= k as real
  {
    var x, y := n as real, m as real;
    assert x <= (k as real) * y;
    assert x / y <= (k as real) * y / y;
  }

  /** With the range set to the frame's own extrema, the byte for a sample
      is `(v - lo) * 255 / (hi - lo)` in integer division, and it lies in
      0..255. */
  lemma PixelCenti(v: int, lo: int, hi: int)
    requires lo <= v <= hi && lo < hi
    ensures 0.0 <= Scaled(v, Celsius(lo), Celsius(hi)) <= 255.0
    ensures Pixel(v, Celsius(lo), Celsius(hi)) == ScaleCenti(v, lo, hi)
  {
    ScaledCenti(v, lo, hi);
    var n, m := (v - lo) * 255, hi - lo;
    assert n <= 255 * m;
    QuotientAtMost(n, m, 255);
    FloorOfQuotient(n, m);
  }

  /** With the frame's own extrema as range, every sample can be cast. */
  lemma ExtremaCastable(f: seq<int16>, lo: int, hi: int)
    requires lo < hi
    requires forall i :: 0 <= i < |f| ==> lo <= f[i] <= hi
    ensures Castable(f, Celsius(lo), Celsius(hi))
  {
    forall i | 0 <= i < |f|
      ensures 0.0 <= Scaled(f[i], Celsius(lo), Celsius(hi)) < 256.0
    {
      PixelCenti(f[i], lo, hi);
    }
  }

  /** Scaling preserves order: a warmer sample never gets a smaller byte. */
  lemma PixelMonotone(a: int, b: int, lo: int, hi: int)
    requires lo <= a <= b <= hi && lo < hi
    ensures 0.0 <= Scaled(a, Celsius(lo), Celsius(hi)) < 256.0
    ensures 0.0 <= Scaled(b, Celsius(lo), Celsius(hi)) < 256.0
    ensures Pixel(a, Celsius(lo), Celsius(hi)) <= Pixel(b, Celsius(lo), Celsius(hi))
  {
    PixelCenti(a, lo, hi);
    PixelCenti(b, lo, hi);
    var m := hi - lo;
    DivMonotone((a - lo) * 255, (b - lo) * 255, m);
  }

  /** Integer division by a positive number preserves order. */
  lemma DivMonotone(x: int, y: int, m: int)
    requires 0 <= x <= y && m > 0
    ensures x / m <= y / m
  {
    var qx, qy := x / m, y / m;
    assert qx * m <= x;
    assert y < qy * m + m;
    assert qx * m < (qy + 1) * m;
  }

  /** The coldest sample of the range maps to 0 and the warmest to 255. */
  lemma PixelEndpoints(lo: int, hi: int)
    requires lo < hi
    ensures 0.0 <= Scaled(lo, Celsius(lo), Celsius(hi)) < 256.0
    ensures 0.0 <= Scaled(hi, Celsius(lo), Celsius(hi)) < 256.0
    ensures Pixel(lo, Celsius(lo), Celsius(hi)) == 0
    ensures Pixel(hi, Celsius(lo), Celsius(hi)) == 255
  {
    var tmin, tmax := Celsius(lo), Celsius(hi);
    var span := tmax - tmin;
    assert span > 0.0;
    assert Scaled(lo, tmin, tmax) == 0.0 * 255.0 / span == 0.0;
    assert Scaled(hi, tmin, tmax) == span * 255.0 / span == 255.0;
  }

  /** With the frame's own extrema as range, cell (r, c) of the image is
      sample `Cols * r + c` scaled in integer arithmetic. */
  lemma ImageCell(f: seq<int16>, lo: int, hi: int, r: int, c: int)
    requires |f| == Rows * Cols && lo < hi
    requires forall i :: 0 <= i < |f| ==> lo <= f[i] <= hi
    requires 0 <= r < Rows && 0 <= c < Cols
    ensures Castable(f, Celsius(lo), Celsius(hi))
    ensures TdToImage(f, Celsius(lo), Celsius(hi))[r][c] == ScaleCenti(f[Cols * r + c], lo, hi)
  {
    ExtremaCastable(f, lo, hi);
    PixelCenti(f[Cols * r + c], lo, hi);
  }

  /** With the frame's own extrema as range, a warmer sample never gets a
      darker cell. */
  lemma ImageMonotone(f: seq<int16>, lo: int, hi: int, r1: int, c1: int, r2: int, c2: int)
    requires |f| == Rows * Cols && lo < hi
    requires forall i :: 0 <= i < |f| ==> lo <= f[i] <= hi
    requires 0 <= r1 < Rows && 0 <= c1 < Cols
    requires 0 <= r2 < Rows && 0 <= c2 < Cols
    requires f[Cols * r1 + c1] <= f[Cols * r2 + c2]
    ensures Castable(f, Celsius(lo), Celsius(hi))
    ensures var img := TdToImage(f, Celsius(lo), Celsius(hi));
      img[r1][c1] <= img[r2][c2]
  {
    ExtremaCastable(f, lo, hi);
    var a, b := f[Cols * r1 + c1], f[Cols * r2 + c2];
    PixelMonotone(a, b, lo, hi);
    PixelCenti(a, lo, hi);
    PixelCenti(b, lo, hi);
  }

  /** With the frame's own extrema as range, the image uses the full
      scale: some cell is 0 and some cell is 255. */
  lemma ImageSpansFullScale(f: seq<int16>, lo: int, hi: int)
    requires |f| == Rows * Cols && lo < hi
    requires forall i :: 0 <= i < |f| ==> lo <= f[i] <= hi
    requires lo in f && hi in f
    ensures Castable(f, Celsius(lo), Celsius(hi))
    ensures var img := TdToImage(f, Celsius(lo), Celsius(hi));
      && (exists r, c :: 0 <= r < Rows && 0 <= c < Cols && img[r][c] == 0)
      && (exists r, c :: 0 <= r < Rows && 0 <= c < Cols && img[r][c] == 255)
  {
    ExtremaCastable(f, lo, hi);
    var img := TdToImage(f, Celsius(lo), Celsius(hi));
    PixelEndpoints(lo, hi);
    var i :| 0 <= i < |f| && f[i] == lo;
    var j :| 0 <= j < |f| && f[j] == hi;
    var ri, ci := i / Cols, i % Cols;
    var rj, cj := j / Cols, j % Cols;
    assert Cols * ri + ci == i && Cols * rj + cj == j;
    assert img[ri][ci] == Pixel(lo, Celsius(lo), Celsius(hi));
    assert img[rj][cj] == Pixel(hi, Celsius(lo), Celsius(hi));
  }
}
