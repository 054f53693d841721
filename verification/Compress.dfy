/**
  Compression of coefficients (compress.h) by multiplication with a magic constant,
  equal to exact rounding, and its inverse up to the rounding error
  (equations 4.7 and 4.8 of FIPS 203).
*/
module Compress {
  import opened ModQ
  import opened Powers
  import opened Montgomery

  /** The compression widths of ML-KEM, and the width 1 of messages. */
  predicate Width(d: nat) { d == 1 || d == 4 || d == 5 || d == 10 || d == 11 }

  /** 2^d. */
  function Range(d: nat): nat
    requires Width(d)
  {
    if d == 1 then 2 else if d == 4 then 16 else if d == 5 then 32 else if d == 10 then 1024 else 2048
  }

  /** mlk_scalar_compress_d1/d4/d5 in 32-bit and d10/d11 in 64-bit unsigned arithmetic. */
  function ScalarCompress(u: int16, d: nat): int
    requires Width(d) && 0 <= u < Q
  {
    if d == 1 then ((u * 1290168) % 0x1_0000_0000 + 0x4000_0000) % 0x1_0000_0000 / 0x8000_0000
    else if d == 4 then ((u * 1290160) % 0x1_0000_0000 + 0x800_0000) % 0x1_0000_0000 / 0x1000_0000
    else if d == 5 then ((u * 1290176) % 0x1_0000_0000 + 0x400_0000) % 0x1_0000_0000 / 0x800_0000
    else if d == 10 then ((u * 2642263040) + 0x1_0000_0000) / 0x2_0000_0000 % 0x400
    else ((u * 5284526080) + 0x1_0000_0000) / 0x2_0000_0000 % 0x800
  }

  /** The integer nearest to u 2^d / q, which is never a tie, modulo 2^d. */
  function Rounded(u: int, d: nat): (y: int)
    requires Width(d) && 0 <= u < Q
    ensures 0 <= y < Range(d)
  {
    (2 * Range(d) * u + Q) / (2 * Q) % Range(d)
  }

  /** The wrapping multiplications compute exact rounding. */
  lemma ScalarCompressExact(u: int16, d: nat)
    requires Width(d) && 0 <= u < Q
    ensures ScalarCompress(u, d) == Rounded(u, d)
  {
    if d == 1 {
      ExactD1(u);
    } else if d == 4 {
      ExactD4(u);
    } else if d == 5 {
      ExactD5(u);
    } else if d == 10 {
      ExactD10(u);
    } else {
      ExactD11(u);
    }
  }

  lemma Quotient(x: int, y: int, unit: int)
    requires unit > 0 && y * unit <= x < (y + 1) * unit
    ensures x / unit == y
  {
    var k := x / unit;
    assert k * unit <= x < k * unit + unit;
    assert (y + 1) * unit == y * unit + unit && (k + 1) * unit == k * unit + unit;
    if k > y {
      Monotone(y + 1, k, unit);
    } else if k < y {
      Monotone(k + 1, y, unit);
    }
  }

  /** A sum that leaves 32 bits wraps to a quotient of 0. */
  lemma Wrapped(x: int, y: int, unit: int, n: int)
    requires unit > 0 && n * unit == 0x1_0000_0000 && 0 <= y <= n && y * unit <= x < y * unit + unit
             && unit <= 0x1_0000_0000
    ensures x % 0x1_0000_0000 / unit == if y == n then 0 else y
  {
    if y == n {
      var w := x - 0x1_0000_0000;
      assert x % 0x1_0000_0000 == w;
      assert (0 + 1) * unit == unit && 0 * unit == 0;
      Quotient(w, 0, unit);
    } else {
      Monotone(y + 1, n, unit);
      assert (y + 1) * unit == y * unit + unit && 0 <= y * unit;
      assert x % 0x1_0000_0000 == x;
      Quotient(x, y, unit);
    }
  }

  lemma NoWrap(x: int)
    requires 0 <= x < 0x1_0000_0000
    ensures x % 0x1_0000_0000 == x
  {
  }

  lemma WrapsToZero(y: int, n: int)
    requires 0 <= y <= n && (n == 2 || n == 16 || n == 32)
    ensures y % n == if y == n then 0 else y
  {
  }

  lemma MagicD1(u: int, y: int)
    requires 0 <= u < Q && 2 * Q * y <= 4 * u + Q < 2 * Q * y + 2 * Q
    ensures y * 0x8000_0000 <= u * 1290168 + 0x4000_0000 < (y + 1) * 0x8000_0000
  {
    var w := 4 * u + Q - 2 * Q * y;
    assert 2 * Q * (u * 1290168 + 0x4000_0000 - y * 0x8000_0000) == 0x8000_0000 * w + 3952 * u;
  }

  lemma ExactD1(u: int16)
    requires 0 <= u < Q
    ensures ScalarCompress(u, 1) == Rounded(u, 1)
  {
    var y := (4 * u + Q) / (2 * Q);
    MagicD1(u, y);
    Wrapped(u * 1290168 + 0x4000_0000, y, 0x8000_0000, 2);
    NoWrap(u * 1290168);
    WrapsToZero(y, 2);
  }

  lemma MagicD4(u: int, y: int)
    requires 0 <= u < Q && 2 * Q * y <= 32 * u + Q < 2 * Q * y + 2 * Q
    ensures y * 0x1000_0000 <= u * 1290160 + 0x800_0000 < (y + 1) * 0x1000_0000
  {
    var w := 32 * u + Q - 2 * Q * y;
    assert 2 * Q * (u * 1290160 + 0x800_0000 - y * 0x1000_0000) == 0x1000_0000 * w + -49312 * u;
  }

  lemma ExactD4(u: int16)
    requires 0 <= u < Q
    ensures ScalarCompress(u, 4) == Rounded(u, 4)
  {
    var y := (32 * u + Q) / (2 * Q);
    MagicD4(u, y);
    Wrapped(u * 1290160 + 0x800_0000, y, 0x1000_0000, 16);
    NoWrap(u * 1290160);
    WrapsToZero(y, 16);
  }

  lemma MagicD5(u: int, y: int)
    requires 0 <= u < Q && 2 * Q * y <= 64 * u + Q < 2 * Q * y + 2 * Q
    ensures y * 0x800_0000 <= u * 1290176 + 0x400_0000 < (y + 1) * 0x800_0000
  {
    var w := 64 * u + Q - 2 * Q * y;
    assert 2 * Q * (u * 1290176 + 0x400_0000 - y * 0x800_0000) == 0x800_0000 * w + 57216 * u;
  }

  lemma ExactD5(u: int16)
    requires 0 <= u < Q
    ensures ScalarCompress(u, 5) == Rounded(u, 5)
  {
    var y := (64 * u + Q) / (2 * Q);
    MagicD5(u, y);
    Wrapped(u * 1290176 + 0x400_0000, y, 0x800_0000, 32);
    NoWrap(u * 1290176);
    WrapsToZero(y, 32);
  }

  lemma MagicD10(u: int, y: int)
    requires 0 <= u < Q && 2 * Q * y <= 2048 * u + Q < 2 * Q * y + 2 * Q
    ensures y * 0x2_0000_0000 <= u * 2642263040 + 0x1_0000_0000 < (y + 1) * 0x2_0000_0000
  {
    var w := 2048 * u + Q - 2 * Q * y;
    assert 2 * Q * (u * 2642263040 + 0x1_0000_0000 - y * 0x2_0000_0000) == 0x2_0000_0000 * w + 1275904 * u;
  }

  lemma ExactD10(u: int16)
    requires 0 <= u < Q
    ensures ScalarCompress(u, 10) == Rounded(u, 10)
  {
    var y := (2048 * u + Q) / (2 * Q);
    MagicD10(u, y);
    Quotient(u * 2642263040 + 0x1_0000_0000, y, 0x2_0000_0000);
  }

  lemma MagicD11(u: int, y: int)
    requires 0 <= u < Q && 2 * Q * y <= 4096 * u + Q < 2 * Q * y + 2 * Q
    ensures y * 0x2_0000_0000 <= u * 5284526080 + 0x1_0000_0000 < (y + 1) * 0x2_0000_0000
  {
    var w := 4096 * u + Q - 2 * Q * y;
    assert 2 * Q * (u * 5284526080 + 0x1_0000_0000 - y * 0x2_0000_0000) == 0x2_0000_0000 * w + 2551808 * u;
  }

  lemma ExactD11(u: int16)
    requires 0 <= u < Q
    ensures ScalarCompress(u, 11) == Rounded(u, 11)
  {
    var y := (4096 * u + Q) / (2 * Q);
    MagicD11(u, y);
    Quotient(u * 5284526080 + 0x1_0000_0000, y, 0x2_0000_0000);
  }

  /** mlk_scalar_decompress_d4/d5/d10/d11; for d = 1 the selected constant of mlk_poly_frommsg. */
  function ScalarDecompress(y: int, d: nat): (u: int16)
    requires Width(d) && 0 <= y < Range(d)
    ensures 0 <= u < Q
  {
    if d == 1 then (if y == 0 then 0 else Q_HALF)
    else (y * Q + Range(d) / 2) / Range(d)
  }

  /** The multiple of q nearest to u 2^d has the compressed value as its factor, modulo 2^d. */
  lemma NearestCompressed(u: int, d: nat) returns (w: int)
    requires Width(d) && 0 <= u < Q
    ensures -Q < 2 * (Q * w - Range(d) * u) < Q && Rounded(u, d) == w % Range(d)
  {
    w := (2 * Range(d) * u + Q) / (2 * Q);
    var r := (2 * Range(d) * u + Q) % (2 * Q);
    assert 2 * Range(d) * u + Q == (2 * Q) * w + r;
    assert r != 0 by { NoTie(u, w, Range(d)); }
  }

  /** q is odd. */
  lemma NoTie(u: int, w: int, range: int)
    ensures 2 * range * u + Q != (2 * Q) * w
  {
    assert (2 * range * u + Q - (2 * Q) * w) == 2 * (range * u - Q * w) + Q;
  }

  /** The decompressed value times 2^d is nearest to y q, the larger one at a tie. */
  lemma NearestDecompressed(y: int, d: nat)
    requires Width(d) && 0 <= y < Range(d)
    ensures 2 * (Q * y - Range(d) * ScalarDecompress(y, d)) < Range(d)
    ensures 2 * (Range(d) * ScalarDecompress(y, d) - Q * y) <= Range(d)
  {
    if d == 1 {
      assert y == 0 || y == 1;
    } else {
      Nearest(y * Q + Range(d) / 2, Range(d));
    }
  }

  lemma Nearest(x: int, range: int)
    requires range == 16 || range == 32 || range == 1024 || range == 2048
    ensures x - range < range * (x / range) <= x
  {
  }

  /** The largest error of a compression: round(q / 2^(d+1)). */
  function MaxError(d: nat): int
    requires Width(d)
  {
    (Q + Range(d)) / (2 * Range(d))
  }

  lemma MaxErrorValues()
    ensures MaxError(4) == 104 && MaxError(5) == 52 && MaxError(10) == 2 && MaxError(11) == 1
  {
  }

  /** p stands for 2^d times the decompressed value. */
  lemma RoundBack(y: int, p: int, range: int)
    requires p <= y * Q + range / 2 < p + range && 0 < range < Q
    ensures (2 * p + Q) / (2 * Q) == y
  {
  }

  lemma BackD1(y: int)
    requires 0 <= y < 2
    ensures Rounded(ScalarDecompress(y, 1), 1) == y
  {
    var r := (y * Q + 1) / 2;
    assert ScalarDecompress(y, 1) == r;
    RoundBack(y, 2 * r, 2);
  }

  lemma BackD4(y: int)
    requires 0 <= y < 16
    ensures Rounded(ScalarDecompress(y, 4), 4) == y
  {
    var r := (y * Q + 8) / 16;
    assert ScalarDecompress(y, 4) == r;
    RoundBack(y, 16 * r, 16);
  }

  lemma BackD5(y: int)
    requires 0 <= y < 32
    ensures Rounded(ScalarDecompress(y, 5), 5) == y
  {
    var r := (y * Q + 16) / 32;
    assert ScalarDecompress(y, 5) == r;
    RoundBack(y, 32 * r, 32);
  }

  lemma BackD10(y: int)
    requires 0 <= y < 1024
    ensures Rounded(ScalarDecompress(y, 10), 10) == y
  {
    var r := (y * Q + 512) / 1024;
    assert ScalarDecompress(y, 10) == r;
    RoundBack(y, 1024 * r, 1024);
  }

  lemma BackD11(y: int)
    requires 0 <= y < 2048
    ensures Rounded(ScalarDecompress(y, 11), 11) == y
  {
    var r := (y * Q + 1024) / 2048;
    assert ScalarDecompress(y, 11) == r;
    RoundBack(y, 2048 * r, 2048);
  }

  /** Compressing what was decompressed gives it back. */
  lemma CompressDecompress(y: int, d: nat)
    requires Width(d) && 0 <= y < Range(d)
    ensures Rounded(ScalarDecompress(y, d), d) == y
  {
    hide Rounded, ScalarDecompress;
    if d == 1 {
      BackD1(y);
    } else if d == 4 {
      BackD4(y);
    } else if d == 5 {
      BackD5(y);
    } else if d == 10 {
      BackD10(y);
    } else {
      BackD11(y);
    }
  }

  /** x and p stand for 2^d u and 2^d times the decompressed value. */
  lemma ErrorBound(x: int, p: int, y: int, range: int)
    requires 2 * Q * y <= 2 * x + Q < 2 * Q * y + 2 * Q && p <= y * Q + range / 2 < p + range && 0 < range
             && range % 2 == 0
    ensures -(Q + range) <= 2 * (p - x) <= Q + range
  {
  }

  /** Rounding up to 2^d wraps to 0, and q is congruent to 0. */
  lemma WithWrap(s: int, y: int, r: int, u: int, range: int)
    requires s == (if y == range then 0 else r) && (y == range ==> r == Q)
    ensures Cong(s, u + (r - u))
  {
  }

  lemma SizeD1(u: int, y: int, r: int)
    requires 0 <= u < Q && 2 * Q * y <= 4 * u + Q < 2 * Q * y + 2 * Q && 2 * r <= y * Q + 1 < 2 * r + 2
    ensures 0 <= y <= 2 && (y == 2 ==> r == Q) && -832 <= r - u <= 832
  {
    ErrorBound(2 * u, 2 * r, y, 2);
  }

  lemma ErrorD1(u: int16) returns (e: int)
    requires 0 <= u < Q
    ensures -MaxError(1) <= e <= MaxError(1) && Cong(ScalarDecompress(Rounded(u, 1), 1), u + e)
  {
    hide Cong, ScalarDecompress;
    var y := (4 * u + Q) / (2 * Q);
    var r := (y * Q + 1) / 2;
    e := r - u;
    SizeD1(u, y, r);
    ValueD1(y);
    WithWrap(ScalarDecompress(Rounded(u, 1), 1), y, r, u, 2);
  }

  lemma ValueD1(y: int)
    requires 0 <= y <= 2
    ensures y % 2 == (if y == 2 then 0 else y) && ScalarDecompress(0, 1) == 0
    ensures y < 2 ==> ScalarDecompress(y, 1) == (y * Q + 1) / 2
  {
  }

  lemma SizeD4(u: int, y: int, r: int)
    requires 0 <= u < Q && 2 * Q * y <= 32 * u + Q < 2 * Q * y + 2 * Q && 16 * r <= y * Q + 8 < 16 * r + 16
    ensures 0 <= y <= 16 && (y == 16 ==> r == Q) && -104 <= r - u <= 104
  {
    ErrorBound(16 * u, 16 * r, y, 16);
  }

  lemma ErrorD4(u: int16) returns (e: int)
    requires 0 <= u < Q
    ensures -MaxError(4) <= e <= MaxError(4) && Cong(ScalarDecompress(Rounded(u, 4), 4), u + e)
  {
    hide Cong, ScalarDecompress;
    var y := (32 * u + Q) / (2 * Q);
    var r := (y * Q + 8) / 16;
    e := r - u;
    SizeD4(u, y, r);
    ValueD4(y);
    WithWrap(ScalarDecompress(Rounded(u, 4), 4), y, r, u, 16);
  }

  lemma ValueD4(y: int)
    requires 0 <= y <= 16
    ensures y % 16 == (if y == 16 then 0 else y) && ScalarDecompress(0, 4) == 0
    ensures y < 16 ==> ScalarDecompress(y, 4) == (y * Q + 8) / 16
  {
  }

  lemma SizeD5(u: int, y: int, r: int)
    requires 0 <= u < Q && 2 * Q * y <= 64 * u + Q < 2 * Q * y + 2 * Q && 32 * r <= y * Q + 16 < 32 * r + 32
    ensures 0 <= y <= 32 && (y == 32 ==> r == Q) && -52 <= r - u <= 52
  {
    ErrorBound(32 * u, 32 * r, y, 32);
  }

  lemma ErrorD5(u: int16) returns (e: int)
    requires 0 <= u < Q
    ensures -MaxError(5) <= e <= MaxError(5) && Cong(ScalarDecompress(Rounded(u, 5), 5), u + e)
  {
    hide Cong, ScalarDecompress;
    var y := (64 * u + Q) / (2 * Q);
    var r := (y * Q + 16) / 32;
    e := r - u;
    SizeD5(u, y, r);
    ValueD5(y);
    WithWrap(ScalarDecompress(Rounded(u, 5), 5), y, r, u, 32);
  }

  lemma ValueD5(y: int)
    requires 0 <= y <= 32
    ensures y % 32 == (if y == 32 then 0 else y) && ScalarDecompress(0, 5) == 0
    ensures y < 32 ==> ScalarDecompress(y, 5) == (y * Q + 16) / 32
  {
  }

  lemma SizeD10(u: int, y: int, r: int)
    requires 0 <= u < Q && 2 * Q * y <= 2048 * u + Q < 2 * Q * y + 2 * Q && 1024 * r <= y * Q + 512 < 1024 * r + 1024
    ensures 0 <= y <= 1024 && (y == 1024 ==> r == Q) && -2 <= r - u <= 2
  {
    ErrorBound(1024 * u, 1024 * r, y, 1024);
  }

  lemma ErrorD10(u: int16) returns (e: int)
    requires 0 <= u < Q
    ensures -MaxError(10) <= e <= MaxError(10) && Cong(ScalarDecompress(Rounded(u, 10), 10), u + e)
  {
    hide Cong, ScalarDecompress;
    var y := (2048 * u + Q) / (2 * Q);
    var r := (y * Q + 512) / 1024;
    e := r - u;
    SizeD10(u, y, r);
    ValueD10(y);
    WithWrap(ScalarDecompress(Rounded(u, 10), 10), y, r, u, 1024);
  }

  lemma ValueD10(y: int)
    requires 0 <= y <= 1024
    ensures y % 1024 == (if y == 1024 then 0 else y) && ScalarDecompress(0, 10) == 0
    ensures y < 1024 ==> ScalarDecompress(y, 10) == (y * Q + 512) / 1024
  {
  }

  lemma SizeD11(u: int, y: int, r: int)
    requires 0 <= u < Q && 2 * Q * y <= 4096 * u + Q < 2 * Q * y + 2 * Q && 2048 * r <= y * Q + 1024 < 2048 * r + 2048
    ensures 0 <= y <= 2048 && (y == 2048 ==> r == Q) && -1 <= r - u <= 1
  {
    ErrorBound(2048 * u, 2048 * r, y, 2048);
  }

  lemma ErrorD11(u: int16) returns (e: int)
    requires 0 <= u < Q
    ensures -MaxError(11) <= e <= MaxError(11) && Cong(ScalarDecompress(Rounded(u, 11), 11), u + e)
  {
    hide Cong, ScalarDecompress;
    var y := (4096 * u + Q) / (2 * Q);
    var r := (y * Q + 1024) / 2048;
    e := r - u;
    SizeD11(u, y, r);
    ValueD11(y);
    WithWrap(ScalarDecompress(Rounded(u, 11), 11), y, r, u, 2048);
  }

  lemma ValueD11(y: int)
    requires 0 <= y <= 2048
    ensures y % 2048 == (if y == 2048 then 0 else y) && ScalarDecompress(0, 11) == 0
    ensures y < 2048 ==> ScalarDecompress(y, 11) == (y * Q + 1024) / 2048
  {
  }

  /** Decompressing what was compressed moves u by at most the maximal error modulo q. */
  lemma DecompressCompress(u: int16, d: nat) returns (e: int)
    requires Width(d) && 0 <= u < Q
    ensures -MaxError(d) <= e <= MaxError(d) && Cong(ScalarDecompress(Rounded(u, d), d), u + e)
  {
    hide Rounded, ScalarDecompress, Cong, MaxError;
    if d == 1 {
      e := ErrorD1(u);
    } else if d == 4 {
      e := ErrorD4(u);
    } else if d == 5 {
      e := ErrorD5(u);
    } else if d == 10 {
      e := ErrorD10(u);
    } else {
      e := ErrorD11(u);
    }
  }
}
