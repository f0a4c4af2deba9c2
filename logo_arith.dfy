/**
 * The number rules of the logo carousel (src/components/ui/LogoLoop.tsx):
 * JavaScript's remainder operator, the double-remainder wrap of the scroll
 * offset into one sequence length, and the number of copies rendered.
 *
 * JavaScript numbers are modelled as exact `real`s; pixel extents that the
 * component rounds with `Math.ceil` are `int`s.
 */
module LogoLoopArith {

  /** ANIMATION_CONFIG.MIN_COPIES */
  const MIN_COPIES: int := 2
  /** ANIMATION_CONFIG.COPY_HEADROOM */
  const COPY_HEADROOM: int := 2

  function Max(a: int, b: int): (m: int)
    ensures a <= m && b <= m && (m == a || m == b)
  {
    if a < b then b else a
  }

  /** Math.trunc: rounds towards zero. */
  function Trunc(q: real): (k: int)
    ensures 0.0 <= q ==> k as real <= q < k as real + 1.0
    ensures q < 0.0 ==> k as real - 1.0 < q <= k as real
  {
    if 0.0 <= q then q.Floor else -((-q).Floor)
  }

  /** Math.ceil: the least integer not below q. */
  function Ceil(q: real): (k: int)
    ensures q <= k as real < q + 1.0
  {
    -((-q).Floor)
  }

  /** d is a whole number of copies of s. */
  predicate IsWholeMultiple(d: real, s: real)
    requires s != 0.0
  {
    (d / s).Floor as real == d / s
  }

  /**
   * Scaling by a positive factor a keeps y = a * q within one a of p = a * m
   * when q is within one of m. The products are passed in as names.
   */
  lemma ScaleBelow(q: real, a: real, m: real, p: real, y: real)
    requires 0.0 < a && m <= q < m + 1.0 && p == a * m && y == a * q
    ensures p <= y < p + a
  {
    var d := q - m;
    assert y - p == a * d;
    assert a * (1.0 - d) > 0.0;
    assert a * (1.0 - d) == a - a * d;
  }

  lemma ScaleAbove(q: real, a: real, m: real, p: real, y: real)
    requires 0.0 < a && m - 1.0 < q <= m && p == a * m && y == a * q
    ensures p - a < y <= p
  {
    var d := m - q;
    assert p - y == a * d;
    assert a * (1.0 - d) > 0.0;
    assert a * (1.0 - d) == a - a * d;
  }

  /**
   * JavaScript's `x % s` for a positive divisor (the only kind the carousel
   * uses): the remainder of the division truncated towards zero, so its sign
   * follows the dividend.
   */
  function JsRem(x: real, s: real): (r: real)
    requires 0.0 < s
    ensures 0.0 <= x ==> 0.0 <= r < s
    ensures x < 0.0 ==> -s < r <= 0.0
    ensures IsWholeMultiple(x - r, s)
  {
    var k := Trunc(x / s);
    WholeMultipleOf(x, s, k);
    RemainderBounds(x, s, k);
    x - s * k as real
  }

  lemma WholeMultipleOf(x: real, s: real, k: int)
    requires s != 0.0
    ensures IsWholeMultiple(x - (x - s * k as real), s)
  {
    assert (x - (x - s * k as real)) / s == k as real;
    assert (k as real).Floor == k;
  }

  /** The truncated remainder lies strictly within one divisor of zero, on the dividend's side. */
  lemma RemainderBounds(x: real, s: real, k: int)
    requires 0.0 < s && k == Trunc(x / s)
    ensures 0.0 <= x ==> 0.0 <= x - s * k as real < s
    ensures x < 0.0 ==> -s < x - s * k as real <= 0.0
  {
    var q := x / s;
    var p := s * k as real;
    assert s * q == x;
    if 0.0 <= x {
      ScaleBelow(q, s, k as real, p, x);
    } else {
      ScaleAbove(q, s, k as real, p, x);
    }
  }

  lemma DivAdd(a: real, b: real, s: real)
    requires s != 0.0
    ensures (a + b) / s == a / s + b / s
  {}

  lemma DivSub(a: real, b: real, s: real)
    requires s != 0.0
    ensures (a - b) / s == a / s - b / s
  {}

  /** A sum of whole multiples of s, less one s, is a whole multiple of s. */
  lemma WholeMultipleShift(d1: real, d2: real, s: real)
    requires 0.0 < s && IsWholeMultiple(d1, s) && IsWholeMultiple(d2, s)
    ensures IsWholeMultiple(d1 + d2 - s, s)
  {
    var k1, k2 := (d1 / s).Floor, (d2 / s).Floor;
    DivAdd(d1, d2, s);
    DivSub(d1 + d2, s, s);
    assert (d1 + d2 - s) / s == (k1 + k2 - 1) as real;
  }

  lemma WholeMultipleDiff(d1: real, d2: real, s: real)
    requires 0.0 < s && IsWholeMultiple(d1, s) && IsWholeMultiple(d2, s)
    ensures IsWholeMultiple(d1 - d2, s)
  {
    var k1, k2 := (d1 / s).Floor, (d2 / s).Floor;
    DivSub(d1, d2, s);
    assert (d1 - d2) / s == (k1 - k2) as real;
  }

  /**
   * The scroll-offset wrap at lines 154 and 186, `((x % s) + s) % s`: for a
   * positive sequence size the result is an offset within one sequence that
   * differs from x by whole sequences.
   */
  function Normalize(x: real, s: int): (r: real)
    requires 0 < s
    ensures 0.0 <= r < s as real
    ensures IsWholeMultiple(x - r, s as real)
  {
    var a := s as real;
    var inner := JsRem(x, a) + a;
    WholeMultipleShift(x - JsRem(x, a), inner - JsRem(inner, a), a);
    JsRem(inner, a)
  }

  /** Two offsets within one sequence that differ by whole sequences are equal. */
  lemma UniqueResidue(a: real, b: real, s: real)
    requires 0.0 < s && 0.0 <= a < s && 0.0 <= b < s
    requires IsWholeMultiple(a - b, s)
    ensures a == b
  {
    DivBetween(a - b, s);
    assert ((a - b) / s).Floor == 0;
    assert s * ((a - b) / s) == a - b;
  }

  lemma DivBetween(d: real, s: real)
    requires 0.0 < s && -s < d < s
    ensures -1.0 < d / s < 1.0
  {}

  /**
   * The wrap agrees with the floored modulo x - s * floor(x / s), the
   * remainder that is never negative.
   */
  lemma NormalizeIsFlooredModulo(x: real, s: int)
    requires 0 < s
    ensures Normalize(x, s) == x - s as real * (x / s as real).Floor as real
  {
    var a := s as real;
    var k := (x / a).Floor;
    var p := a * k as real;
    var m := x - p;
    ScaleBelow(x / a, a, k as real, p, x);
    WholeMultipleOf(x, a, k);
    WholeMultipleDiff(x - m, x - Normalize(x, s), a);
    assert (x - m) - (x - Normalize(x, s)) == Normalize(x, s) - m;
    UniqueResidue(Normalize(x, s), m, a);
  }

  /** An offset already within one sequence is left where it is. */
  lemma NormalizeFixesRange(x: real, s: int)
    requires 0 < s && 0.0 <= x < s as real
    ensures Normalize(x, s) == x
  {
    UniqueResidue(x, Normalize(x, s), s as real);
  }

  /** Wrapping twice is wrapping once. */
  lemma NormalizeIdempotent(x: real, s: int)
    requires 0 < s
    ensures Normalize(Normalize(x, s), s) == Normalize(x, s)
  {
    NormalizeFixesRange(Normalize(x, s), s);
  }

  /**
   * Moving by a whole sequence does not change the wrapped offset: the
   * copies are indistinguishable, so the loop is seamless.
   */
  lemma NormalizeShift(x: real, s: int, n: int)
    requires 0 < s
    ensures Normalize(x + n as real * s as real, s) == Normalize(x, s)
  {
    var y := x + n as real * s as real;
    ShiftedResidues(x, y, Normalize(x, s), Normalize(y, s), n, s as real);
  }

  /** Residues of two reals a whole number of s apart coincide. */
  lemma ShiftedResidues(x: real, y: real, nx: real, ny: real, n: int, a: real)
    requires 0.0 < a && y == x + n as real * a
    requires 0.0 <= nx < a && 0.0 <= ny < a
    requires IsWholeMultiple(x - nx, a) && IsWholeMultiple(y - ny, a)
    ensures nx == ny
  {
    var d := n as real * a;
    WholeTimes(n, a);
    WholeMultipleDiff(y - ny, d, a);
    assert (y - ny) - d == x - ny;
    WholeMultipleDiff(x - nx, x - ny, a);
    assert (x - nx) - (x - ny) == ny - nx;
    UniqueResidue(ny, nx, a);
  }

  lemma WholeTimes(n: int, s: real)
    requires 0.0 < s
    ensures IsWholeMultiple(n as real * s, s)
  {
    assert (n as real * s) / s == n as real;
    assert (n as real).Floor == n;
  }

  /** On whole pixels the wrap is Dafny's (Euclidean) integer modulo. */
  lemma NormalizeWholePixels(x: int, s: int)
    requires 0 < s
    ensures Normalize(x as real, s) == (x % s) as real
  {
    var a := s as real;
    var r := (x % s) as real;
    assert x == s * (x / s) + x % s;
    assert (x as real - r) / a == (x / s) as real;
    assert ((x / s) as real).Floor == x / s;
    WholeMultipleDiff(x as real - r, x as real - Normalize(x as real, s), a);
    assert (x as real - r) - (x as real - Normalize(x as real, s)) == Normalize(x as real, s) - r;
    UniqueResidue(Normalize(x as real, s), r, a);
  }

  /**
   * The offset as the effect (line 153) and each frame (line 184) leave it:
   * wrapped when the sequence size is positive, untouched otherwise.
   */
  function WrapOffset(offset: real, seqSize: int): (r: real)
    ensures seqSize <= 0 ==> r == offset
    ensures 0 < seqSize ==> 0.0 <= r < seqSize as real
    ensures 0 < seqSize ==> IsWholeMultiple(offset - r, seqSize as real)
  {
    if 0 < seqSize then Normalize(offset, seqSize) else offset
  }

  /**
   * The number of sequence copies to render (lines 276-279 and 283-286):
   * at least MIN_COPIES, and enough that all but COPY_HEADROOM of them
   * cover the viewport; no smaller count above MIN_COPIES would do.
   */
  function CopyCount(viewport: int, seqExtent: real): (c: int)
    requires 0.0 < seqExtent
    ensures MIN_COPIES <= c
    ensures Ceil(viewport as real / seqExtent) + COPY_HEADROOM <= c
    ensures viewport as real <= seqExtent * (c - COPY_HEADROOM) as real
    ensures MIN_COPIES < c ==> seqExtent * (c - COPY_HEADROOM - 1) as real < viewport as real
  {
    var n := Ceil(viewport as real / seqExtent);
    CeilCovers(viewport as real, seqExtent);
    Max(MIN_COPIES, n + COPY_HEADROOM)
  }

  /** ceil(v / e) copies of length e cover v, and one fewer does not. */
  lemma CeilCovers(v: real, e: real)
    requires 0.0 < e
    ensures var n := Ceil(v / e);
      && v <= e * n as real
      && e * (n - 1) as real < v
      && (n < 0 ==> v <= 0.0)
  {
    var n := Ceil(v / e);
    var p := e * n as real;
    ScaleAbove(v / e, e, n as real, p, v);
    assert e * (n - 1) as real == p - e;
    if n < 0 {
      assert e * (-n) as real >= 0.0;
    }
  }
}
