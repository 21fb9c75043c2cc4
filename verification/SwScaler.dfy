/** The software scaler: nearest-neighbour scaling of NV12 and YUYV images in 16.16 fixed point. */
module SwScaler {
  import opened Arithmetic
  import opened Bytes

  /** An image rectangle and the stride, in pixels, of the rows that it lies in. */
  datatype Rect = Rect(left: u32, top: u32, width: u32, height: u32, stride: u32) {
    predicate Even() {
      left % 2 == 0 && top % 2 == 0 && width % 2 == 0 && height % 2 == 0 && stride % 2 == 0
    }

    /** The same rectangle in a plane of half the resolution. */
    function Half(): Rect {
      Rect(left / 2, top / 2, width / 2, height / 2, stride / 2)
    }
  }

  const ONE := 0x1_0000  // 1.0 in fixed point

  // ---------------------------------------------------------------- specification

  /** Row and column of the element `k` of a plane. */
  function Row(k: nat, stride: nat): nat requires stride > 0 { k / stride }
  function Col(k: nat, stride: nat): nat requires stride > 0 { k % stride }
  function Index(y: nat, x: nat, stride: nat): nat { y * stride + x }

  lemma RowColOfIndex(y: nat, x: nat, stride: nat)
    requires x < stride
    ensures Row(Index(y, x, stride), stride) == y && Col(Index(y, x, stride), stride) == x
  {
    DivModUnique(Index(y, x, stride), stride, y, x);
  }

  lemma IndexOfRowCol(k: nat, stride: nat)
    requires stride > 0
    ensures Index(Row(k, stride), Col(k, stride), stride) == k && Col(k, stride) < stride
  {
  }

  /** The source distance of two neighbouring destination pixels. */
  function Ratio(from: nat, to: nat): nat
    requires to > 0
  {
    from * ONE / to
  }

  /** The source position of the `i`-th destination pixel of a row or column. */
  function Sample(left: nat, from: nat, to: nat, i: nat): nat
    requires to > 0
  {
    left + i * Ratio(from, to) / ONE
  }

  predicate Inside(d: Rect, k: nat)
    requires d.stride > 0
  {
    d.top <= Row(k, d.stride) < d.top + d.height && d.left <= Col(k, d.stride) < d.left + d.width
  }

  /** The element of the source plane that destination element `k` is taken from. */
  function Source(s: Rect, d: Rect, k: nat): nat
    requires d.stride > 0 && d.width > 0 && d.height > 0 && Inside(d, k)
  {
    Index(Sample(s.top, s.height, d.height, Row(k, d.stride) - d.top),
          Sample(s.left, s.width, d.width, Col(k, d.stride) - d.left), s.stride)
  }

  function Max1(n: nat): nat { if n == 0 then 1 else n }

  /** What is read of a plane; an empty rectangle still has its corner read. */
  predicate Readable(s: Rect, length: nat) {
    && s.left + s.width < ONE && s.top + s.height < ONE
    && length < 0x1_0000_0000
    && Index(s.top + Max1(s.height) - 1, s.left + Max1(s.width), s.stride) <= length
  }

  /** A rectangle that lies in its rows, and the rows in a plane of `length` elements. */
  predicate Writable(d: Rect, length: nat) {
    && d.width > 0 && d.height > 0 && d.left + d.width <= d.stride
    && length < 0x1_0000_0000
    && Index(d.top + d.height - 1, d.left + d.width, d.stride) <= length
  }

  // ---------------------------------------------------------------- where samples lie

  /** Steps never overshoot the source: the accumulator needs no clamping. */
  lemma StepsStayInside(from: nat, to: nat, i: nat)
    requires to > 0 && i <= to
    ensures i * Ratio(from, to) <= from * ONE
    ensures i < to && from > 0 ==> i * Ratio(from, to) < from * ONE
  {
    var r := Ratio(from, to);
    DivBounds(from * ONE, to);
    MulMono(i, to, r);
    if i < to && r > 0 {
      MulMono(i + 1, to, r);
      assert (i + 1) * r == i * r + r;
    }
  }

  /** Every sample lies in the source rectangle, and samples keep their order. */
  lemma SampleInside(left: nat, from: nat, to: nat, i: nat, j: nat)
    requires to > 0 && i <= j < to
    ensures left <= Sample(left, from, to, i) <= Sample(left, from, to, j) < left + Max1(from)
  {
    var r := Ratio(from, to);
    MulMono(i, j, r);
    StepsStayInside(from, to, j);
    DivMono(i * r, j * r, ONE);
  }

  lemma NotAbove(p: nat, r: nat, to: nat, n: nat, q: nat)
    requires p * ONE <= r && r * to <= n * ONE && n < q * to + to
    ensures p <= q
  {
    MulMono(p * ONE, r, to);
    assert p * ONE * to == p * to * ONE;
    if p > q {
      MulMono(q + 1, p, to);
    }
  }

  /** `r` stands for the accumulator, which lags by less than `i`; `m` is how often 1.0 goes into that. */
  lemma NotFarBelow(p: nat, r: nat, to: nat, n: nat, q: nat, i: nat, m: nat)
    requires r < p * ONE + ONE && n * ONE <= r * to + i * to && q * to <= n && i < (m + 1) * ONE && to > 0
    ensures q <= p + m + 1
  {
    var k := p + m + 2;
    MulMono(r + i, k * ONE - 1, to);
    Distribute(r, i, to);
    Distribute(k * ONE, -1, to);
    Commute(k, ONE, to);
    if q > p + m + 1 {
      MulMono(k, q, to);
    }
  }

  lemma MultipliedBounds(from: nat, to: nat, i: nat, r: nat)
    requires r * to <= from * ONE < r * to + to
    ensures i * r * to <= i * from * ONE <= i * r * to + i * to
  {
    MulMono(r * to, from * ONE, i);
    MulMono(from * ONE, r * to + to, i);
    Commute(r, to, i);
    Commute(r, i, to);
    Commute(from, ONE, i);
    Commute(from, i, to);
    Commute(i, to, 1);
    Distribute(r * to, to, i);
  }

  /** The same with all quotients given by their bounds. */
  lemma ErrorBounds(r: nat, from: nat, to: nat, i: nat, p: nat, q: nat, m: nat)
    requires to > 0 && r * to <= from * ONE < r * to + to
    requires p * ONE <= i * r < p * ONE + ONE && q * to <= i * from < q * to + to && m * ONE <= i < m * ONE + ONE
    ensures q - (m + 1) <= p <= q
  {
    MultipliedBounds(from, to, i, r);
    assert p <= q by {
      NotAbove(p, i * r, to, i * from, q);
    }
    assert q - (m + 1) <= p by {
      NotFarBelow(p, i * r, to, i * from, q, i, m);
    }
  }

  lemma Quotient(n: nat, d: nat) returns (q: nat)
    requires d > 0
    ensures q == n / d && q * d <= n < q * d + d
  {
    q := n / d;
  }

  lemma QuotientError(r: nat, from: nat, to: nat, i: nat)
    requires to > 0 && r * to <= from * ONE < r * to + to
    ensures i * from / to - (i / ONE + 1) <= i * r / ONE <= i * from / to
  {
    var ir: nat, exact: nat := i * r, i * from;
    var p := Quotient(ir, ONE);
    var q := Quotient(exact, to);
    var m := Quotient(i, ONE);
    ErrorBounds(r, from, to, i, p, q, m);
  }

  /** Fixed point falls short of exact division, by at most one pixel for every 2^16 destination pixels begun. */
  lemma SampleError(left: nat, from: nat, to: nat, i: nat)
    requires to > 0
    ensures left + i * from / to - (i / 0x1_0000 + 1) <= Sample(left, from, to, i) <= left + i * from / to
  {
    DivBounds(from * ONE, to);
    QuotientError(Ratio(from, to), from, to, i);
  }

  /** Beyond 2^16 destination pixels one pixel is not enough. */
  lemma SampleErrorGrows()
    ensures Sample(0, 3, 0x4_0000, 0x3_FFFF) == 0 && 0x3_FFFF * 3 / 0x4_0000 == 2
  {
  }

  lemma CancelOne(a: int, b: int)
    requires a * ONE < b * ONE + ONE
    ensures a <= b
  {
  }

  lemma ExactBelow(r: nat, from: nat, to: nat, i: nat, p: nat)
    requires r * to == from * ONE && p * ONE <= i * r && to > 0
    ensures p * to <= i * from
  {
    MulMono(p * ONE, i * r, to);
    Commute(p, ONE, to);
    Commute(i, from, ONE);
    CancelOne(p * to, i * from);
  }

  lemma ExactAbove(r: nat, from: nat, to: nat, i: nat, p: nat)
    requires r * to == from * ONE && i * r < p * ONE && to > 0
    ensures i * from < p * to
  {
    MulMono(i * r + 1, p * ONE, to);
    Distribute(i * r, 1, to);
    Commute(p, ONE, to);
    Commute(i, from, ONE);
    CancelOne(i * from + 1, p * to);
  }

  /** The sample is exact wherever the ratio is: for equal sizes, whole factors, powers of two. */
  lemma SampleExact(left: nat, from: nat, to: nat, i: nat)
    requires to > 0 && from * ONE % to == 0
    ensures Sample(left, from, to, i) == left + i * from / to
  {
    var r := Ratio(from, to);
    assert r * to == from * ONE;
    hide Ratio;
    var p := i * r / ONE;
    DivBounds(i * r, ONE);
    ExactBelow(r, from, to, i, p);
    ExactAbove(r, from, to, i, p + 1);
    Distribute(p, 1, to);
    DivModUnique(i * from, to, p, i * from - p * to);
  }

  lemma SameSizeSample(left: nat, n: nat, i: nat)
    requires n > 0
    ensures Ratio(n, n) == ONE && Sample(left, n, n, i) == left + i
  {
    DivModUnique(n * ONE, n, ONE, 0);
  }

  /** Halving both sizes leaves the ratio the same, so the chroma plane is scaled like the luma plane. */
  lemma RatioHalved(from: nat, to: nat)
    requires to > 0 && from % 2 == 0 && to % 2 == 0
    ensures Ratio(from / 2, to / 2) == Ratio(from, to)
  {
    var f, t, q := from / 2, to / 2, from / 2 * ONE / (to / 2);
    DivBounds(f * ONE, t);
    DivModUnique(from * ONE, to, q, from * ONE - q * to);
  }

  // ---------------------------------------------------------------- one plane

  /** The elements before row `y` and, in that row, before column `x`. */
  predicate Before(k: nat, stride: nat, y: nat, x: nat)
    requires stride > 0
  {
    Row(k, stride) < y || (Row(k, stride) == y && Col(k, stride) < x)
  }

  /** A plane of which the rectangle `d` has been scaled from `s`, as far as row `y` and column `x`. */
  ghost function ScaledTo<T>(src: seq<T>, dst: seq<T>, s: Rect, d: Rect, y: nat, x: nat): (r: seq<T>)
    requires Readable(s, |src|) && Writable(d, |dst|)
    ensures |r| == |dst|
  {
    seq(|dst|, k requires 0 <= k < |dst| =>
      if Inside(d, k) && Before(k, d.stride, y, x) then
        SourceReadable(s, d, k, |src|);
        src[Source(s, d, k)]
      else dst[k])
  }

  /** The plane with the whole rectangle `d` scaled from `s`. */
  ghost function Scaled<T>(src: seq<T>, dst: seq<T>, s: Rect, d: Rect): (r: seq<T>)
    requires Readable(s, |src|) && Writable(d, |dst|)
    ensures |r| == |dst|
  {
    seq(|dst|, k requires 0 <= k < |dst| =>
      if Inside(d, k) then
        SourceReadable(s, d, k, |src|);
        src[Source(s, d, k)]
      else dst[k])
  }

  lemma IndexBound(y: nat, x: nat, h: nat, w: nat, stride: nat)
    requires y < h && x < w
    ensures Index(y, x, stride) < Index(h - 1, w, stride)
  {
    MulMono(y, h - 1, stride);
  }

  lemma SourceReadable(s: Rect, d: Rect, k: nat, length: nat)
    requires Readable(s, length) && d.width > 0 && d.height > 0 && d.stride > 0 && Inside(d, k)
    ensures Source(s, d, k) < length
  {
    var i, j := Row(k, d.stride) - d.top, Col(k, d.stride) - d.left;
    SampleInside(s.top, s.height, d.height, i, i);
    SampleInside(s.left, s.width, d.width, j, j);
    IndexBound(Sample(s.top, s.height, d.height, i), Sample(s.left, s.width, d.width, j),
               s.top + Max1(s.height), s.left + Max1(s.width), s.stride);
  }

  // ---------------------------------------------------------------- one plane, in place

  lemma Unscaled<T>(src: seq<T>, dst: seq<T>, s: Rect, d: Rect)
    requires Readable(s, |src|) && Writable(d, |dst|)
    ensures ScaledTo(src, dst, s, d, d.top, 0) == dst
    ensures ScaledTo(src, dst, s, d, d.top + d.height, 0) == Scaled(src, dst, s, d)
  {
    hide Row, Col, Source;
  }

  /** A row begins where its rectangle begins, and the next row where it ends. */
  lemma RowBorders<T>(src: seq<T>, dst: seq<T>, s: Rect, d: Rect, y: nat)
    requires Readable(s, |src|) && Writable(d, |dst|)
    ensures ScaledTo(src, dst, s, d, y, 0) == ScaledTo(src, dst, s, d, y, d.left)
    ensures ScaledTo(src, dst, s, d, y, d.left + d.width) == ScaledTo(src, dst, s, d, y + 1, 0)
  {
    hide Row, Col, Source;
  }

  /** One more pixel. */
  lemma PixelScaled<T>(src: seq<T>, dst: seq<T>, s: Rect, d: Rect, i: nat, j: nat)
    requires Readable(s, |src|) && Writable(d, |dst|) && i < d.height && j < d.width
    ensures
      var y, x := d.top + i, d.left + j;
      var from := Index(Sample(s.top, s.height, d.height, i), Sample(s.left, s.width, d.width, j), s.stride);
      Index(y, x, d.stride) < |dst| && from < |src|
      && ScaledTo(src, dst, s, d, y, x + 1) == ScaledTo(src, dst, s, d, y, x)[Index(y, x, d.stride) := src[from]]
  {
    hide Row, Col, Sample, Index;
    var y, x := d.top + i, d.left + j;
    var at := Index(y, x, d.stride);
    RowColOfIndex(y, x, d.stride);
    IndexBound(y, x, d.top + d.height, d.left + d.width, d.stride);
    SourceReadable(s, d, at, |src|);
    var a, b := ScaledTo(src, dst, s, d, y, x + 1), ScaledTo(src, dst, s, d, y, x);
    forall k | 0 <= k < |dst| && k != at
      ensures a[k] == b[k]
    {
      IndexOfRowCol(k, d.stride);
    }
  }

  /** An address computed in `unsigned int`. */
  function Address(y: u32, x: u32, stride: u32): u32 {
    U32(U32(y * stride) + x)
  }

  lemma AddressExact(y: u32, x: u32, stride: u32, length: nat)
    requires Index(y, x, stride) < length < 0x1_0000_0000
    ensures Address(y, x, stride) == Index(y, x, stride)
  {
    MulMono(0, y, stride);
    Small(y * stride);
    Small(y * stride + x);
  }

  lemma Small(n: nat)
    requires n < 0x1_0000_0000
    ensures U32(n) == n
  {
  }

  /** `accumulator + ratio`, clamped at `limit`, in 32-bit arithmetic: neither wraps nor clamps. */
  lemma StepExact(left: nat, from: nat, to: nat, i: nat)
    requires to > 0 && i < to && left + from < ONE
    ensures
      var r := Ratio(from, to);
      Min(U32(left * ONE + i * r + U32(r)), U32((left + from) * ONE)) == left * ONE + (i + 1) * r
    ensures (left * ONE + i * Ratio(from, to)) / ONE == Sample(left, from, to, i)
    ensures left * ONE + i * Ratio(from, to) < 0x1_0000_0000
  {
    var r := Ratio(from, to);
    StepsStayInside(from, to, i);
    StepsStayInside(from, to, i + 1);
    StepsStayInside(from, to, 1);
    Distribute(i, 1, r);
    StepLinear(left, from, i * r, r);
  }

  /** The same with a product that the solver need not look into. */
  lemma StepLinear(left: nat, from: nat, done: nat, r: nat)
    requires done + r <= from * ONE && left + from < ONE
    ensures Min(U32(left * ONE + done + U32(r)), U32((left + from) * ONE)) == left * ONE + done + r
    ensures (left * ONE + done) / ONE == left + done / ONE && left * ONE + done < 0x1_0000_0000
  {
    Small(r);
    Small(left * ONE + done + r);
    Small((left + from) * ONE);
  }

  /** One row of a plane; `hRatio` and `right` are given by the caller, as both planes share them. */
  method ScaleRow<T>(src: array<T>, dst: array<T>, s: Rect, d: Rect, hRatio: u32, ghost i: nat, srcY: u32, y: u32,
                     ghost was: seq<T>)
    requires src != dst && |was| == dst.Length && Readable(s, src.Length) && Writable(d, dst.Length)
    requires i < d.height && y == d.top + i && srcY == Sample(s.top, s.height, d.height, i)
    requires hRatio == Ratio(s.width, d.width)
    requires dst[..] == ScaledTo(src[..], was, s, d, y, 0)
    modifies dst
    ensures dst[..] == ScaledTo(src[..], was, s, d, y + 1, 0)
  {
    hide ScaledTo, Ratio, Index, Address, U32, Sample;
    RowBorders(src[..], was, s, d, y);
    StepsStayInside(s.width, d.width, 0);
    var srcX: nat := U32(s.left * ONE);
    Small(s.left * ONE);
    ghost var j := 0;
    var x: nat := d.left;
    while x < d.left + d.width
      invariant x == d.left + j && j <= d.width
      invariant srcX == s.left * ONE + j * hRatio
      invariant dst[..] == ScaledTo(src[..], was, s, d, y, x)
    {
      PixelScaled(src[..], was, s, d, i, j);
      StepExact(s.left, s.width, d.width, j);
      AddressExact(y, x, d.stride, dst.Length);
      AddressExact(srcY, srcX / ONE, s.stride, src.Length);
      dst[Address(y, x, d.stride)] := src[Address(srcY, srcX / ONE, s.stride)];
      srcX := Min(U32(srcX + U32(hRatio)), U32((s.left + s.width) * ONE));
      j, x := j + 1, x + 1;
    }
  }

  lemma EndsSmall(d: Rect, length: nat)
    requires Writable(d, length)
    ensures d.left + d.width < 0x1_0000_0000 && d.top + d.height < 0x1_0000_0000
  {
    hide Index;
    LastRowSmall(d.top + d.height - 1, d.left + d.width, d.stride);
  }

  /** The loop over the rows of a plane. */
  method ScalePlane<T>(src: array<T>, dst: array<T>, s: Rect, d: Rect, hRatio: u32, vRatio: u32)
    requires src != dst && Readable(s, src.Length) && Writable(d, dst.Length)
    requires hRatio == Ratio(s.width, d.width) && vRatio == Ratio(s.height, d.height)
    modifies dst
    ensures dst[..] == Scaled(src[..], old(dst[..]), s, d)
  {
    hide ScaledTo, Scaled, Ratio, Index, Address, U32, Sample;
    ghost var was := dst[..];
    Unscaled(src[..], was, s, d);
    EndsSmall(d, dst.Length);
    Small(d.top + d.height);
    Small(s.top * ONE);
    var srcY: nat := U32(s.top * ONE);
    ghost var i := 0;
    var y: nat := d.top;
    while y < U32(d.top + d.height)
      invariant y == d.top + i && i <= d.height
      invariant srcY == s.top * ONE + i * vRatio
      invariant dst[..] == ScaledTo(src[..], was, s, d, y, 0)
    {
      StepExact(s.top, s.height, d.height, i);
      ScaleRow(src, dst, s, d, hRatio, i, srcY / ONE, y, was);
      srcY := Min(U32(srcY + U32(vRatio)), U32((s.top + s.height) * ONE));
      i, y := i + 1, y + 1;
    }
  }

  // ---------------------------------------------------------------- NV12

  /** `CScalerSW_NV12`; an element of the chroma planes is a pair of chroma bytes. */
  class ScalerNv12 {
    const src0: array<byte>
    const src1: array<u16>
    const dst0: array<byte>
    const dst1: array<u16>
    var src: Rect
    var dst: Rect

    constructor (src0: array<byte>, src1: array<u16>, dst0: array<byte>, dst1: array<u16>)
      ensures this.src0 == src0 && this.src1 == src1 && this.dst0 == dst0 && this.dst1 == dst1
      ensures src == dst == Rect(0, 0, 0, 0, 0)
    {
      this.src0, this.src1, this.dst0, this.dst1 := src0, src1, dst0, dst1;
      src, dst := Rect(0, 0, 0, 0, 0), Rect(0, 0, 0, 0, 0);
    }

    method SetSrcRect(r: Rect)
      modifies this`src
      ensures src == r
    {
      src := r;
    }

    method SetDstRect(r: Rect)
      modifies this`dst
      ensures dst == r
    {
      dst := r;
    }

    method Scale() returns (ok: bool)
      requires src0 != dst0 && src1 != dst1
      requires Readable(src, src0.Length) && Readable(src.Half(), src1.Length)
      requires src.Even() && dst.Even() ==> Writable(dst, dst0.Length) && Writable(dst.Half(), dst1.Length)
      modifies dst0, dst1
      ensures ok == (src.Even() && dst.Even())
      ensures ok ==> dst0[..] == Scaled(src0[..], old(dst0[..]), src, dst)
      ensures ok ==> dst1[..] == Scaled(src1[..], old(dst1[..]), src.Half(), dst.Half())
      ensures ok ==> ChromaScaled(src1[..], old(dst1[..]), dst1[..], src, dst)
      ensures !ok ==> dst0[..] == old(dst0[..]) && dst1[..] == old(dst1[..])
    {
      hide Scaled, Readable, Writable, ChromaScaled;
      if !src.Even() || !dst.Even() {
        return false;
      }
      Sizes(src, src0.Length, dst, dst0.Length);
      RatioHalved(src.width, dst.width);
      RatioHalved(src.height, dst.height);
      var hRatio: nat := U32(src.width * ONE) / dst.width;
      var vRatio: nat := U32(src.height * ONE) / dst.height;
      ScalePlane(src0, dst0, src, dst, hRatio, vRatio);
      ScalePlane(src1, dst1, src.Half(), dst.Half(), hRatio, vRatio);
      ChromaIsScaled(src1[..], old(dst1[..]), src, dst);
      return true;
    }
  }

  lemma Sizes(s: Rect, m: nat, d: Rect, n: nat)
    requires Readable(s, m) && Writable(d, n)
    ensures d.width > 0 && d.height > 0
    ensures U32(s.width * ONE) / d.width == Ratio(s.width, d.width) < 0x1_0000_0000
    ensures U32(s.height * ONE) / d.height == Ratio(s.height, d.height) < 0x1_0000_0000
  {
    hide Index, Ratio;
    RatioSmall(s.width, d.width);
    RatioSmall(s.height, d.height);
  }

  lemma RatioSmall(from: nat, to: nat)
    requires from < ONE && to > 0
    ensures U32(from * ONE) / to == Ratio(from, to) < 0x1_0000_0000
  {
    StepsStayInside(from, to, 1);
    Small(from * ONE);
  }

  /** Outside its rectangle a plane keeps its bytes, and inside each pixel is the sample for its place. */
  lemma ScaledAt<T>(src: seq<T>, dst: seq<T>, s: Rect, d: Rect, y: nat, x: nat)
    requires Readable(s, |src|) && Writable(d, |dst|) && x < d.stride && Index(y, x, d.stride) < |dst|
    ensures
      if d.top <= y < d.top + d.height && d.left <= x < d.left + d.width then
        var from := Index(Sample(s.top, s.height, d.height, y - d.top), Sample(s.left, s.width, d.width, x - d.left), s.stride);
        from < |src| && Scaled(src, dst, s, d)[Index(y, x, d.stride)] == src[from]
      else Scaled(src, dst, s, d)[Index(y, x, d.stride)] == dst[Index(y, x, d.stride)]
  {
    hide Row, Col, Sample, Index;
    RowColOfIndex(y, x, d.stride);
    if Inside(d, Index(y, x, d.stride)) {
      SourceReadable(s, d, Index(y, x, d.stride), |src|);
    }
  }

  /** Rectangles of equal size are copied. */
  lemma EqualSizesCopy<T>(src: seq<T>, dst: seq<T>, s: Rect, d: Rect, i: nat, j: nat)
    requires Readable(s, |src|) && Writable(d, |dst|) && s.width == d.width && s.height == d.height
    requires i < d.height && j < d.width
    ensures Index(s.top + i, s.left + j, s.stride) < |src| && Index(d.top + i, d.left + j, d.stride) < |dst|
    ensures Scaled(src, dst, s, d)[Index(d.top + i, d.left + j, d.stride)] == src[Index(s.top + i, s.left + j, s.stride)]
  {
    hide Scaled, Sample, Index, Ratio;
    IndexBound(d.top + i, d.left + j, d.top + d.height, d.left + d.width, d.stride);
    SameSizeSample(s.top, s.height, i);
    SameSizeSample(s.left, s.width, j);
    ScaledAt(src, dst, s, d, d.top + i, d.left + j);
  }

  // ---------------------------------------------------------------- chroma of NV12

  /** The chroma of the pixel `(i, j)` of the destination rectangle is that of the sample for half its place. */
  ghost predicate ChromaAt(src: seq<u16>, now: seq<u16>, s: Rect, d: Rect, i: nat, j: nat)
    requires d.width >= 2 && d.height >= 2
  {
    var y, x := Sample(s.top / 2, s.height / 2, d.height / 2, i / 2), Sample(s.left / 2, s.width / 2, d.width / 2, j / 2);
    var at, from := (d.top + i) / 2 * (d.stride / 2) + (d.left + j) / 2, y * (s.stride / 2) + x;
    0 <= at < |now| && 0 <= from < |src| && now[at] == src[from]
  }

  /** All elements in a rectangle of half the size at half the place come from the source, and no other has changed. */
  ghost predicate ChromaScaled(src: seq<u16>, was: seq<u16>, now: seq<u16>, s: Rect, d: Rect) {
    && d.width >= 2 && d.height >= 2 && d.stride >= 2 && |now| == |was|
    && (forall i: nat, j: nat :: i < d.height && j < d.width ==> ChromaAt(src, now, s, d, i, j))
    && forall k: nat :: k < |now| ==>
         var y, x := 2 * (k / (d.stride / 2)), 2 * (k % (d.stride / 2));
         (d.top <= y < d.top + d.height && d.left <= x < d.left + d.width) || now[k] == was[k]
  }

  lemma ChromaIsScaled(src: seq<u16>, was: seq<u16>, s: Rect, d: Rect)
    requires s.Even() && d.Even() && Readable(s.Half(), |src|) && Writable(d.Half(), |was|)
    ensures ChromaScaled(src, was, Scaled(src, was, s.Half(), d.Half()), s, d)
  {
    hide Readable, Writable, Scaled, ChromaAt;
    var now := Scaled(src, was, s.Half(), d.Half());
    HalfHasPixels(d, |was|);
    forall i: nat, j: nat | i < d.height && j < d.width
      ensures ChromaAt(src, now, s, d, i, j)
    {
      ChromaPixel(src, was, s, d, i, j);
    }
    forall k: nat | k < |now|
      ensures var y, x := 2 * (k / (d.stride / 2)), 2 * (k % (d.stride / 2));
              (d.top <= y < d.top + d.height && d.left <= x < d.left + d.width) || now[k] == was[k]
    {
      ChromaOutside(src, was, s, d, k);
    }
  }

  lemma HalfHasPixels(d: Rect, length: nat)
    requires d.Even() && Writable(d.Half(), length)
    ensures d.width >= 2 && d.height >= 2 && d.stride >= 2
  {
    hide Index;
  }

  lemma IndexIs(y: nat, x: nat, stride: nat)
    ensures Index(y, x, stride) == y * stride + x
  {
  }

  lemma HalfPlace(start: nat, i: nat)
    requires start % 2 == 0
    ensures (start + i) / 2 == start / 2 + i / 2
  {
  }

  lemma ChromaPixel(src: seq<u16>, was: seq<u16>, s: Rect, d: Rect, i: nat, j: nat)
    requires s.Even() && d.Even() && Readable(s.Half(), |src|) && Writable(d.Half(), |was|)
    requires d.width >= 2 && d.height >= 2 && d.stride >= 2 && i < d.height && j < d.width
    ensures ChromaAt(src, Scaled(src, was, s.Half(), d.Half()), s, d, i, j)
  {
    hide Scaled, Sample, Readable, Index;
    var h := d.Half();
    HalfPlace(d.top, i);
    HalfPlace(d.left, j);
    IndexBound(h.top + i / 2, h.left + j / 2, h.top + h.height, h.left + h.width, h.stride);
    ScaledAt(src, was, s.Half(), h, h.top + i / 2, h.left + j / 2);
    IndexIs(h.top + i / 2, h.left + j / 2, h.stride);
    IndexIs(Sample(s.top / 2, s.height / 2, d.height / 2, i / 2), Sample(s.left / 2, s.width / 2, d.width / 2, j / 2), s.stride / 2);
  }

  lemma ChromaOutside(src: seq<u16>, was: seq<u16>, s: Rect, d: Rect, k: nat)
    requires s.Even() && d.Even() && Readable(s.Half(), |src|) && Writable(d.Half(), |was|)
    requires d.stride >= 2 && k < |was|
    ensures var y, x := 2 * (k / (d.stride / 2)), 2 * (k % (d.stride / 2));
            (d.top <= y < d.top + d.height && d.left <= x < d.left + d.width)
            || Scaled(src, was, s.Half(), d.Half())[k] == was[k]
  {
    hide Index, Source, Readable;
  }

  /** Between rectangles of equal size each pixel gets the chroma of its own source pixel. */
  lemma EqualSizesCopyChroma(src: seq<u16>, was: seq<u16>, now: seq<u16>, s: Rect, d: Rect, i: nat, j: nat)
    requires s.Even() && d.Even() && ChromaScaled(src, was, now, s, d)
    requires s.width == d.width && s.height == d.height && i < d.height && j < d.width
    ensures
      var at, from := (d.top + i) / 2 * (d.stride / 2) + (d.left + j) / 2, (s.top + i) / 2 * (s.stride / 2) + (s.left + j) / 2;
      0 <= at < |now| && 0 <= from < |src| && now[at] == src[from]
  {
    hide Sample, Ratio;
    assert ChromaAt(src, now, s, d, i, j);
    SameSizeSample(s.top / 2, d.height / 2, i / 2);
    SameSizeSample(s.left / 2, d.width / 2, j / 2);
    assert (s.top + i) / 2 == s.top / 2 + i / 2 && (s.left + j) / 2 == s.left / 2 + j / 2;
  }

  /** Four by four pixels at (2, 2) of an image of eight by eight become two by two at (2, 2) of one of four by four. */
  method HalvesPart(src0: array<byte>, src1: array<u16>) returns (scaler: ScalerNv12, ok: bool)
    requires src0.Length == 64 && src1.Length == 16
    ensures ok && fresh(scaler) && fresh(scaler.dst0) && fresh(scaler.dst1)
    ensures scaler.dst0[..] == [0, 0, 0, 0, 0, 0, 0, 0, 0, 0, src0[18], src0[20], 0, 0, src0[34], src0[36]]
    ensures scaler.dst1[..] == [0, 0, 0, src1[5]]
  {
    hide Scaled, Sample, ChromaScaled;
    var dst0, dst1 := new byte[16](_ => 0), new u16[4](_ => 0);
    scaler := new ScalerNv12(src0, src1, dst0, dst1);
    scaler.SetSrcRect(Rect(2, 2, 4, 4, 8));
    scaler.SetDstRect(Rect(2, 2, 2, 2, 4));
    ghost var was, was1 := dst0[..], dst1[..];
    assert was1 == [0, 0, 0, 0];
    ok := scaler.Scale();
    HalvedLuma(src0[..], was);
    HalvedChroma(src1[..], dst1[..]);
  }

  lemma HalvedLuma(src: seq<byte>, was: seq<byte>)
    requires |src| == 64 && was == [0, 0, 0, 0, 0, 0, 0, 0, 0, 0, 0, 0, 0, 0, 0, 0]
    ensures Scaled(src, was, Rect(2, 2, 4, 4, 8), Rect(2, 2, 2, 2, 4))
            == [0, 0, 0, 0, 0, 0, 0, 0, 0, 0, src[18], src[20], 0, 0, src[34], src[36]]
  {
    assert Sample(2, 4, 2, 0) == 2 && Sample(2, 4, 2, 1) == 4;
  }

  lemma HalvedChroma(src: seq<u16>, now: seq<u16>)
    requires |src| == 16 && ChromaScaled(src, [0, 0, 0, 0], now, Rect(2, 2, 4, 4, 8), Rect(2, 2, 2, 2, 4))
    ensures now == [0, 0, 0, src[5]]
  {
    assert Sample(1, 2, 1, 0) == 1;
    assert ChromaAt(src, now, Rect(2, 2, 4, 4, 8), Rect(2, 2, 2, 2, 4), 0, 0);
  }

  // ---------------------------------------------------------------- YUYV

  /** The pixel at whose turn byte `b` of a row is stored: chroma bytes belong to the even pixel of a pair. */
  function Owner(b: nat): nat {
    if b % 2 == 0 then b / 2 else b / 4 * 2
  }

  /** The pixel of a pair that carries the chroma bytes. */
  function FirstOfPair(x: nat): nat { x / 2 * 2 }

  /** The byte of a source row that is stored in byte `b` of a destination row when its pixel samples column `x`. */
  function ByteFrom(x: nat, b: nat): nat {
    if b % 2 == 0 then 2 * x else 2 * FirstOfPair(x) + b % 4
  }

  /** The bytes that the scaler stores. */
  predicate StoredYuyv(d: Rect, k: nat)
    requires d.stride > 0
  {
    && d.top <= Row(k, 2 * d.stride) < d.top + d.height
    && d.left <= Owner(Col(k, 2 * d.stride)) < d.left + d.width
  }

  /** The bytes of the destination rectangle. */
  predicate InsideYuyv(d: Rect, k: nat)
    requires d.stride > 0
  {
    && d.top <= Row(k, 2 * d.stride) < d.top + d.height
    && 2 * d.left <= Col(k, 2 * d.stride) < 2 * (d.left + d.width)
  }

  function SourceYuyv(s: Rect, d: Rect, k: nat): nat
    requires d.stride > 0 && d.width > 0 && d.height > 0 && StoredYuyv(d, k)
  {
    var b := Col(k, 2 * d.stride);
    Index(Sample(s.top, s.height, d.height, Row(k, 2 * d.stride) - d.top),
          ByteFrom(Sample(s.left, s.width, d.width, Owner(b) - d.left), b), 2 * s.stride)
  }

  predicate EvenYuyv(s: Rect, d: Rect) {
    s.left % 2 == 0 && s.width % 2 == 0 && d.width % 2 == 0 && s.stride % 2 == 0
  }

  predicate ReadableYuyv(s: Rect, length: nat) {
    && s.left + s.width < ONE && s.top + s.height < ONE
    && length < 0x1_0000_0000
    && Index(s.top + Max1(s.height) - 1, 2 * (s.left + if s.width == 0 then 2 else s.width), 2 * s.stride) <= length
  }

  /** From an odd left edge on, the last pair of chroma bytes reaches one pixel further. */
  predicate WritableYuyv(d: Rect, length: nat) {
    && d.width > 0 && d.height > 0 && d.left + d.width + d.left % 2 <= d.stride
    && length < 0x1_0000_0000
    && Index(d.top + d.height - 1, 2 * (d.left + d.width + d.left % 2), 2 * d.stride) <= length
  }

  lemma SourceYuyvReadable(s: Rect, d: Rect, k: nat, length: nat)
    requires ReadableYuyv(s, length) && EvenYuyv(s, d) && d.width > 0 && d.height > 0 && d.stride > 0 && StoredYuyv(d, k)
    ensures SourceYuyv(s, d, k) < length
  {
    hide Row, Col, Sample, Index, Ratio;
    var i, b := Row(k, 2 * d.stride) - d.top, Col(k, 2 * d.stride);
    SampleInside(s.top, s.height, d.height, i, i);
    SampleInside(s.left, s.width, d.width, Owner(b) - d.left, Owner(b) - d.left);
    IndexBound(Sample(s.top, s.height, d.height, i), ByteFrom(Sample(s.left, s.width, d.width, Owner(b) - d.left), b),
               s.top + Max1(s.height), 2 * (s.left + if s.width == 0 then 2 else s.width), 2 * s.stride);
  }

  ghost function ScaledYuyv(src: seq<byte>, dst: seq<byte>, s: Rect, d: Rect): (r: seq<byte>)
    requires ReadableYuyv(s, |src|) && WritableYuyv(d, |dst|) && EvenYuyv(s, d)
    ensures |r| == |dst|
  {
    seq(|dst|, k requires 0 <= k < |dst| =>
      if StoredYuyv(d, k) then
        SourceYuyvReadable(s, d, k, |src|);
        src[SourceYuyv(s, d, k)]
      else dst[k])
  }

  predicate BeforeYuyv(k: nat, stride: nat, y: nat, x: nat)
    requires stride > 0
  {
    Row(k, 2 * stride) < y || (Row(k, 2 * stride) == y && Owner(Col(k, 2 * stride)) < x)
  }

  ghost function ScaledYuyvTo(src: seq<byte>, dst: seq<byte>, s: Rect, d: Rect, y: nat, x: nat): (r: seq<byte>)
    requires ReadableYuyv(s, |src|) && WritableYuyv(d, |dst|) && EvenYuyv(s, d)
    ensures |r| == |dst|
  {
    seq(|dst|, k requires 0 <= k < |dst| =>
      if StoredYuyv(d, k) && BeforeYuyv(k, d.stride, y, x) then
        SourceYuyvReadable(s, d, k, |src|);
        src[SourceYuyv(s, d, k)]
      else dst[k])
  }

  lemma UnscaledYuyv(src: seq<byte>, dst: seq<byte>, s: Rect, d: Rect)
    requires ReadableYuyv(s, |src|) && WritableYuyv(d, |dst|) && EvenYuyv(s, d)
    ensures ScaledYuyvTo(src, dst, s, d, d.top, 0) == dst
    ensures ScaledYuyvTo(src, dst, s, d, d.top + d.height, 0) == ScaledYuyv(src, dst, s, d)
  {
    hide Row, Col, SourceYuyv, Owner;
  }

  lemma RowBordersYuyv(src: seq<byte>, dst: seq<byte>, s: Rect, d: Rect, y: nat)
    requires ReadableYuyv(s, |src|) && WritableYuyv(d, |dst|) && EvenYuyv(s, d)
    ensures ScaledYuyvTo(src, dst, s, d, y, 0) == ScaledYuyvTo(src, dst, s, d, y, d.left)
    ensures ScaledYuyvTo(src, dst, s, d, y, d.left + d.width) == ScaledYuyvTo(src, dst, s, d, y + 1, 0)
  {
    hide Row, Col, SourceYuyv, Owner;
  }

  /** The address of byte `b` of the pixel at row `y` and column `x`, in `unsigned int`. */
  function AddressYuyv(y: u32, x: u32, b: u32, stride: u32): u32 {
    U32(U32(U32(y * U32(stride * 2)) + U32(x * 2)) + b)
  }

  lemma AddressYuyvExact(y: u32, x: u32, b: u32, stride: u32, length: nat)
    requires Index(y, 2 * x + b, 2 * stride) < length < 0x1_0000_0000
    ensures AddressYuyv(y, x, b, stride) == Index(y, 2 * x + b, 2 * stride)
  {
    hide Index;
    var at := Index(y, 2 * x + b, 2 * stride);
    IndexParts(y, 2 * x + b, 2 * stride);
    Small(x * 2);
    if y > 0 {
      Small(stride * 2);
    }
    Small(y * (2 * stride));
    Small(y * (2 * stride) + x * 2);
    Small(at);
    assert y * U32(stride * 2) == y * (2 * stride);
  }

  lemma IndexParts(y: nat, b: nat, stride: nat)
    ensures Index(y, b, stride) == y * stride + b && Index(y, b, stride) >= b
    ensures y > 0 ==> Index(y, b, stride) >= stride
  {
    MulMono(0, y, stride);
    if y > 0 {
      MulMono(1, y, stride);
    }
  }

  /** Where byte `b` of the pixel `(i, j)` of the rectangle goes, and where it comes from. */
  lemma ByteScaled(src: seq<byte>, dst: seq<byte>, s: Rect, d: Rect, i: nat, j: nat, b: nat)
    requires ReadableYuyv(s, |src|) && WritableYuyv(d, |dst|) && EvenYuyv(s, d) && i < d.height && j < d.width
    requires b == 0 || ((b == 1 || b == 3) && (d.left + j) % 2 == 0)
    ensures
      var y, c, x := d.top + i, 2 * (d.left + j) + b, Sample(s.left, s.width, d.width, j);
      var at := Index(y, c, 2 * d.stride);
      var from := Index(Sample(s.top, s.height, d.height, i), if b == 0 then 2 * x else 2 * FirstOfPair(x) + b, 2 * s.stride);
      && at < |dst| && Row(at, 2 * d.stride) == y && Col(at, 2 * d.stride) == c && Owner(c) == d.left + j
      && StoredYuyv(d, at) && from == SourceYuyv(s, d, at) && from < |src|
  {
    hide Row, Col, Sample, Index;
    var y, c := d.top + i, 2 * (d.left + j) + b;
    assert c < 2 * (d.left + d.width + d.left % 2);
    RowColOfIndex(y, c, 2 * d.stride);
    IndexBound(y, c, d.top + d.height, 2 * (d.left + d.width + d.left % 2), 2 * d.stride);
    SourceYuyvReadable(s, d, Index(y, c, 2 * d.stride), |src|);
  }

  /** Only these bytes belong to a pixel. */
  lemma OwnedBytes(k: nat, stride: nat, y: nat, x: nat)
    requires stride > 0 && Row(k, 2 * stride) == y && Owner(Col(k, 2 * stride)) == x
    ensures k == Index(y, 2 * x, 2 * stride)
            || (x % 2 == 0 && (k == Index(y, 2 * x + 1, 2 * stride) || k == Index(y, 2 * x + 3, 2 * stride)))
  {
    hide Row, Col, Index;
    IndexOfRowCol(k, 2 * stride);
  }

  /** One more pixel: its luma byte and, if it is the first of a pair, the chroma bytes of the pair. */
  lemma PixelScaledYuyv(src: seq<byte>, dst: seq<byte>, s: Rect, d: Rect, i: nat, j: nat)
    requires ReadableYuyv(s, |src|) && WritableYuyv(d, |dst|) && EvenYuyv(s, d) && i < d.height && j < d.width
    ensures
      var y, x := d.top + i, d.left + j;
      var v, u := Sample(s.top, s.height, d.height, i), Sample(s.left, s.width, d.width, j);
      var r := ScaledYuyvTo(src, dst, s, d, y, x);
      && Index(y, 2 * x, 2 * d.stride) < |dst| && Index(v, 2 * u, 2 * s.stride) < |src|
      && if x % 2 != 0 then
           ScaledYuyvTo(src, dst, s, d, y, x + 1) == r[Index(y, 2 * x, 2 * d.stride) := src[Index(v, 2 * u, 2 * s.stride)]]
         else
           var c := FirstOfPair(u);
           && Index(y, 2 * x + 1, 2 * d.stride) < |dst| && Index(v, 2 * c + 1, 2 * s.stride) < |src|
           && Index(y, 2 * x + 3, 2 * d.stride) < |dst| && Index(v, 2 * c + 3, 2 * s.stride) < |src|
           && ScaledYuyvTo(src, dst, s, d, y, x + 1)
              == r[Index(y, 2 * x, 2 * d.stride) := src[Index(v, 2 * u, 2 * s.stride)]]
                  [Index(y, 2 * x + 1, 2 * d.stride) := src[Index(v, 2 * c + 1, 2 * s.stride)]]
                  [Index(y, 2 * x + 3, 2 * d.stride) := src[Index(v, 2 * c + 3, 2 * s.stride)]]
  {
    hide Row, Col, Sample, Index, Owner, SourceYuyv;
    var y, x := d.top + i, d.left + j;
    ByteScaled(src, dst, s, d, i, j, 0);
    if x % 2 == 0 {
      ByteScaled(src, dst, s, d, i, j, 1);
      ByteScaled(src, dst, s, d, i, j, 3);
    }
    var a, b := ScaledYuyvTo(src, dst, s, d, y, x + 1), ScaledYuyvTo(src, dst, s, d, y, x);
    forall k | 0 <= k < |dst| && !(Row(k, 2 * d.stride) == y && Owner(Col(k, 2 * d.stride)) == x)
      ensures a[k] == b[k]
    {
    }
    forall k | 0 <= k < |dst| && Row(k, 2 * d.stride) == y && Owner(Col(k, 2 * d.stride)) == x
      ensures k == Index(y, 2 * x, 2 * d.stride)
              || (x % 2 == 0 && (k == Index(y, 2 * x + 1, 2 * d.stride) || k == Index(y, 2 * x + 3, 2 * d.stride)))
    {
      OwnedBytes(k, d.stride, y, x);
    }
  }

  method ScaleRowYuyv(src: array<byte>, dst: array<byte>, s: Rect, d: Rect, hRatio: u32, ghost i: nat, srcY: u32, y: u32,
                      ghost was: seq<byte>)
    requires src != dst && |was| == dst.Length
    requires ReadableYuyv(s, src.Length) && WritableYuyv(d, dst.Length) && EvenYuyv(s, d)
    requires i < d.height && y == d.top + i && srcY == Sample(s.top, s.height, d.height, i)
    requires hRatio == Ratio(s.width, d.width)
    requires dst[..] == ScaledYuyvTo(src[..], was, s, d, y, 0)
    modifies dst
    ensures dst[..] == ScaledYuyvTo(src[..], was, s, d, y + 1, 0)
  {
    hide ScaledYuyvTo, Ratio, Index, AddressYuyv, U32, Sample;
    RowBordersYuyv(src[..], was, s, d, y);
    Small(s.left * ONE);
    StepsStayInside(s.width, d.width, 0);
    var srcX: nat := U32(s.left * ONE);
    ghost var j := 0;
    var x: nat := d.left;
    while x < d.left + d.width
      invariant x == d.left + j && j <= d.width
      invariant srcX == s.left * ONE + j * hRatio
      invariant dst[..] == ScaledYuyvTo(src[..], was, s, d, y, x)
    {
      PixelScaledYuyv(src[..], was, s, d, i, j);
      StepExact(s.left, s.width, d.width, j);
      AddressYuyvExact(y, x, 0, d.stride, dst.Length);
      AddressYuyvExact(srcY, srcX / ONE, 0, s.stride, src.Length);
      dst[AddressYuyv(y, x, 0, d.stride)] := src[AddressYuyv(srcY, srcX / ONE, 0, s.stride)];
      if x % 2 == 0 {
        var cx := srcX / ONE - srcX / ONE % 2;
        assert cx == FirstOfPair(srcX / ONE);
        AddressYuyvExact(y, x, 1, d.stride, dst.Length);
        AddressYuyvExact(y, x, 3, d.stride, dst.Length);
        AddressYuyvExact(srcY, cx, 1, s.stride, src.Length);
        AddressYuyvExact(srcY, cx, 3, s.stride, src.Length);
        dst[AddressYuyv(y, x, 1, d.stride)] := src[AddressYuyv(srcY, cx, 1, s.stride)];
        dst[AddressYuyv(y, x, 3, d.stride)] := src[AddressYuyv(srcY, cx, 3, s.stride)];
      }
      srcX := Min(U32(srcX + U32(hRatio)), U32((s.left + s.width) * ONE));
      j, x := j + 1, x + 1;
    }
  }

  /** `CScalerSW_YUYV`: two bytes a pixel, a pair of chroma bytes for every two pixels. */
  class ScalerYuyv {
    const src0: array<byte>
    const dst0: array<byte>
    var src: Rect
    var dst: Rect

    constructor (src0: array<byte>, dst0: array<byte>)
      ensures this.src0 == src0 && this.dst0 == dst0 && src == dst == Rect(0, 0, 0, 0, 0)
    {
      this.src0, this.dst0 := src0, dst0;
      src, dst := Rect(0, 0, 0, 0, 0), Rect(0, 0, 0, 0, 0);
    }

    method SetSrcRect(r: Rect)
      modifies this`src
      ensures src == r
    {
      src := r;
    }

    method SetDstRect(r: Rect)
      modifies this`dst
      ensures dst == r
    {
      dst := r;
    }

    method Scale() returns (ok: bool)
      requires src0 != dst0 && ReadableYuyv(src, src0.Length) && WritableYuyv(dst, dst0.Length)
      modifies dst0
      ensures ok == EvenYuyv(src, dst)
      ensures dst0[..] == if EvenYuyv(src, dst) then ScaledYuyv(src0[..], old(dst0[..]), src, dst) else old(dst0[..])
    {
      hide ScaledYuyv, ScaledYuyvTo, Ratio, Index, U32, Sample;
      if src.left % 2 != 0 || src.width % 2 != 0 || dst.width % 2 != 0 || src.stride % 2 != 0 {
        return false;
      }
      ghost var was := dst0[..];
      UnscaledYuyv(src0[..], was, src, dst);
      SizesYuyv(src, src0.Length, dst, dst0.Length);
      var hRatio: nat := U32(src.width * ONE) / dst.width;
      var vRatio: nat := U32(src.height * ONE) / dst.height;
      var srcY: nat := U32(src.top * ONE);
      ghost var i := 0;
      var y: nat := dst.top;
      while y < U32(dst.top + dst.height)
        invariant y == dst.top + i && i <= dst.height
        invariant srcY == src.top * ONE + i * vRatio
        invariant dst0[..] == ScaledYuyvTo(src0[..], was, src, dst, y, 0)
      {
        StepExact(src.top, src.height, dst.height, i);
        ScaleRowYuyv(src0, dst0, src, dst, hRatio, i, srcY / ONE, y, was);
        srcY := Min(U32(srcY + U32(vRatio)), U32((src.top + src.height) * ONE));
        i, y := i + 1, y + 1;
      }
      return true;
    }
  }

  lemma SizesYuyv(s: Rect, m: nat, d: Rect, n: nat)
    requires ReadableYuyv(s, m) && WritableYuyv(d, n)
    ensures U32(s.width * ONE) / d.width == Ratio(s.width, d.width) < 0x1_0000_0000
    ensures U32(s.height * ONE) / d.height == Ratio(s.height, d.height) < 0x1_0000_0000
    ensures U32(s.top * ONE) == s.top * ONE && U32(d.top + d.height) == d.top + d.height
    ensures d.left + d.width < 0x1_0000_0000
  {
    hide Index, Ratio;
    RatioSmall(s.width, d.width);
    RatioSmall(s.height, d.height);
    LastRowSmall(d.top + d.height - 1, 2 * (d.left + d.width + d.left % 2), 2 * d.stride);
    Small(s.top * ONE);
    Small(d.top + d.height);
  }

  /** A row and a column are no larger than the index that they make. */
  lemma LastRowSmall(y: nat, x: nat, stride: nat)
    requires x > 0 && stride > 0
    ensures y + x <= Index(y, x, stride)
  {
    MulMono(1, stride, y);
    Commute(y, stride, 1);
  }

  // ---------------------------------------------------------------- what YUYV scaling comes to

  lemma OwnerOfFirst(left: nat)
    requires left % 2 == 1
    ensures Owner(2 * left + 1) == left - 1
  {
  }

  lemma OwnedIffInside(b: nat, left: nat, width: nat)
    requires left % 2 == 0 && width % 2 == 0
    ensures left <= Owner(b) < left + width <==> 2 * left <= b < 2 * (left + width)
  {
    var i, j := left / 2, (left + width) / 2;
    assert 2 * i <= Owner(b) < 2 * j <==> 4 * i <= b < 4 * j;
  }

  /** The scaler stores exactly the bytes of the destination rectangle if and only if its left edge is even. */
  lemma StoresRectangleIffLeftEven(d: Rect, length: nat)
    requires WritableYuyv(d, length) && d.width % 2 == 0
    ensures (forall k :: 0 <= k < length ==> (StoredYuyv(d, k) <==> InsideYuyv(d, k))) <==> d.left % 2 == 0
  {
    hide Row, Col, Index, Owner;
    if d.left % 2 == 0 {
      forall k | 0 <= k < length
        ensures StoredYuyv(d, k) <==> InsideYuyv(d, k)
      {
        OwnedIffInside(Col(k, 2 * d.stride), d.left, d.width);
      }
    } else {
      // the first chroma byte of the rectangle is not stored
      var k := Index(d.top, 2 * d.left + 1, 2 * d.stride);
      RowColOfIndex(d.top, 2 * d.left + 1, 2 * d.stride);
      IndexBound(d.top, 2 * d.left + 1, d.top + d.height, 2 * (d.left + d.width + d.left % 2), 2 * d.stride);
      OwnerOfFirst(d.left);
      assert InsideYuyv(d, k) && !StoredYuyv(d, k);
    }
  }

  /** A row of eight pixels becomes the two at column 2 of a row of four: luma of two of them, and the chroma of one pair. */
  method ShrinksRow(src0: array<byte>) returns (scaler: ScalerYuyv, ok: bool)
    requires src0.Length == 16
    ensures ok && fresh(scaler) && fresh(scaler.dst0)
    ensures scaler.dst0[..] == [0, 0, 0, 0, src0[0], src0[1], src0[8], src0[3]]
  {
    hide ScaledYuyv, ReadableYuyv, WritableYuyv, EvenYuyv;
    RowsFit(Rect(0, 0, 8, 1, 8), Rect(2, 0, 2, 1, 4));
    var dst0 := new byte[8](_ => 0);
    scaler := new ScalerYuyv(src0, dst0);
    scaler.SetSrcRect(Rect(0, 0, 8, 1, 8));
    scaler.SetDstRect(Rect(2, 0, 2, 1, 4));
    ghost var was := dst0[..];
    assert was == [0, 0, 0, 0, 0, 0, 0, 0];
    ok := scaler.Scale();
    ShrunkRow(src0[..], was);
  }

  lemma RowsFit(s: Rect, d: Rect)
    requires s == Rect(0, 0, 8, 1, 8) && d == Rect(2, 0, 2, 1, 4)
    ensures ReadableYuyv(s, 16) && WritableYuyv(d, 8) && EvenYuyv(s, d)
  {
    hide Index;
    IndexIs(0, 16, 16);
    IndexIs(0, 8, 8);
  }

  lemma ShrunkRow(src: seq<byte>, was: seq<byte>)
    requires |src| == 16 && was == [0, 0, 0, 0, 0, 0, 0, 0]
    ensures ScaledYuyv(src, was, Rect(0, 0, 8, 1, 8), Rect(2, 0, 2, 1, 4)) == [0, 0, 0, 0, src[0], src[1], src[8], src[3]]
  {
    assert Sample(0, 8, 2, 0) == 0 && Sample(0, 8, 2, 1) == 4 && Sample(0, 1, 1, 0) == 0;
  }

  /** Two pixels scaled to column 1: a chroma byte of column 1 is not stored, but one of column 3 is. */
  lemma OddLeftExample(d: Rect)
    requires d == Rect(1, 0, 2, 1, 4)
    ensures InsideYuyv(d, 3) && !StoredYuyv(d, 3)
    ensures !InsideYuyv(d, 7) && StoredYuyv(d, 7)
  {
  }

  /** The closed form of a pixel, and of the chroma pair if the pixel is the first of its pair. */
  lemma ScaledYuyvAt(src: seq<byte>, dst: seq<byte>, s: Rect, d: Rect, i: nat, j: nat, b: nat)
    requires ReadableYuyv(s, |src|) && WritableYuyv(d, |dst|) && EvenYuyv(s, d) && i < d.height && j < d.width
    requires b == 0 || ((b == 1 || b == 3) && (d.left + j) % 2 == 0)
    ensures
      var x := Sample(s.left, s.width, d.width, j);
      var from := Index(Sample(s.top, s.height, d.height, i), if b == 0 then 2 * x else 2 * FirstOfPair(x) + b, 2 * s.stride);
      var at := Index(d.top + i, 2 * (d.left + j) + b, 2 * d.stride);
      at < |dst| && from < |src| && ScaledYuyv(src, dst, s, d)[at] == src[from]
  {
    hide Row, Col, Sample, Index, Owner, SourceYuyv;
    ByteScaled(src, dst, s, d, i, j, b);
  }

  lemma OwnerParts(b: nat)
    ensures b == 2 * Owner(b) || (Owner(b) % 2 == 0 && (b == 2 * Owner(b) + 1 || b == 2 * Owner(b) + 3))
  {
  }

  /** Rectangles of equal size are copied, byte for byte, if the destination's left edge is even. */
  lemma EqualSizesCopyYuyv(src: seq<byte>, dst: seq<byte>, s: Rect, d: Rect, i: nat, b: nat)
    requires ReadableYuyv(s, |src|) && WritableYuyv(d, |dst|) && EvenYuyv(s, d) && d.left % 2 == 0
    requires s.width == d.width && s.height == d.height && i < d.height && b < 2 * d.width
    ensures
      var from, at := Index(s.top + i, 2 * s.left + b, 2 * s.stride), Index(d.top + i, 2 * d.left + b, 2 * d.stride);
      from < |src| && at < |dst| && ScaledYuyv(src, dst, s, d)[at] == src[from]
  {
    hide ScaledYuyv, Sample, Index, Ratio, Owner, ReadableYuyv, WritableYuyv;
    var j := Owner(b);
    OwnerParts(b);
    SameSizeSample(s.top, s.height, i);
    SameSizeSample(s.left, s.width, j);
    ScaledYuyvAt(src, dst, s, d, i, j, b - 2 * j);
  }
}
