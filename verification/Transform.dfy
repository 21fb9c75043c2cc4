/** Rotation and flips: the HAL's transform values and what the G2D and the G-Scaler are told instead. */
module Transform {
  import opened Arithmetic
  import opened Bytes
  import opened G2dFilters

  // ---------------------------------------------------------------- images and where their pixels go

  /** A pixel of an image of the given size. */
  datatype Pixel = Pixel(x: int, y: int, width: nat, height: nat) {
    predicate Valid() {
      0 <= x < width && 0 <= y < height
    }
  }

  function FlipH(p: Pixel): Pixel { p.(x := p.width - 1 - p.x) }
  function FlipV(p: Pixel): Pixel { p.(y := p.height - 1 - p.y) }
  function RotateCw(p: Pixel): Pixel { Pixel(p.height - 1 - p.y, p.x, p.height, p.width) }
  function RotateCcw(p: Pixel): Pixel { Pixel(p.y, p.width - 1 - p.x, p.height, p.width) }

  function FlipIf(h: bool, v: bool, p: Pixel): Pixel {
    var q := if h then FlipH(p) else p;
    if v then FlipV(q) else q
  }

  // ---------------------------------------------------------------- the HAL's meaning

  predicate HasFlipH(transform: u32) { transform % 2 == 1 }
  predicate HasFlipV(transform: u32) { transform / 2 % 2 == 1 }
  predicate HasRot90(transform: u32) { transform / 4 % 2 == 1 }

  /** The flips come first, then the rotation by 90 degrees clockwise. */
  function HalPlace(transform: u32, p: Pixel): Pixel {
    var q := FlipIf(HasFlipH(transform), HasFlipV(transform), p);
    if HasRot90(transform) then RotateCw(q) else q
  }

  /** Where each of the eight transforms takes a pixel: 1 flips it sideways, 2 upside down, 4 turns it clockwise. */
  lemma HalPlaceIs(transform: u32, p: Pixel)
    ensures
      var x, y, h, v := p.x, p.y, p.width - 1 - p.x, p.height - 1 - p.y;
      var q := HalPlace(transform, p);
      && (q.x, q.y) == (match transform % 8
                        case 0 => (x, y) case 1 => (h, y) case 2 => (x, v) case 3 => (h, v)
                        case 4 => (v, x) case 5 => (v, h) case 6 => (y, x) case _ => (y, h))
      && (q.width, q.height) == if transform % 8 >= 4 then (p.height, p.width) else (p.width, p.height)
  {
    Bits(transform);
    hide HasFlipH, HasFlipV, HasRot90;
  }

  // ---------------------------------------------------------------- G2D

  const ROTATEDIR_ROT90CCW := 1
  const ROTATEDIR_FLIP := 0x10  // 1 << G2D_ROTATEDIR_FLIP_SHIFT

  /** The value of the layer's rotation register. */
  function G2dRotate(transform: u32): (r: u32)
    ensures r % 0x10 <= 1 && r / 0x10 <= 3
  {
    var flip := transform % 4;
    if HasRot90(transform) then
      ROTATEDIR_ROT90CCW + ROTATEDIR_FLIP * (if flip == 0 || flip == 3 then 3 - flip else flip)
    else ROTATEDIR_FLIP * flip
  }

  /** The hardware rotates counterclockwise first and flips then. */
  function G2dPlace(register: u32, p: Pixel): Pixel {
    var q := if register % 2 == 1 then RotateCcw(p) else p;
    FlipIf(register / 0x10 % 2 == 1, register / 0x20 % 2 == 1, q)
  }

  // ---------------------------------------------------------------- G-Scaler

  datatype GscRotation = GscRotation(rotate: int, hflip: bool, vflip: bool)

  function RotateValueHal2Gsc(transform: u32): GscRotation {
    match transform % 8
    case 4 => GscRotation(90, false, false)
    case 3 => GscRotation(180, false, false)
    case 7 => GscRotation(270, false, false)
    case 5 => GscRotation(90, false, true)
    case 6 => GscRotation(90, true, false)
    case 1 => GscRotation(0, true, false)
    case 2 => GscRotation(0, false, true)
    case _ => GscRotation(0, false, false)
  }

  /** The scaler rotates clockwise first and flips then. */
  function GscPlace(g: GscRotation, p: Pixel): Pixel {
    var q :=
      match g.rotate
      case 90 => RotateCw(p)
      case 180 => RotateCw(RotateCw(p))
      case 270 => RotateCw(RotateCw(RotateCw(p)))
      case _ => p;
    FlipIf(g.hflip, g.vflip, q)
  }

  // ---------------------------------------------------------------- the encodings agree

  lemma CounterclockwiseUndoesClockwise(p: Pixel)
    ensures RotateCcw(RotateCw(p)) == p && RotateCw(RotateCcw(p)) == p
    ensures RotateCcw(p) == RotateCw(FlipIf(true, true, p))
  {
  }

  /** A flip before a rotation is the other flip after it. */
  lemma FlipPastRotation(h: bool, v: bool, p: Pixel)
    ensures RotateCw(FlipIf(h, v, p)) == FlipIf(v, h, RotateCw(p))
    ensures RotateCcw(FlipIf(h, v, p)) == FlipIf(v, h, RotateCcw(p))
  {
  }

  /** Under rotation the register holds the opposite of each flip, in the other's place. */
  lemma G2dBits(transform: u32)
    ensures
      var r, h, v := G2dRotate(transform), HasFlipH(transform), HasFlipV(transform);
      && (r % 2 == 1) == HasRot90(transform)
      && (r / 0x10 % 2 == 1) == (if HasRot90(transform) then !v else h)
      && (r / 0x20 % 2 == 1) == (if HasRot90(transform) then !h else v)
  {
    var f := transform % 4;
    assert f == 0 || f == 1 || f == 2 || f == 3;
  }

  /** For every transform, image size and pixel, the G2D sends the pixel where the HAL wants it. */
  lemma G2dMeansHal(transform: u32, p: Pixel)
    ensures G2dPlace(G2dRotate(transform), p) == HalPlace(transform, p)
  {
    hide G2dRotate, HasFlipH, HasFlipV, HasRot90;
    G2dBits(transform);
    var h, v := HasFlipH(transform), HasFlipV(transform);
    CounterclockwiseUndoesClockwise(FlipIf(!h, !v, p));
    FlipPastRotation(!h, !v, p);
  }

  lemma GscMeansHal(transform: u32, p: Pixel)
    ensures GscPlace(RotateValueHal2Gsc(transform), p) == HalPlace(transform, p)
    ensures RotateValueHal2Gsc(transform).rotate in {0, 90, 180, 270}
  {
    hide FlipIf, RotateCw;
    var h, v := HasFlipH(transform), HasFlipV(transform);
    FlipPastRotation(h, v, p);
    Turns(p);
    Bits(transform);
  }

  lemma Bits(transform: u32)
    ensures transform % 8 == (if HasFlipH(transform) then 1 else 0) + (if HasFlipV(transform) then 2 else 0)
                             + if HasRot90(transform) then 4 else 0
  {
    var q, k := transform / 8, transform % 8;
    assert transform / 2 == 4 * q + k / 2 && transform / 4 == 2 * q + k / 4;
    assert transform == 8 * q + k && k in {0, 1, 2, 3, 4, 5, 6, 7};
    assert k == k / 4 * 4 + k / 2 % 2 * 2 + k % 2;
  }

  lemma Turns(p: Pixel)
    ensures RotateCw(RotateCw(p)) == FlipIf(true, true, p)
    ensures RotateCw(RotateCw(RotateCw(p))) == RotateCw(FlipIf(true, true, p))
    ensures forall q :: FlipIf(false, false, q) == q
  {
  }

  /** Every pixel of the image goes to a pixel of the transformed image, and no two go to the same one. */
  lemma HalIsPermutation(transform: u32, p: Pixel, q: Pixel)
    requires p.Valid() && q.Valid() && p.width == q.width && p.height == q.height
    ensures HalPlace(transform, p).Valid()
    ensures (HalPlace(transform, p).width, HalPlace(transform, p).height)
            == if HasRot90(transform) then (p.height, p.width) else (p.width, p.height)
    ensures HalPlace(transform, p) == HalPlace(transform, q) ==> p == q
  {
  }

  /** Only the low three bits matter, and the eight transforms they make are all different. */
  lemma TransformsDiffer(a: u32, b: u32)
    ensures a % 8 == b % 8 ==> G2dRotate(a) == G2dRotate(b) && RotateValueHal2Gsc(a) == RotateValueHal2Gsc(b)
    ensures a % 8 != b % 8 ==> G2dRotate(a) != G2dRotate(b) && RotateValueHal2Gsc(a) != RotateValueHal2Gsc(b)
  {
    hide G2dRotate, HasFlipH, HasFlipV, HasRot90, RotateValueHal2Gsc;
    Bits(a);
    Bits(b);
    G2dBits(a);
    G2dBits(b);
    LowBits(a);
    LowBits(b);
    GscDiffers(a, b);
  }

  lemma LowBits(transform: u32)
    ensures G2dRotate(transform) == G2dRotate(transform % 8)
  {
    Bits(transform);
    Bits(transform % 8);
    assert transform % 4 == transform % 8 % 4;
  }

  lemma GscDiffers(a: u32, b: u32)
    ensures a % 8 == b % 8 <==> RotateValueHal2Gsc(a) == RotateValueHal2Gsc(b)
  {
  }

  // ---------------------------------------------------------------- scale factors

  /** Sizes are 16-bit numbers, and an area has pixels. */
  type Side = n: nat | 0 < n < 0x8000 witness 1

  datatype Size = Size(hori: Side, vert: Side) {
    function Swapped(): Size { Size(vert, hori) }
  }

  const SCALECONTROL_BILINEAR := 2
  const SCALECONTROL_POLYPHASE := 3
  const SCALECONTROL_FILTERCOEF := 0x10  // 1 << G2D_SCALECONTROL_FILTERCOEF_SHIFT

  datatype Scaling = Scaling(rotate: u32, xscale: u32, yscale: u32, control: u32)

  /** Bitwise or. */
  function Or(a: nat, b: nat): (r: nat)
    decreases a + b
  {
    if a == 0 && b == 0 then 0
    else 2 * Or(a / 2, b / 2) + if a % 2 == 1 || b % 2 == 1 then 1 else 0
  }

  /** The value of the rotation register. */
  method PrepareRotation(transform: u32) returns (rotate: u32)
    ensures forall p :: G2dPlace(rotate, p) == HalPlace(transform, p)
    ensures rotate % 0x10 <= 1 && rotate / 0x10 <= 3
  {
    hide HalPlace, G2dPlace;
    rotate := 0;
    var flip := transform % 4;
    if HasRot90(transform) {
      rotate := ROTATEDIR_ROT90CCW;
      if flip == 0 || flip == 3 {
        flip := 3 - flip;
      }
    }
    rotate := rotate + flip * ROTATEDIR_FLIP;
    assert rotate == G2dRotate(transform);
    forall p ensures G2dPlace(rotate, p) == HalPlace(transform, p) {
      G2dMeansHal(transform, p);
    }
  }

  /** The rotation and scaling registers of a layer that shows `crop` in a window of the target image. */
  method PrepareScaling(transform: u32, crop: Size, target: Size, index: nat, polyphase: bool) returns (r: Scaling)
    requires index < 16
    ensures forall p :: G2dPlace(r.rotate, p) == HalPlace(transform, p)
    ensures var window := if HasRot90(transform) then target.Swapped() else target;
            && r.xscale == ScaleFactor(crop.hori, window.hori) && r.yscale == ScaleFactor(crop.vert, window.vert)
            && (r.control == 0 <==> crop == window)
            && (r.control == 0 <==> r.xscale == r.yscale == FRACBITS_ONE)
    ensures
      var (w, h) := if transform / 4 % 2 == 1 then (target.vert, target.hori) else (target.hori, target.vert);
      && r.xscale * w <= crop.hori * 0x1_0000 < r.xscale * w + w && (r.xscale > 0x1_0000 <==> crop.hori > w)
      && r.yscale * h <= crop.vert * 0x1_0000 < r.yscale * h + h && (r.yscale > 0x1_0000 <==> crop.vert > h)
    ensures r.control != 0 ==> r.control % 0x10 == if polyphase then 3 else 2
    ensures r.control != 0 && polyphase ==> r.control / 0x10 == index
  {
    hide ScaleFactor, HalPlace, G2dPlace, Or;
    var rotate := PrepareRotation(transform);
    var x, y := PrepareFactors(transform, crop, target);
    r := Scaling(rotate, x, y, ScaleControl(Or(x, y) == FRACBITS_ONE, polyphase, index));
  }

  /** Which scaler a layer is to use. */
  function ScaleControl(unscaled: bool, polyphase: bool, index: nat): (control: u32)
    requires index < 16
    ensures control == 0 <==> unscaled
    ensures control != 0 ==> control % 0x10 == (if polyphase then 3 else 2) && (polyphase ==> control / 0x10 == index)
  {
    if unscaled then 0
    else if polyphase then index * SCALECONTROL_FILTERCOEF + SCALECONTROL_POLYPHASE
    else SCALECONTROL_BILINEAR
  }

  /** Both scale factors, against the window as it lies before the rotation. */
  method PrepareFactors(transform: u32, crop: Size, target: Size) returns (x: u32, y: u32)
    ensures var window := if HasRot90(transform) then target.Swapped() else target;
            && x == ScaleFactor(crop.hori, window.hori) && y == ScaleFactor(crop.vert, window.vert)
            && (Or(x, y) == FRACBITS_ONE <==> crop == window) && (crop == window <==> x == y == FRACBITS_ONE)
    ensures
      var (w, h) := if transform / 4 % 2 == 1 then (target.vert, target.hori) else (target.hori, target.vert);
      && x * w <= crop.hori * 0x1_0000 < x * w + w && (x > 0x1_0000 <==> crop.hori > w)
      && y * h <= crop.vert * 0x1_0000 < y * h + h && (y > 0x1_0000 <==> crop.vert > h)
  {
    hide ScaleFactor, Or;
    var window := target;
    if HasRot90(transform) {
      window := window.Swapped();
    }
    x, y := ScaleFactor(crop.hori, window.hori), ScaleFactor(crop.vert, window.vert);
    UnscaledFactor(crop.hori, window.hori);
    UnscaledFactor(crop.vert, window.vert);
    OrIsOne(x, y);
    FactorIs(crop.hori, window.hori);
    FactorIs(crop.vert, window.vert);
  }

  /** A scale factor is 1.0 exactly between equal sides, and never 0. */
  lemma UnscaledFactor(from: Side, to: Side)
    ensures ScaleFactor(from, to) == FRACBITS_ONE <==> from == to
    ensures ScaleFactor(from, to) > 0
  {
    var n: nat := from * FRACBITS_ONE;
    assert U32(n) == n;
    DivBounds(n, to);
    if n / to == FRACBITS_ONE {
      assert to * FRACBITS_ONE <= from * FRACBITS_ONE < to * FRACBITS_ONE + to;
    }
    if from == to {
      DivModUnique(n, to, FRACBITS_ONE, 0);
    }
  }

  /** A scale factor is the quotient of source and destination, cut to 16 bits of fraction; it shows every reduction. */
  lemma FactorIs(from: Side, to: Side)
    ensures var r := ScaleFactor(from, to);
            r * to <= from * 0x1_0000 < r * to + to && (r > 0x1_0000 <==> from > to)
  {
    var r: nat, n: nat := ScaleFactor(from, to), from * 0x1_0000;
    assert U32(n) == n;
    DivBounds(n, to);
    if from > to {
      MulMono(to + 1, from, 0x1_0000);
      if r <= 0x1_0000 {
        MulMono(r, 0x1_0000, to);
        assert false;
      }
    } else if r > 0x1_0000 {
      MulMono(from, to, 0x1_0000);
      MulMono(0x1_0001, r, to);
      assert false;
    }
  }

  /** Two factors that are not 0 combine to 1.0 only if both are 1.0. */
  lemma OrIsOne(a: nat, b: nat)
    requires a > 0 && b > 0
    ensures Or(a, b) == FRACBITS_ONE <==> a == b == FRACBITS_ONE
  {
    OrIsPower(a, b, 16);
    assert Power(4) == 0x10 && Power(8) == 0x100 && Power(12) == 0x1000 && Power(16) == FRACBITS_ONE;
  }

  function Power(n: nat): nat {
    if n == 0 then 1 else 2 * Power(n - 1)
  }

  lemma {:induction false} OrIsPower(a: nat, b: nat, n: nat)
    requires a > 0 && b > 0
    ensures Or(a, b) == Power(n) <==> a == b == Power(n)
    decreases n
  {
    OrPositive(a / 2, b / 2);
    if n > 0 && a > 1 && b > 1 {
      OrIsPower(a / 2, b / 2, n - 1);
    }
  }

  lemma {:induction false} OrPositive(a: nat, b: nat)
    ensures Or(a, b) >= a && Or(a, b) >= b
    decreases a + b
  {
    if a > 0 || b > 0 {
      OrPositive(a / 2, b / 2);
    }
  }
}
