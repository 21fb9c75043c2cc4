/** Bytes, fixed-width numbers, and images: what a writer puts into a buffer and what it leaves alone. */
module Bytes {

  type byte = x: int | 0 <= x < 0x100
  type u16 = x: int | 0 <= x < 0x1_0000
  type u32 = x: int | 0 <= x < 0x1_0000_0000

  /** Conversion to `uint16_t`. */
  function U16(x: int): u16 { x % 0x1_0000 }

  /** Conversion to `uint32_t`. */
  function U32(x: int): u32 { x % 0x1_0000_0000 }

  function Min(a: int, b: int): int { if a <= b then a else b }

  function Le16(v: u16): (s: seq<byte>)
    ensures |s| == 2
  {
    [v % 0x100, v / 0x100]
  }

  function Le32(v: u32): (s: seq<byte>)
    ensures |s| == 4
  {
    [v % 0x100, v / 0x100 % 0x100, v / 0x1_0000 % 0x100, v / 0x100_0000]
  }

  function Be16(v: u16): (s: seq<byte>)
    ensures |s| == 2
  {
    [v / 0x100, v % 0x100]
  }

  function GetLe16(s: seq<byte>, at: nat): u16
    requires at + 2 <= |s|
  {
    s[at] as int + 0x100 * (s[at + 1] as int)
  }

  function GetLe32(s: seq<byte>, at: nat): u32
    requires at + 4 <= |s|
  {
    s[at] as int + 0x100 * (s[at + 1] as int) + 0x1_0000 * (s[at + 2] as int) + 0x100_0000 * (s[at + 3] as int)
  }

  function GetBe16(s: seq<byte>, at: nat): u16
    requires at + 2 <= |s|
  {
    0x100 * (s[at] as int) + s[at + 1] as int
  }

  /** One buffer position as a writer sees it: left alone, or given a value. */
  datatype Cell = Keep | Put(b: byte)

  type Image = seq<Cell>

  ghost function Lit(s: seq<byte>): (img: Image)
    ensures |img| == |s|
  {
    seq(|s|, i requires 0 <= i < |s| => Put(s[i]))
  }

  ghost function Blank(n: nat): (img: Image)
    ensures |img| == n
  {
    seq(n, _ => Keep)
  }

  /** The buffer holds every byte the image puts at `at`. */
  ghost predicate Matches(mem: seq<byte>, at: nat, img: Image) {
    && at + |img| <= |mem|
    && forall i :: 0 <= i < |img| && img[i].Put? ==> mem[at + i] == img[i].b
  }

  /** The buffer after the image has been written at `at`. */
  ghost function Stamp(mem: seq<byte>, at: nat, img: Image): (r: seq<byte>)
    requires at + |img| <= |mem|
    ensures |r| == |mem|
  {
    seq(|mem|, i requires 0 <= i < |mem| =>
      if at <= i < at + |img| && img[i - at].Put? then img[i - at].b else mem[i])
  }

  lemma StampMatches(mem: seq<byte>, at: nat, img: Image)
    requires at + |img| <= |mem|
    ensures Matches(Stamp(mem, at, img), at, img)
  {
  }

  lemma LitConcat(a: seq<byte>, b: seq<byte>)
    ensures Lit(a + b) == Lit(a) + Lit(b)
  {
  }

  lemma MatchesConcat(mem: seq<byte>, at: nat, a: Image, b: Image)
    ensures Matches(mem, at, a + b) <==> Matches(mem, at, a) && Matches(mem, at + |a|, b)
    ensures Matches(mem, at, a + b) ==> at + |a| + |b| <= |mem|
  {
    if Matches(mem, at, a + b) {
      forall i | 0 <= i < |a| && a[i].Put?
        ensures mem[at + i] == a[i].b
      {
        assert (a + b)[i] == a[i];
      }
      forall i | 0 <= i < |b| && b[i].Put?
        ensures mem[at + |a| + i] == b[i].b
      {
        assert (a + b)[|a| + i] == b[i];
      }
    }
  }

  lemma MatchesLit(mem: seq<byte>, at: nat, s: seq<byte>)
    ensures Matches(mem, at, Lit(s)) <==> at + |s| <= |mem| && mem[at..at + |s|] == s
  {
    if Matches(mem, at, Lit(s)) {
      forall i | 0 <= i < |s|
        ensures mem[at + i] == s[i]
      {
        assert Lit(s)[i].Put?;
      }
    }
  }

  /** An image at `at` puts a byte at or behind `end`. */
  ghost predicate StoresBehind(img: Image, at: nat, end: nat) {
    exists i :: 0 <= i < |img| && at + i >= end && img[i].Put?
  }

  lemma StampConcat(mem: seq<byte>, at: nat, a: Image, b: Image)
    requires at + |a| + |b| <= |mem|
    ensures Stamp(Stamp(mem, at, a), at + |a|, b) == Stamp(mem, at, a + b)
  {
  }

  /** The effect of stamping `u` over an image `w` already stamped at the same place. */
  ghost function Overlay(u: Image, w: Image): (r: Image)
    requires |u| <= |w|
    ensures |r| == |w|
  {
    seq(|w|, i requires 0 <= i < |w| => if i < |u| && u[i].Put? then u[i] else w[i])
  }

  ghost predicate SameMask(a: Image, b: Image) {
    |a| == |b| && forall i :: 0 <= i < |a| ==> a[i].Put? == b[i].Put?
  }

  lemma StampOverlay(mem: seq<byte>, at: nat, w: Image, u: Image)
    requires |u| <= |w| && at + |w| <= |mem|
    ensures Stamp(Stamp(mem, at, w), at, u) == Stamp(mem, at, Overlay(u, w))
  {
  }

  lemma OverlayConcat(u: Image, v: Image, w: Image, x: Image)
    requires |u| == |w| && |v| <= |x|
    ensures Overlay(u + v, w + x) == Overlay(u, w) + Overlay(v, x)
  {
  }

  /** An image replaces one with the same mask, blanks change nothing. */
  lemma OverlayWhole(u: Image, w: Image)
    ensures SameMask(u, w) ==> Overlay(u, w) == u
    ensures Overlay(Blank(|w|), w) == w
    ensures Overlay([], w) == w
  {
  }

  lemma SameMaskConcat(a: Image, b: Image, c: Image, d: Image)
    requires SameMask(a, c) && SameMask(b, d)
    ensures SameMask(a + b, c + d)
  {
  }

  /** Storing other bytes over the literal part of an image that the buffer matches. */
  lemma MatchesReplaced(mem: seq<byte>, at: nat, a: Image, s: seq<byte>, t: seq<byte>, c: Image)
    requires Matches(mem, at, a + Lit(s) + c) && |s| == |t|
    ensures Matches(Stamp(mem, at + |a|, Lit(t)), at, a + Lit(t) + c)
  {
    var r := Stamp(mem, at + |a|, Lit(t));
    var was, img := a + Lit(s) + c, a + Lit(t) + c;
    forall i | 0 <= i < |img| && img[i].Put?
      ensures r[at + i] == img[i].b
    {
      if i < |a| || |a| + |t| <= i {
        assert img[i] == was[i];
      }
    }
  }

  /** A store beside an image does not disturb it. */
  lemma MatchesApart(mem: seq<byte>, at: nat, img: Image, p: nat, s: seq<byte>)
    requires Matches(mem, at, img) && p + |s| <= |mem|
    requires p + |s| <= at || at + |img| <= p
    ensures Matches(Stamp(mem, p, Lit(s)), at, img)
  {
  }

  /** `memmove` of a block that matches an image. */
  lemma MatchesBlockMoved(mem: seq<byte>, src: nat, img: Image, dst: nat)
    requires Matches(mem, src, img) && dst + |img| <= |mem|
    ensures Matches(Stamp(mem, dst, Lit(mem[src..src + |img|])), dst, img)
  {
  }

  lemma MatchesStamped(mem: seq<byte>, p: nat, s: seq<byte>)
    requires p + |s| <= |mem|
    ensures Matches(Stamp(mem, p, Lit(s)), p, Lit(s))
  {
  }

  lemma StampEmpty(mem: seq<byte>, at: nat)
    requires at <= |mem|
    ensures Stamp(mem, at, []) == mem
  {
  }

  lemma StampBlank(mem: seq<byte>, at: nat, a: Image, k: nat)
    requires at + |a| + k <= |mem|
    ensures Stamp(mem, at, a + Blank(k)) == Stamp(mem, at, a)
  {
  }

  /** Writing `e` into the first blanks of an image already stamped. */
  lemma StampFill(mem: seq<byte>, at: nat, a: Image, e: Image, k: nat, c: Image)
    requires |e| <= k
    requires at + |a| + k + |c| <= |mem|
    ensures Stamp(Stamp(mem, at, a + Blank(k) + c), at + |a|, e) == Stamp(mem, at, a + e + Blank(k - |e|) + c)
  {
  }

  lemma ConcatAssoc(a: Image, b: Image, c: Image)
    ensures a + (b + c) == (a + b) + c
  {
  }

  /** Filling the first blanks of a stamped image and appending to its end. */
  lemma FillAndAppend(mem: seq<byte>, at: nat, h: Image, a: Image, e: Image, k: nat, c: Image, v: Image)
    requires |e| <= k
    requires at + |h| + |a| + k + |c| + |v| <= |mem|
    ensures Stamp(Stamp(Stamp(mem, at, h + a + Blank(k) + c), at + |h| + |a|, e), at + |h| + |a| + k + |c|, v)
            == Stamp(mem, at, h + (a + e) + Blank(k - |e|) + (c + v))
  {
    hide Stamp, Blank;
    StampFill(mem, at, h + a, e, k, c);
    StampConcat(mem, at, h + a + e + Blank(k - |e|) + c, v);
    ConcatAssoc(h + a + e + Blank(k - |e|), c, v);
    ConcatAssoc(h, a, e);
  }

  /** `*p++ = ...` repeated, `memcpy`, and `WriteData`: every byte-wise store of the writers. */
  method Store(buf: array<byte>, at: nat, s: seq<byte>)
    requires at + |s| <= buf.Length
    modifies buf
    ensures buf[..] == Stamp(old(buf[..]), at, Lit(s))
  {
    for i := 0 to |s|
      invariant forall j :: 0 <= j < buf.Length ==>
        buf[j] == if at <= j < at + i then s[j - at] else old(buf[j])
    {
      buf[at + i] := s[i];
    }
  }
}
