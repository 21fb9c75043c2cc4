/** `ExynosJpegEncoderForCamera`: assembles the final stream around what the hardware compressed. */
module CameraEncoder {
  import opened Bytes
  import opened Tiff
  import opened Exif
  import opened ExifWriter
  import opened AppMarkers
  import opened App1Patch
  import opened JpegParser

  /** A stream as the compressor leaves it: SOI first, EOI somewhere, then possibly dummy bytes. */
  predicate IsEoi(s: seq<byte>, i: int) {
    0 <= i && i + 2 <= |s| && s[i] == 0xFF && s[i + 1] == 0xD9
  }

  ghost predicate HardwareStream(s: seq<byte>) {
    |s| > 4 && s[0] == 0xFF && s[1] == 0xD8 && exists i :: IsEoi(s, i)
  }

  /** `n` is the length up to the last EOI. */
  ghost predicate EndsAtEoi(s: seq<byte>, n: nat) {
    2 < n <= |s| && IsEoi(s, n - 2) && forall i :: n - 2 < i ==> !IsEoi(s, i)
  }

  method RemoveTrailingDummies(s: seq<byte>) returns (n: nat)
    requires |s| > 4
    ensures n == 0 ==> forall i :: 0 < i ==> !IsEoi(s, i)
    ensures n != 0 ==> EndsAtEoi(s, n)
    ensures n != 0 ==> 2 < n <= |s| && s[n - 2] == 0xFF && s[n - 1] == 0xD9
    ensures forall i :: 0 < i && n - 2 < i < |s| - 1 ==> s[i] != 0xFF || s[i + 1] != 0xD9
  {
    var riter := |s| - 2;
    while riter > 0
      invariant 0 <= riter <= |s| - 2
      invariant forall i :: riter < i ==> !IsEoi(s, i)
      invariant forall i :: riter < i < |s| - 1 ==> s[i] != 0xFF || s[i + 1] != 0xD9
    {
      if s[riter] == 0xFF && s[riter + 1] == 0xD9 {
        assert IsEoi(s, riter);
        return riter + 2;
      }
      riter := riter - 1;
    }
    return 0;
  }

  /** How the thumbnail stream comes about: by the worker thread, a pass of its own, or back to back with the main image. */
  datatype ThumbMode = Worker(joined: bool, generated: bool) | SeparatePass | BackToBack {
    predicate Joined() {
      Worker? ==> joined
    }
  }

  type JpegBytes = s: seq<byte> | |s| > 4 witness [0, 0, 0, 0, 0]

  /** The thumbnail compressor: the stream it makes at a quality factor, unless it fails. */
  type Compressor = int -> Option<JpegBytes>

  /** 16, or 1 on devices that take any stream address. */
  type Alignment = n: int | n == 1 || n == 16 witness 1

  /** The quality factor of the `k`-th attempt after the first. */
  function NthQuality(quality: int, k: nat): int {
    if k == 0 then quality else Min(50, NthQuality(quality, k - 1) - 10)
  }

  /** The first attempt is made in any case, others down to a quality factor of 20. */
  predicate Attempt(quality: int, k: nat) {
    k == 0 || NthQuality(quality, k) >= 20
  }

  /** At most 50 from the second attempt on, and 10 less each time: four more attempts at the most. */
  lemma {:induction false} QualitySteps(quality: int, k: nat)
    ensures NthQuality(quality, k) == if k == 0 then quality else Min(60, quality) - 10 * k
    ensures Attempt(quality, k) <==> k == 0 || (k <= 4 && quality >= 20 + 10 * k)
  {
    if k > 0 {
      QualitySteps(quality, k - 1);
    }
  }

  // Data length written by the hardware without the scan data
  const NECESSARY_LENGTH := 0x24B + 2 * MARKER_SIZE

  class Encoder {
    const buf: array<byte>
    const writer: AppMarkerWriter
    const compress: Compressor
    const align: Alignment   // what the device demands of the main stream's address
    var hwfc: bool          // compression starts later; the payloads of the extra segments are only reserved
    var thumbJpeg: seq<byte>
    var thumbQuality: int
    var streamSize: nat     // the buffer's length until compression finishes, then the stream's
    ghost var reserved: bool

    constructor (buf: array<byte>, address: nat, align: Alignment, compress: Compressor, quality: int, hwfc: bool)
      ensures this.buf == buf && writer.buf == buf && writer.address == address && fresh(writer)
      ensures this.align == align && this.compress == compress && thumbQuality == quality && this.hwfc == hwfc
      ensures thumbJpeg == [] && streamSize == buf.Length
    {
      this.buf := buf;
      this.align := align;
      this.compress := compress;
      this.hwfc := hwfc;
      writer := new AppMarkerWriter(buf, address);
      thumbJpeg, thumbQuality, streamSize, reserved := [], quality, buf.Length, false;
    }

    /** The compressor's stream at this quality factor exceeds the limit. */
    ghost predicate TooLarge(q: int, limit: nat) {
      compress(q).Some? && exists n: nat :: EndsAtEoi(compress(q).value, n) && n > limit
    }

    /** The stream made at the first of the falling quality factors that is low enough for the limit. */
    ghost predicate FirstFit(quality: int, limit: nat, jpeg: seq<byte>, size: nat) {
      && EndsAtEoi(jpeg, size) && size <= limit
      && exists k: nat ::
           && Attempt(quality, k) && compress(NthQuality(quality, k)) == Some(jpeg)
           && forall j: nat :: j < k ==> TooLarge(NthQuality(quality, j), limit)
    }

    /** The compressor fails at this quality factor, or what it makes has no end. */
    ghost predicate Fails(q: int) {
      compress(q).None? || forall i :: 0 < i ==> !IsEoi(compress(q).value, i)
    }

    /** The attempts end with one that fails, or with the last one still too large. */
    ghost predicate EndsAt(quality: int, limit: nat, k: nat) {
      && Attempt(quality, k)
      && (forall j: nat :: j < k ==> TooLarge(NthQuality(quality, j), limit))
      && (Fails(NthQuality(quality, k)) || (TooLarge(NthQuality(quality, k), limit) && !Attempt(quality, k + 1)))
    }

    /** There is no thumbnail to be had. */
    ghost predicate Hopeless(quality: int, limit: nat) {
      exists k: nat :: EndsAt(quality, limit, k)
    }

    lemma {:induction false} AttemptsFall(quality: int, j: nat, k: nat)
      requires j <= k && Attempt(quality, k)
      ensures Attempt(quality, j)
      decreases k - j
    {
      if j < k {
        AttemptsFall(quality, j + 1, k);
      }
    }

    /** Whether there is a thumbnail, and which, is determined by the compressor. */
    lemma FitOrHopeless(quality: int, limit: nat, jpeg: seq<byte>, size: nat)
      requires FirstFit(quality, limit, jpeg, size)
      ensures !Hopeless(quality, limit)
      ensures forall j, s :: FirstFit(quality, limit, j, s) ==> j == jpeg && s == size
    {
      hide EndsAtEoi;
      var k: nat :| Attempt(quality, k) && compress(NthQuality(quality, k)) == Some(jpeg)
                    && forall j: nat :: j < k ==> TooLarge(NthQuality(quality, j), limit);
      OneEnd(jpeg);
      assert !TooLarge(NthQuality(quality, k), limit);
      forall l: nat
        ensures !EndsAt(quality, limit, l)
      {
        SamePlace(quality, limit, jpeg, size, k, l);
      }
      forall j, s | FirstFit(quality, limit, j, s)
        ensures j == jpeg && s == size
      {
        var l: nat :| Attempt(quality, l) && compress(NthQuality(quality, l)) == Some(j)
                      && forall j: nat :: j < l ==> TooLarge(NthQuality(quality, j), limit);
        OneEnd(j);
        assert !TooLarge(NthQuality(quality, l), limit);
        assert k == l;
      }
    }

    lemma SamePlace(quality: int, limit: nat, jpeg: seq<byte>, size: nat, k: nat, l: nat)
      requires !TooLarge(NthQuality(quality, k), limit) && Attempt(quality, k)
      requires forall j: nat :: j < k ==> TooLarge(NthQuality(quality, j), limit)
      requires compress(NthQuality(quality, k)) == Some(jpeg) && EndsAtEoi(jpeg, size)
      ensures !EndsAt(quality, limit, l)
    {
      EndedStream(jpeg, size);
      if l < k && EndsAt(quality, limit, l) {
        AttemptsFall(quality, l + 1, k);
        TooLargeHasEnd(NthQuality(quality, l), limit);
      }
    }

    lemma TooLargeHasEnd(q: int, limit: nat)
      requires TooLarge(q, limit)
      ensures !Fails(q)
    {
      var n: nat :| EndsAtEoi(compress(q).value, n) && n > limit;
      EndedStream(compress(q).value, n);
    }

    /** What `CompressThumbnailOnly` yields: the first stream that fits, cut behind its EOI, or nothing. */
    ghost predicate Made(quality: int, limit: nat, t: seq<byte>) {
      if t == [] then Hopeless(quality, limit)
      else exists jpeg: seq<byte> :: t <= jpeg && FirstFit(quality, limit, jpeg, |t|)
    }

    lemma MadeIsUnique(quality: int, limit: nat, t: seq<byte>, t': seq<byte>)
      requires Made(quality, limit, t) && Made(quality, limit, t')
      ensures t == t'
    {
      hide Encoder.FirstFit, Encoder.Hopeless;
      if t != [] {
        var jpeg: seq<byte> :| t <= jpeg && FirstFit(quality, limit, jpeg, |t|);
        FitOrHopeless(quality, limit, jpeg, |t|);
      } else if t' != [] {
        var jpeg: seq<byte> :| t' <= jpeg && FirstFit(quality, limit, jpeg, |t'|);
        FitOrHopeless(quality, limit, jpeg, |t'|);
      }
    }

    /**
     Lowers the quality until the thumbnail fits `limit`: what is returned was made at the first quality
     that is low enough. 0 means that there is none.
     */
    method CompressThumbnailOnly(limit: nat, quality: int) returns (size: nat)
      modifies this`thumbJpeg
      ensures size <= limit && size <= |thumbJpeg|
      ensures size == 0 <==> Hopeless(quality, limit)
      ensures size > 0 ==> FirstFit(quality, limit, thumbJpeg, size)
      ensures Made(quality, limit, thumbJpeg[..size])
    {
      hide EndsAtEoi, Encoder.FirstFit;
      var q := quality;
      var first := true;
      ghost var k: nat := 0;
      while first || q >= 20
        invariant first == (k == 0) && q == NthQuality(quality, k)
        invariant forall j: nat :: j < k ==> TooLarge(NthQuality(quality, j), limit)
        invariant k > 0 ==> Attempt(quality, k - 1)
        decreases first, q
      {
        assert Attempt(quality, k);
        first := false;
        var r := compress(q);
        if r.None? {
          assert EndsAt(quality, limit, k);
          return 0;
        }
        thumbJpeg := r.value;
        size := RemoveTrailingDummies(thumbJpeg);
        if size > limit {
          assert TooLarge(q, limit);
          q := Min(50, q - 10);
          k := k + 1;
        } else {
          if size == 0 {
            assert EndsAt(quality, limit, k);
          } else {
            assert FirstFit(quality, limit, thumbJpeg, size) by {
              FitFound(quality, limit, thumbJpeg, size, k);
            }
            FitOrHopeless(quality, limit, thumbJpeg, size);
          }
          return;
        }
      }
      assert EndsAt(quality, limit, k - 1);
      return 0;
    }

    lemma FitFound(quality: int, limit: nat, jpeg: seq<byte>, size: nat, k: nat)
      requires Attempt(quality, k) && compress(NthQuality(quality, k)) == Some(jpeg) && EndsAtEoi(jpeg, size) && size <= limit
      requires forall j: nat :: j < k ==> TooLarge(NthQuality(quality, j), limit)
      ensures FirstFit(quality, limit, jpeg, size)
    {
      hide EndsAtEoi, Encoder.TooLarge;
    }

    // -------------------------------------------------------------- room for the segments

    /** The attributes speak of the images that are to be compressed. */
    predicate SizesAgree(exif: Option<Attributes>, width: u32, height: u32, thumbWidth: u32, thumbHeight: u32) {
      exif.Some? ==>
        && exif.value.width == width && exif.value.height == height
        && (exif.value.enableThumb ==> exif.value.widthThumb == thumbWidth && exif.value.heightThumb == thumbHeight)
    }

    /** The segments without a thumbnail, the last stream's APP11 and the least main stream leave something over. */
    predicate EnoughRoom(exif: Option<Attributes>, extra: Option<seq<AppInfo>>)
      reads writer`szApp11
    {
      buf.Length > App1Size(exif, false) + ExtraSize(if extra.Some? then extra.value else []) + writer.szApp11 + NECESSARY_LENGTH
    }

    /** Space for a thumbnail is kept free in front of the main stream. */
    predicate Reserves(exif: Option<Attributes>) {
      exif.Some? && exif.value.enableThumb && buf.Length >= MAX_SEGMENT_SIZE * 10
    }

    /**
     The buffer's length that is asked for: 591 bytes more than the segments, where APP11 counts as long as it was the
     last time; and the length from which on space for a thumbnail is kept free.
     */
    lemma RoomNeeded(exif: Option<Attributes>, extra: Option<seq<AppInfo>>)
      ensures EnoughRoom(exif, extra)
              <==> buf.Length > 591 + writer.szApp11 + (if exif.Some? then 2 + App1Length(exif.value) else 0)
                                + (if extra.Some? then ExtraSize(extra.value) else 0)
      ensures Reserves(exif) <==> exif.Some? && exif.value.enableThumb && buf.Length >= 655350
    {
    }

    function App1Size(exif: Option<Attributes>, reserve: bool): nat {
      if exif.None? then 0 else MARKER_SIZE + if reserve then MAX_SEGMENT_SIZE else App1Length(exif.value)
    }

    /** What lies in front of the main stream, but for the SOI of the whole: its offset in the buffer. */
    function HeaderSize(exif: Option<Attributes>, extra: Option<seq<AppInfo>>): nat {
      var front := App1Size(exif, Reserves(exif)) + ExtraSize(if extra.Some? then extra.value else []);
      front + if exif.None? && extra.None? then 0
              else MARKER_SIZE + LENFIELD_SIZE + writer.Padding(MARKER_SIZE + front, align) + MARKER_SIZE
    }

    lemma WrittenSize()
      requires writer.Prepared()
      ensures |writer.WrittenApp1(Reserves(writer.exif))| == App1Size(writer.exif, Reserves(writer.exif))
    {
      hide ZerothFields, DirSize, Acceptable;
    }

    lemma HeaderIs()
      requires writer.Prepared() && writer.appBase == MARKER_SIZE
      ensures |writer.Header(Reserves(writer.exif), MARKER_SIZE, align, hwfc)| == HeaderSize(writer.exif, writer.extra)
    {
      hide ExtraSize, ExtrasImage, AppMarkerWriter.Prepared, AppMarkerWriter.WrittenApp1, Encoder.App1Size, AppMarkerWriter.Padding;
      WrittenSize();
      NoExtras(hwfc);
      NoSegments();
    }

    lemma NoSegments()
      ensures writer.exif.None? ==> App1Size(writer.exif, Reserves(writer.exif)) == 0
    {
    }

    /** Bytes are stored as far as the length field of APP11; its padding and the place of the main SOI are left alone. */
    lemma StoredIff(end: nat)
      requires writer.Prepared() && writer.appBase == MARKER_SIZE && (writer.exif.Some? || writer.extra.Some?)
      ensures var front := MARKER_SIZE + App1Size(writer.exif, Reserves(writer.exif)) + ExtraSize(writer.Extras());
              StoresBehind(writer.Header(Reserves(writer.exif), MARKER_SIZE, align, hwfc), MARKER_SIZE, end)
              <==> MARKER_SIZE + HeaderSize(writer.exif, writer.extra) - writer.Padding(front, align) - MARKER_SIZE > end
    {
      hide AppMarkerWriter.Prepared, AppMarkerWriter.WrittenApp1, ExtrasImage, AppMarkerWriter.Padding, ExtraSize, App1Length;
      hide Encoder.App1Size;
      HeaderIs();
      WrittenSize();
      var a := writer.WrittenApp1(Reserves(writer.exif)) + ExtrasImage(writer.Extras(), hwfc);
      var h := writer.Header(Reserves(writer.exif), MARKER_SIZE, align, hwfc);
      var p := writer.Padding(MARKER_SIZE + |a|, align);
      var b := App11Image(p + MARKER_SIZE + LENFIELD_SIZE);
      assert h == a + b && |h| == HeaderSize(writer.exif, writer.extra);
      assert h[|a| + 3] == b[3] && b[3].Put?;
      forall i | |a| + 4 <= i < |h|
        ensures h[i] == Keep
      {
        assert h[i] == b[i - |a|];
      }
    }

    /**
     The check of the buffer's length is made without the reserved space: the segments and the main stream's SOI
     fit if there is none to be reserved, and otherwise if and only if the buffer holds a whole APP1 segment and
     what comes behind it.
     */
    lemma RoomIff(exif: Option<Attributes>, extra: Option<seq<AppInfo>>)
      requires EnoughRoom(exif, extra)
      ensures !Reserves(exif) || extra.None? ==> MARKER_SIZE + HeaderSize(exif, extra) <= buf.Length
      ensures Reserves(exif) ==>
                var front := MARKER_SIZE + MARKER_SIZE + MAX_SEGMENT_SIZE + ExtraSize(if extra.Some? then extra.value else []);
                MARKER_SIZE + HeaderSize(exif, extra) <= buf.Length
                <==> front + MARKER_SIZE + LENFIELD_SIZE + writer.Padding(front, align) + MARKER_SIZE <= buf.Length
    {
      hide ExtraSize, App1Length, AppMarkerWriter.Padding;
      NoExtras(hwfc);
    }

    /** Fifteen extra segments of the greatest size and a thumbnail: the check passes, and the segments do not fit. */
    lemma CheckedButTooSmall(e: Attributes, infos: seq<AppInfo>)
      requires e.enableThumb && App1Length(e) <= 6000 && buf.Length == 990_000 && writer.szApp11 == 0
      requires |infos| == 15 && forall i :: 0 <= i < 15 ==> |infos[i].data| == MAX_SEGMENT_SIZE - LENFIELD_SIZE
      ensures EnoughRoom(Some(e), Some(infos)) && MARKER_SIZE + HeaderSize(Some(e), Some(infos)) > buf.Length
    {
      hide App1Length, AppMarkerWriter.Padding;
      EqualExtras(infos, MAX_SEGMENT_SIZE - LENFIELD_SIZE);
    }

    /** Prepares the segments and writes them, if the sizes agree and the buffer passes for large enough. */
    method ProcessExif(exif: Option<Attributes>, extra: Option<seq<AppInfo>>, width: u32, height: u32,
                       thumbWidth: u32, thumbHeight: u32) returns (ok: bool)
      requires writer.buf == buf && buf.Length < 0x8000_0000 && streamSize == buf.Length
      requires Acceptable(exif, extra)
      requires SizesAgree(exif, width, height, thumbWidth, thumbHeight) && EnoughRoom(exif, extra) ==>
                 MARKER_SIZE + HeaderSize(exif, extra) <= buf.Length
      modifies this`reserved, writer, buf
      ensures ok <==> SizesAgree(exif, width, height, thumbWidth, thumbHeight) && old(EnoughRoom(exif, extra))
      ensures ok ==> Laid() && Open() && writer.exif == exif && writer.extra == extra
      ensures ok ==> Matches(buf[..], MARKER_SIZE, writer.WrittenApp1(reserved)) && Matches(buf[..], writer.app1End, Tail())
      ensures ok ==> writer.mainBase == HeaderSize(exif, extra)
      ensures ok ==> reserved == Reserves(exif)
    {
      hide ZerothFields, DirSize, ExtraSize, Stamp, Matches, AppMarkerWriter.WrittenApp1, Acceptable, AppMarkerWriter.Padding;
      hide AppMarkerWriter.Header, Encoder.Tail, Encoder.Laid, Encoder.Open, Encoder.HeaderSize, App1Length;
      if exif.Some? {
        if exif.value.width != width || exif.value.height != height {
          return false;
        }
        if exif.value.enableThumb {
          if exif.value.widthThumb != thumbWidth || exif.value.heightThumb != thumbHeight {
            return false;
          }
        }
      }
      writer.PrepareAppWriter(MARKER_SIZE, exif, extra);
      var appSize := MeasuredSize();
      if streamSize <= appSize + NECESSARY_LENGTH {
        return false;
      }
      var reserve := true;
      if exif.None? || !exif.value.enableThumb || streamSize < MAX_SEGMENT_SIZE * 10 {
        reserve := false;
      }
      HeaderIs();
      WriteSegments(reserve);
      return true;
    }

    /** `CalculateAPPSize(0)` before anything is written; APP11 still has the length that it had last. */
    method MeasuredSize() returns (size: nat)
      requires writer.Prepared() && writer.app1End == 0
      ensures size == App1Size(writer.exif, false) + ExtraSize(writer.Extras()) + writer.szApp11
    {
      hide ZerothFields, DirSize, ExtraSize, Acceptable;
      size := writer.CalculateAPPSize(0);
    }

    method WriteSegments(reserve: bool)
      requires writer.Prepared() && writer.appBase == MARKER_SIZE && writer.buf == buf && buf.Length < 0x8000_0000
      requires reserve ==> writer.exif.Some? && writer.exif.value.enableThumb
      requires MARKER_SIZE + |writer.Header(reserve, MARKER_SIZE, align, hwfc)| <= buf.Length
      modifies this`reserved, writer`app1End, writer`szApp11, writer`mainBase, writer`thumbSizePlaceholder, buf
      ensures reserved == reserve && Laid() && Open()
      ensures writer.mainBase == |writer.Header(reserve, MARKER_SIZE, align, hwfc)|
      ensures Matches(buf[..], MARKER_SIZE, writer.WrittenApp1(reserved)) && Matches(buf[..], writer.app1End, Tail())
    {
      hide ExtraSize, Stamp, Matches, AppMarkerWriter.WrittenApp1, AppMarkerWriter.Prepared, Encoder.Tail;
      hide AppMarkerWriter.Header, AppMarkerWriter.Extras, FirstOffset;
      reserved := reserve;
      ghost var mem, header := buf[..], writer.Header(reserve, MARKER_SIZE, align, hwfc);
      writer.Write(reserve, MARKER_SIZE, align, hwfc);
      StampMatches(mem, MARKER_SIZE, header);
      HeaderParts(buf[..]);
    }

    lemma HeaderParts(mem: seq<byte>)
      requires writer.appBase == MARKER_SIZE && writer.app1End == MARKER_SIZE + |writer.WrittenApp1(reserved)|
      requires Matches(mem, MARKER_SIZE, writer.Header(reserved, MARKER_SIZE, align, hwfc))
      ensures Matches(mem, MARKER_SIZE, writer.WrittenApp1(reserved)) && Matches(mem, writer.app1End, Tail())
      ensures |writer.Header(reserved, MARKER_SIZE, align, hwfc)| == |writer.WrittenApp1(reserved)| + |Tail()|
    {
      hide Matches, ExtrasImage, AppMarkerWriter.WrittenApp1, AppMarkerWriter.WrittenApp11;
      var a, b := writer.WrittenApp1(reserved), ExtrasImage(writer.Extras(), hwfc);
      var c := writer.WrittenApp11(writer.appBase + |a + b|, MARKER_SIZE, align);
      MatchesConcat(mem, MARKER_SIZE, a + b, c);
      MatchesConcat(mem, MARKER_SIZE, a, b);
      MatchesConcat(mem, writer.app1End, b, c);
    }

    /** The hardware gets a stream address aligned as it demands. */
    lemma MainAligned()
      requires Laid() && !(writer.exif.None? && writer.extra.None?)
      ensures (writer.address + writer.mainBase) % align == 0
    {
      hide ExtrasImage, ExtraSize, AppMarkerWriter.Prepared;
      var p := writer.Padding(writer.app1End + ExtraSize(writer.Extras()), align);
      assert writer.mainBase == writer.app1End + ExtraSize(writer.Extras()) + 4 + p;
    }

    // -------------------------------------------------------------- layout of the final stream

    /** The extra APPn segments and APP11, where `Write` placed them. */
    ghost function Tail(): (img: Image)
      reads this`hwfc, writer`exif, writer`extra, writer`app1End
    {
      ExtrasImage(writer.Extras(), hwfc)
      + writer.WrittenApp11(writer.app1End + ExtraSize(writer.Extras()), MARKER_SIZE, align)
    }

    /** APP1 with the thumbnail `t` in it; reserved space behind the thumbnail is zero. */
    ghost function FinalApp1(t: seq<byte>): (img: Image)
      requires reserved ==> |t| <= writer.maxThumbSize + OEM_RESERVED
      reads this`reserved, writer`exif, writer`szApp1, writer`maxThumbSize
    {
      match writer.exif
      case None => []
      case Some(e) =>
        if !e.enableThumb then App1Image(e, writer.szApp1, 0)
        else if reserved then
          App1Image(e, writer.szApp1 + writer.maxThumbSize + OEM_RESERVED, |t|) + Lit(t)
          + Lit(Zeros(writer.maxThumbSize + OEM_RESERVED - |t|))
        else App1Image(e, writer.szApp1 + |t|, |t|) + Lit(t)
    }

    /** Where `Write` has put things. */
    ghost predicate Laid()
      reads this`hwfc, this`reserved
      reads writer`exif, writer`extra, writer`szApp1, writer`szApp11, writer`maxThumbSize, writer`thumbBase
      reads writer`appBase, writer`app1End, writer`mainBase
      reads writer`n0thIFDFields, writer`n1stIFDFields, writer`nExifIFDFields, writer`nGPSIFDFields
    {
      && writer.buf == buf && writer.appBase == MARKER_SIZE && writer.Prepared()
      && (reserved ==> writer.exif.Some? && writer.exif.value.enableThumb)
      && writer.app1End == MARKER_SIZE + |writer.WrittenApp1(reserved)|
      && writer.mainBase + MARKER_SIZE == writer.app1End + |Tail()|
      && writer.szApp11 == writer.mainBase + MARKER_SIZE - writer.app1End - ExtraSize(writer.Extras())
    }

    /** Where the thumbnail's length is to be recorded. */
    ghost predicate Open()
      reads writer`exif, writer`thumbSizePlaceholder
    {
      writer.exif.Some? && writer.exif.value.enableThumb ==>
        writer.thumbSizePlaceholder == Some(MARKER_SIZE + TIFF_BASE + FirstOffset(writer.exif.value) + PLACEHOLDER)
    }

    /** After `Write` and the compression of the main image, whose stream is `main`. */
    ghost predicate Compressed(main: seq<byte>)
      reads this`hwfc, this`reserved, writer, buf
    {
      && Laid() && Open() && buf.Length < 0x8000_0000
      && HardwareStream(main) && writer.mainBase + |main| <= buf.Length
      && Matches(buf[..], MARKER_SIZE, writer.WrittenApp1(reserved))
      && Matches(buf[..], writer.app1End, Tail())
      && buf[writer.mainBase..writer.mainBase + |main|] == main
    }

    /** The finished stream: SOI, the segments with the thumbnail `t`, and the main stream behind its own SOI. */
    ghost predicate Assembled(main: seq<byte>, t: seq<byte>, n: nat, size: int)
      requires reserved ==> |t| <= writer.maxThumbSize + OEM_RESERVED
      reads this`hwfc, this`reserved, writer, buf
    {
      && EndsAtEoi(main, n)
      && size == MARKER_SIZE + |FinalApp1(t)| + |Tail()| + n - 2 <= buf.Length
      && buf[0] == 0xFF && buf[1] == 0xD8
      && Matches(buf[..], MARKER_SIZE, FinalApp1(t))
      && Matches(buf[..], MARKER_SIZE + |FinalApp1(t)|, Tail() + Lit(main[2..n]))
    }

    /** The last two bytes of the segments, if there are any, are dummy bytes of APP11. */
    lemma SegmentsEndBlank()
      ensures var tail := Tail();
              if writer.exif.None? && writer.extra.None? then tail == writer.WrittenApp1(reserved) == []
              else |tail| >= 2 && tail[|tail| - 1] == Keep && tail[|tail| - 2] == Keep
    {
      hide ExtrasImage, ExtraSize, AppMarkerWriter.Padding;
      var x := ExtrasImage(writer.Extras(), hwfc);
      var current := writer.app1End + ExtraSize(writer.Extras());
      var p := writer.Padding(current, align);
      if writer.exif.None? && writer.extra.None? {
        NoExtras(hwfc);
      } else {
        var y := App11Image(p + MARKER_SIZE + LENFIELD_SIZE);
        assert y[|y| - 1] == Keep && y[|y| - 2] == Keep;
        assert Tail() == x + y;
      }
    }

    /** Where things lie around a thumbnail. */
    lemma Geometry(e: Attributes)
      requires Laid() && writer.exif == Some(e) && e.enableThumb
      ensures writer.buf == buf && writer.appBase == MARKER_SIZE && writer.mainBase + MARKER_SIZE == writer.app1End + |Tail()|
      ensures writer.thumbBase == Some(MARKER_SIZE + MARKER_SIZE + App1Length(e))
      ensures writer.app1End == writer.thumbBase.value + if reserved then writer.maxThumbSize + OEM_RESERVED else 0
      ensures MARKER_SIZE + TIFF_BASE + FirstOffset(e) + PLACEHOLDER + 4 <= writer.thumbBase.value
      ensures writer.szApp1 + writer.maxThumbSize + OEM_RESERVED == MAX_SEGMENT_SIZE
    {
      hide ZerothFields, DirSize, Encoder.Tail;
    }

    /** Clears the SOI of the main stream, which lies in the dummy bytes of APP11. */
    method ClearMainSoi(ghost main: seq<byte>, ghost n: nat)
      requires Compressed(main) && 2 <= n <= |main|
      modifies buf
      ensures Matches(buf[..], MARKER_SIZE, writer.WrittenApp1(reserved))
      ensures Matches(buf[..], writer.app1End, Tail() + Lit(main[2..n]))
    {
      hide AppMarkerWriter.WrittenApp1, AppMarkerWriter.Prepared, Stamp, Lit, HardwareStream, Matches, Encoder.Tail, FirstOffset;
      SegmentsEndBlank();
      ClearedFront(buf[..], writer.mainBase, MARKER_SIZE, writer.WrittenApp1(reserved), Tail(), main, n);
      Store(buf, writer.mainBase, [0, 0]);
    }

    /** Makes room for `len` bytes behind IFD1 by moving everything after it, and announces them. */
    method MakeRoom(len: nat, n: nat, e: Attributes, ghost rest: Image)
      requires Laid() && !reserved && writer.exif == Some(e) && e.enableThumb && len <= writer.maxThumbSize
      requires |rest| == n + writer.mainBase - writer.app1End && writer.mainBase + n + len <= buf.Length
      requires Matches(buf[..], MARKER_SIZE, App1Image(e, writer.szApp1, 0))
      requires Matches(buf[..], writer.app1End, rest)
      modifies buf
      ensures Matches(buf[..], MARKER_SIZE, App1Image(e, writer.szApp1 + len, 0))
      ensures Matches(buf[..], writer.app1End + len, rest)
    {
      hide Encoder.Laid, Stamp, Lit, Matches, Encoder.Tail, FirstOffset, App1Image, App1Length, Be16;
      ghost var mem, app1 := buf[..], App1Image(e, writer.szApp1, 0);
      Geometry(e);
      var end, count := writer.app1End, n + writer.mainBase - writer.app1End;
      Store(buf, end + len, buf[end..end + count]);
      MatchesBlockMoved(mem, end, rest, end + len);
      MatchesApart(mem, MARKER_SIZE, app1, end + len, mem[end..end + count]);
      ghost var moved := buf[..];
      LengthPatched(moved, MARKER_SIZE, e, writer.szApp1, writer.szApp1 + len, 0);
      writer.UpdateApp1Size(len);
      MatchesApart(moved, end + len, rest, MARKER_SIZE + MARKER_SIZE, Be16(U16(writer.szApp1 + len)));
    }

    /** Copies the thumbnail behind IFD1 and records its length there. */
    method PlaceThumbnail(t: seq<byte>, e: Attributes, ghost length: nat, ghost rest: Image, ghost at: nat)
      requires Laid() && Open() && writer.exif == Some(e) && e.enableThumb && t != []
      requires Matches(buf[..], MARKER_SIZE, App1Image(e, length, 0))
      requires writer.thumbBase.value + |t| <= at && Matches(buf[..], at, rest)
      modifies buf, writer`thumbSizePlaceholder
      ensures Matches(buf[..], MARKER_SIZE, App1Image(e, length, |t|))
      ensures Matches(buf[..], writer.thumbBase.value, Lit(t))
      ensures Matches(buf[..], at, rest)
    {
      hide AppMarkerWriter.Extras, Stamp, Lit, Matches, Encoder.Tail, FirstOffset, App1Image, Le32;
      Geometry(e);
      Fits(buf[..], at, rest);
      var base, mem := writer.thumbBase.value, buf[..];
      Store(buf, base, t);
      ghost var placed := buf[..];
      MatchesStamped(mem, base, t);
      MatchesApart(mem, MARKER_SIZE, App1Image(e, length, 0), base, t);
      MatchesApart(mem, at, rest, base, t);
      ThumbLengthPatched(placed, MARKER_SIZE, e, length, 0, |t|);
      ghost var p := writer.thumbSizePlaceholder.value;
      writer.Finalize(|t|);
      MatchesApart(placed, base, Lit(t), p, Le32(U32(|t|)));
      MatchesApart(placed, at, rest, p, Le32(U32(|t|)));
    }

    /** Zeroes the reserved space behind a thumbnail of `len` bytes. */
    method ClearReserved(t: seq<byte>, e: Attributes, ghost length: nat, ghost rest: Image)
      requires Laid() && reserved && writer.exif == Some(e) && e.enableThumb && |t| <= writer.maxThumbSize
      requires Matches(buf[..], MARKER_SIZE, App1Image(e, length, |t|))
      requires Matches(buf[..], writer.thumbBase.value, Lit(t))
      requires Matches(buf[..], writer.app1End, rest)
      modifies buf
      ensures Matches(buf[..], MARKER_SIZE,
                      App1Image(e, length, |t|) + Lit(t) + Lit(Zeros(writer.maxThumbSize + OEM_RESERVED - |t|)))
      ensures Matches(buf[..], writer.app1End, rest)
    {
      hide AppMarkerWriter.Extras, Stamp, Lit, Matches, Encoder.Tail, FirstOffset, App1Image, Zeros;
      Geometry(e);
      Fits(buf[..], writer.app1End, rest);
      var base, mem := writer.thumbBase.value, buf[..];
      var zeros := seq(writer.maxThumbSize - |t| + OEM_RESERVED, _ => 0);
      ZerosIs(zeros);
      Store(buf, base + |t|, zeros);
      MatchesApart(mem, MARKER_SIZE, App1Image(e, length, |t|), base + |t|, zeros);
      MatchesApart(mem, base, Lit(t), base + |t|, zeros);
      MatchesApart(mem, writer.app1End, rest, base + |t|, zeros);
      MatchesStamped(mem, base + |t|, zeros);
      MatchesConcat(buf[..], MARKER_SIZE, App1Image(e, length, |t|), Lit(t));
      MatchesConcat(buf[..], MARKER_SIZE, App1Image(e, length, |t|) + Lit(t), Lit(zeros));
    }

    /** `CalculateAPPSize(0)` is the offset of the main stream. */
    lemma AppSizeIsOffset()
      requires Laid()
      ensures writer.IsThumbSpaceReserved() == reserved
      ensures (if writer.szApp1 > 0 then writer.szApp1 + MARKER_SIZE else 0) + ExtraSize(writer.Extras())
              + (if reserved then writer.maxThumbSize + OEM_RESERVED else 0) + writer.szApp11 == writer.mainBase
    {
      hide ZerothFields, DirSize, Encoder.Tail;
    }

    /** Without a thumbnail the segments' sizes add up to the offset of the main stream. */
    method AppSize() returns (size: nat)
      requires Laid()
      ensures size == writer.mainBase
    {
      hide ExtraSize, Encoder.Laid, AppMarkerWriter.IsThumbSpaceReserved;
      AppSizeIsOffset();
      size := writer.CalculateAPPSize(0);
    }

    /** The longest thumbnail that fits segment and buffer. */
    function Room(n: nat, max: nat): nat
      requires writer.mainBase + n <= max
      reads writer`mainBase, writer`maxThumbSize
    {
      Min(writer.maxThumbSize, max - writer.mainBase - n)
    }

    /** A thumbnail fits exactly if APP1 can hold it and everything together ends in the buffer. */
    lemma FitsRoom(n: nat, max: nat, length: nat)
      requires writer.mainBase + n <= max
      ensures length <= Room(n, max) <==> length <= writer.maxThumbSize && writer.mainBase + n + length <= max
    {
    }

    /** The length of a thumbnail that fits segment and buffer; a larger one is compressed again. */
    method FitThumbnail(n: nat, thumblen: nat, max: nat) returns (ok: bool, len: nat)
      requires Laid() && max < 0x8000_0000 && writer.mainBase + n <= max && thumblen <= |thumbJpeg|
      modifies this`thumbJpeg
      ensures ok ==> len <= Room(n, max) && len <= |thumbJpeg|
      ensures if thumblen <= Room(n, max) then ok && len == thumblen && thumbJpeg == old(thumbJpeg)
              else (ok <==> !Hopeless(50, Room(n, max))) && (ok ==> len > 0 && Made(50, Room(n, max), thumbJpeg[..len]))
    {
      hide Encoder.Laid, EndsAtEoi, Encoder.Made, Encoder.FirstFit, Encoder.Hopeless;
      len := thumblen;
      var appSize := AppSize();
      var maxThumb := Min(writer.maxThumbSize, U64(max - appSize - n));
      if len > maxThumb {
        len := CompressThumbnailOnly(maxThumb, 50);
        if len == 0 {
          return false, 0;
        }
      }
      return true, len;
    }

    /** Without reserved space the thumbnail goes between IFD1 and what followed it. */
    method EmbedSpliced(t: seq<byte>, n: nat, e: Attributes, ghost rest: Image)
      requires Laid() && Open() && !reserved && writer.exif == Some(e) && e.enableThumb && |t| <= writer.maxThumbSize
      requires |rest| == n + writer.mainBase - writer.app1End && writer.mainBase + n + |t| <= buf.Length
      requires Matches(buf[..], MARKER_SIZE, App1Image(e, writer.szApp1, 0))
      requires Matches(buf[..], writer.app1End, rest)
      modifies buf, writer`thumbSizePlaceholder
      ensures Matches(buf[..], MARKER_SIZE, App1Image(e, writer.szApp1 + |t|, |t|) + Lit(t))
      ensures Matches(buf[..], writer.app1End + |t|, rest)
    {
      hide Encoder.Laid, Encoder.Open, Stamp, Lit, Matches, Encoder.Tail, FirstOffset, App1Image, App1Length;
      Geometry(e);
      MakeRoom(|t|, n, e, rest);
      ghost var length := writer.szApp1 + |t|;
      Fits(buf[..], writer.app1End + |t|, rest);
      if t != [] {
        PlaceThumbnail(t, e, length, rest, writer.app1End + |t|);
      } else {
        MatchesNothing(buf[..], writer.thumbBase.value);
      }
      MatchesConcat(buf[..], MARKER_SIZE, App1Image(e, length, |t|), Lit(t));
    }

    /** With reserved space nothing moves, and what the thumbnail does not fill is cleared. */
    method EmbedReserved(t: seq<byte>, e: Attributes, ghost length: nat, ghost rest: Image)
      requires Laid() && Open() && reserved && writer.exif == Some(e) && e.enableThumb && |t| <= writer.maxThumbSize
      requires Matches(buf[..], MARKER_SIZE, App1Image(e, length, 0))
      requires Matches(buf[..], writer.app1End, rest)
      modifies buf, writer`thumbSizePlaceholder
      ensures Matches(buf[..], MARKER_SIZE,
                      App1Image(e, length, |t|) + Lit(t) + Lit(Zeros(writer.maxThumbSize + OEM_RESERVED - |t|)))
      ensures Matches(buf[..], writer.app1End, rest)
    {
      hide Encoder.Laid, Stamp, Lit, Matches, Encoder.Tail, FirstOffset, App1Image, ExtraSize, Zeros;
      Geometry(e);
      if |t| > 0 {
        PlaceThumbnail(t, e, length, rest, writer.app1End);
      } else {
        Fits(buf[..], writer.app1End, rest);
        MatchesNothing(buf[..], writer.thumbBase.value);
      }
      ClearReserved(t, e, length, rest);
    }

    /** Embeds the thumbnail, compressing it again if it is too large; `t` is what was embedded. */
    method EmbedThumbnail(n: nat, thumblen: nat, max: nat, ghost main: seq<byte>) returns (ok: bool, t: seq<byte>)
      requires Laid() && Open() && writer.exif.Some? && writer.exif.value.enableThumb && max == buf.Length < 0x8000_0000
      requires 2 <= n <= |main| && writer.mainBase + |main| <= buf.Length && thumblen <= |thumbJpeg|
      requires Matches(buf[..], MARKER_SIZE, writer.WrittenApp1(reserved))
      requires Matches(buf[..], writer.app1End, Tail() + Lit(main[2..n]))
      modifies buf, this`thumbJpeg, writer`thumbSizePlaceholder
      ensures ok ==> |t| <= Room(n, max) && |t| <= |thumbJpeg| && t == thumbJpeg[..|t|]
      ensures if thumblen <= Room(n, max) then ok && t == old(thumbJpeg[..thumblen])
              else (ok <==> !Hopeless(50, Room(n, max))) && (ok ==> t != [] && Made(50, Room(n, max), t))
      ensures ok ==> Matches(buf[..], MARKER_SIZE, FinalApp1(t))
      ensures ok ==> Matches(buf[..], MARKER_SIZE + |FinalApp1(t)|, Tail() + Lit(main[2..n]))
    {
      hide Encoder.Laid, Stamp, Lit, Matches, Encoder.Tail, FirstOffset, App1Image, Zeros, ExtraSize;
      hide Encoder.Made, Encoder.Hopeless;
      var e := writer.exif.value;
      Geometry(e);
      AppSizeIsOffset();
      t := [];
      var len;
      ok, len := FitThumbnail(n, thumblen, max);
      if !ok {
        return;
      }
      t := thumbJpeg[..len];
      ghost var space := if reserved then writer.maxThumbSize + OEM_RESERVED else 0;
      FitsWithout(buf[..], MARKER_SIZE, App1Image(e, writer.szApp1 + space, 0), space);
      if !writer.IsThumbSpaceReserved() {
        if max < writer.mainBase + n + len - MARKER_SIZE {
          return false, t;
        }
        EmbedSpliced(t, n, e, Tail() + Lit(main[2..n]));
      } else {
        EmbedReserved(t, e, writer.szApp1 + space, Tail() + Lit(main[2..n]));
      }
    }

    /** The thumbnail stream as it first comes, if its thread can be joined; `was` is the back-to-back stream. */
    ghost predicate Comes(mode: ThumbMode, was: seq<byte>, thumblen: nat, t: seq<byte>)
      reads this`thumbQuality, writer`maxThumbSize
    {
      match mode
      case Worker(_, generated) => if generated then Made(thumbQuality, writer.maxThumbSize, t) else t == []
      case SeparatePass => Made(thumbQuality, writer.maxThumbSize, t)
      case BackToBack => thumblen <= |was| && t == was[..thumblen]
    }

    method FirstThumbnail(mode: ThumbMode, thumblen: nat) returns (ok: bool, len: nat)
      requires mode.BackToBack? ==> thumblen <= |thumbJpeg|
      modifies this`thumbJpeg
      ensures ok == mode.Joined() && len <= |thumbJpeg|
      ensures ok ==> Comes(mode, old(thumbJpeg), thumblen, thumbJpeg[..len])
    {
      hide Encoder.Made, Encoder.Hopeless, Encoder.FirstFit;
      match mode
      case Worker(joined, generated) =>
        if !joined {
          return false, 0;
        }
        len := 0;
        if generated {
          len := CompressThumbnailOnly(writer.maxThumbSize, thumbQuality);
        }
        return true, len;
      case SeparatePass =>
        len := CompressThumbnailOnly(writer.maxThumbSize, thumbQuality);
        return true, len;
      case BackToBack =>
        return true, thumblen;
    }

    lemma FinalSize(t: seq<byte>)
      requires Laid() && |t| <= writer.maxThumbSize
      requires writer.thumbBase.None? ==> t == []
      ensures |FinalApp1(t)| + |Tail()|
              == (if writer.szApp1 > 0 then writer.szApp1 + MARKER_SIZE else 0) + ExtraSize(writer.Extras())
                 + (if writer.IsThumbSpaceReserved() then writer.maxThumbSize + OEM_RESERVED
                    else Min(writer.maxThumbSize, |t|)) + writer.szApp11
    {
      hide ZerothFields, DirSize, Encoder.Tail, ExtraSize, Acceptable, ValidExtra;
      AppSizeIsOffset();
    }

    /** APP1 as it is when there is no thumbnail to embed. */
    lemma NoThumbnail(mem: seq<byte>)
      requires Laid() && writer.thumbBase.None? && Matches(mem, MARKER_SIZE, writer.WrittenApp1(reserved))
      ensures Matches(mem, MARKER_SIZE, FinalApp1([])) && MARKER_SIZE + |FinalApp1([])| == writer.app1End
    {
      hide Matches, App1Image, App1Length, ZerothFields;
      if writer.exif.Some? {
        FitsWithout(mem, MARKER_SIZE, App1Image(writer.exif.value, writer.szApp1, 0), 0);
      }
    }

    /** Accounts for everything in front of the main stream and puts the SOI in front of it all. */
    method Complete(thumb: seq<byte>, len: nat, ghost main: seq<byte>)
      requires Laid() && |thumb| <= writer.maxThumbSize && (writer.thumbBase.None? ==> thumb == [])
      requires EndsAtEoi(main, len) && streamSize == 0
      requires Matches(buf[..], MARKER_SIZE, FinalApp1(thumb))
      requires Matches(buf[..], MARKER_SIZE + |FinalApp1(thumb)|, Tail() + Lit(main[2..len]))
      modifies this`streamSize, buf
      ensures Assembled(main, thumb, len, streamSize)
    {
      hide Stamp, Lit, Matches, Encoder.Tail, Encoder.FinalApp1, Encoder.Laid, ExtraSize;
      FinalSize(thumb);
      var appSize := writer.CalculateAPPSize(|thumb|);
      streamSize := streamSize + appSize + len;
      ghost var mem, rest := buf[..], Tail() + Lit(main[2..len]);
      Fits(mem, MARKER_SIZE + |FinalApp1(thumb)|, rest);
      Store(buf, 0, [0xFF, 0xD8]);
      MatchesApart(mem, MARKER_SIZE, FinalApp1(thumb), 0, [0xFF, 0xD8]);
      MatchesApart(mem, MARKER_SIZE + |FinalApp1(thumb)|, rest, 0, [0xFF, 0xD8]);
      SoiStored(mem);
    }

    /**
     A negative size reports failure; otherwise `t` is the embedded thumbnail and `n` the trimmed main stream's length.
     The thumbnail that comes first is embedded if it fits, otherwise one made at a quality factor of 50 or less.
     */
    method FinishCompression(mainlen: nat, thumblen: nat, mode: ThumbMode, ghost main: seq<byte>)
      returns (size: int, ghost t: seq<byte>, ghost n: nat, ghost came: seq<byte>)
      requires Compressed(main) && mainlen == |main| && streamSize == buf.Length
      requires mode.BackToBack? ==> thumblen <= |thumbJpeg|
      modifies this`streamSize, this`thumbJpeg, buf, writer`thumbSizePlaceholder
      ensures |t| <= writer.maxThumbSize && (writer.thumbBase.None? ==> t == [])
      ensures EndsAtEoi(main, n)
      ensures size >= 0 ==> Assembled(main, t, n, size) && streamSize == size
      ensures size >= 0 ==> t <= thumbJpeg
      ensures size < 0 ==> size == -1 && writer.thumbBase.Some?
      ensures Outcome(mode, old(thumbJpeg), thumblen, n, size, t, came)
    {
      hide Stamp, Lit, Matches, Encoder.Tail, Encoder.FinalApp1, Encoder.Assembled, FirstOffset, ExtraSize;
      hide AppMarkerWriter.Prepared, AppMarkerWriter.WrittenApp1, Encoder.Made, Encoder.Hopeless, Encoder.Comes;
      t, came := [], [];
      var max, mainbase := streamSize, writer.mainBase;
      streamSize := 0;
      var len := RemoveTrailingDummies(buf[mainbase..mainbase + mainlen]);
      n := len;
      EoiIsFound(main);
      ClearMainSoi(main, len);
      var thumb := [];
      if writer.thumbBase.Some? {
        HasThumbnail();
        var ok, first := FirstThumbnail(mode, thumblen);
        if !ok {
          return -1, [], n, [];
        }
        came := thumbJpeg[..first];
        ok, thumb := EmbedThumbnail(len, first, max, main);
        if !ok {
          return -1, [], n, came;
        }
      } else {
        NoThumbnail(buf[..]);
      }
      t := thumb;
      Complete(thumb, len, main);
      size := streamSize;
    }

    /** Which thumbnail is embedded, and when there is a failure instead. */
    ghost predicate Outcome(mode: ThumbMode, was: seq<byte>, thumblen: nat, n: nat, size: int, t: seq<byte>, came: seq<byte>)
      reads this`thumbQuality, writer`maxThumbSize, writer`mainBase, writer`thumbBase
    {
      writer.mainBase + n <= buf.Length &&
      if writer.thumbBase.None? then size >= 0
      else if !mode.Joined() then size < 0
      else
        var room := Room(n, buf.Length);
        && Comes(mode, was, thumblen, came)
        && if |came| <= room then size >= 0 && t == came
           else if Hopeless(50, room) then size < 0
           else size >= 0 && t != [] && Made(50, room, t)
    }

    lemma HasThumbnail()
      requires Laid() && writer.thumbBase.Some?
      ensures writer.exif.Some? && writer.exif.value.enableThumb
    {
      hide ZerothFields, DirSize, Encoder.Tail;
    }
  }

  lemma {:induction false} EqualExtras(infos: seq<AppInfo>, n: nat)
    requires forall i :: 0 <= i < |infos| ==> |infos[i].data| == n
    ensures ExtraSize(infos) == |infos| * (n + MARKER_SIZE + LENFIELD_SIZE)
  {
    if infos != [] {
      EqualExtras(infos[1..], n);
    }
  }

  lemma EndedStream(s: seq<byte>, n: nat)
    requires EndsAtEoi(s, n)
    ensures exists i :: 0 < i && IsEoi(s, i)
  {
    assert IsEoi(s, n - 2);
  }

  /** A stream ends at one place only. */
  lemma OneEnd(s: seq<byte>)
    ensures forall m: nat, n: nat :: EndsAtEoi(s, m) && EndsAtEoi(s, n) ==> m == n
  {
  }

  lemma SoiStored(mem: seq<byte>)
    requires |mem| >= 2
    ensures Stamp(mem, 0, Lit([0xFF, 0xD8]))[0] == 0xFF && Stamp(mem, 0, Lit([0xFF, 0xD8]))[1] == 0xD8
  {
  }

  lemma EoiIsFound(s: seq<byte>)
    requires HardwareStream(s)
    ensures exists i :: 0 < i && IsEoi(s, i)
  {
    var i :| IsEoi(s, i);
  }

  lemma ZerosIs(s: seq<byte>)
    requires forall i :: 0 <= i < |s| ==> s[i] == 0
    ensures s == Zeros(|s|)
  {
  }

  lemma FitsWithout(mem: seq<byte>, at: nat, img: Image, space: nat)
    requires Matches(mem, at, img + Blank(space))
    ensures Matches(mem, at, img)
  {
    MatchesConcat(mem, at, img, Blank(space));
  }

  lemma MatchesNothing(mem: seq<byte>, at: nat)
    requires at <= |mem|
    ensures Matches(mem, at, Lit([]))
  {
  }

  lemma ClearedFront(mem: seq<byte>, p: nat, at: nat, app1: Image, tail: Image, main: seq<byte>, n: nat)
    requires Matches(mem, at, app1) && Matches(mem, at + |app1|, tail)
    requires p + 2 == at + |app1| + |tail|
    requires app1 == tail == [] || (|tail| >= 2 && tail[|tail| - 1] == Keep && tail[|tail| - 2] == Keep)
    requires 2 <= n <= |main| && p + |main| <= |mem| && mem[p..p + |main|] == main
    ensures Matches(Stamp(mem, p, Lit([0, 0])), at, app1)
    ensures Matches(Stamp(mem, p, Lit([0, 0])), at + |app1|, tail + Lit(main[2..n]))
  {
    MainAfterSoi(mem, p, main, n);
    var mem' := Stamp(mem, p, Lit([0, 0]));
    MatchesApart(mem, p + 2, Lit(main[2..n]), p, [0, 0]);
    TailKept(mem, p, at + |app1|, tail, [0, 0]);
    MatchesConcat(mem', at + |app1|, tail, Lit(main[2..n]));
  }

  /** The two bytes before the end of `tail` are dummies that may be overwritten. */
  lemma TailKept(mem: seq<byte>, p: nat, at: nat, tail: Image, data: seq<byte>)
    requires Matches(mem, at, tail) && p + 2 == at + |tail| && p + |data| <= |mem|
    requires tail == [] || (|tail| >= 2 && tail[|tail| - 1] == Keep && tail[|tail| - 2] == Keep)
    ensures Matches(Stamp(mem, p, Lit(data)), at, tail)
  {
  }

  lemma MainAfterSoi(mem: seq<byte>, p: nat, main: seq<byte>, n: nat)
    requires 2 <= n <= |main| && p + |main| <= |mem| && mem[p..p + |main|] == main
    ensures Matches(mem, p + 2, Lit(main[2..n]))
  {
    var img := Lit(main[2..n]);
    forall i | 0 <= i < |img|
      ensures mem[p + 2 + i] == img[i].b
    {
      assert mem[p..p + |main|][2 + i] == main[2 + i];
    }
  }

  ghost function Zeros(n: nat): (s: seq<byte>)
    ensures |s| == n
  {
    seq(n, _ => 0)
  }
}
