/** What a reader of the finished stream sees: the main image's frame, the Exif fields and the thumbnail. */
module EncodedStream {
  import opened Bytes
  import opened Tiff
  import opened Exif
  import opened ExifWriter
  import opened AppMarkers
  import opened App1Patch
  import opened ExifSegment
  import opened ExifReader
  import opened JpegParser
  import opened CameraEncoder

  lemma MatchesPrefix(mem: seq<byte>, at: nat, img: Image, k: nat)
    requires Matches(mem, at, img) && at + |img| <= k <= |mem|
    ensures Matches(mem[..k], at, img)
  {
  }

  lemma TwoBytes(mem: seq<byte>, at: nat, a: byte, b: byte)
    requires Matches(mem, at, Lit([a, b]))
    ensures at + 2 <= |mem| && mem[at] == a && mem[at + 1] == b
  {
    assert Lit([a, b])[0] == Put(a) && Lit([a, b])[1] == Put(b);
  }

  /** A parser steps over an application segment whose length field covers it. */
  lemma SegmentSkipped(s: seq<byte>, p: nat, marker: byte, length: u16)
    requires Matches(s, p, Lit([0xFF, marker])) && Matches(s, p + 2, Lit(Be16(length)))
    requires 0xE0 <= marker <= 0xEF && 2 <= length && p + 2 + length <= |s|
    ensures Scan(s, p) == Scan(s, p + 2 + length)
  {
    hide Matches, FrameAt;
    TwoBytes(s, p, 0xFF, marker);
    TwoBytes(s, p + 2, length / 0x100, length % 0x100);
    assert Skippable(s, p);
  }

  lemma App1Skipped(s: seq<byte>, p: nat, e: Attributes, length: u16, thumbLength: nat)
    requires Matches(s, p, App1Image(e, length, thumbLength)) && 2 <= length && p + 2 + length <= |s|
    ensures Scan(s, p) == Scan(s, p + 2 + length)
  {
    hide Matches, Scan, App1Image, DirImage, FirstImage, ZerothFields;
    App1Parts(s, p, e, length, thumbLength);
    SegmentSkipped(s, p, 0xE1, length);
  }

  lemma ExtraSkipped(s: seq<byte>, p: nat, info: AppInfo, reserveOnly: bool)
    requires info.Valid() && Matches(s, p, ExtraImage(info, reserveOnly))
    ensures p + MARKER_SIZE + LENFIELD_SIZE + |info.data| <= |s|
    ensures Scan(s, p) == Scan(s, p + MARKER_SIZE + LENFIELD_SIZE + |info.data|)
  {
    hide Matches, Scan;
    var m, l := Lit([0xFF, 0xE0 + info.appid % 16]), Lit(Be16(U16(|info.data| + LENFIELD_SIZE)));
    var d := if reserveOnly then Blank(|info.data|) else Lit(info.data);
    Fits(s, p, ExtraImage(info, reserveOnly));
    MatchesConcat(s, p, m + l, d);
    MatchesConcat(s, p, m, l);
    SegmentSkipped(s, p, 0xE0 + info.appid % 16, |info.data| + LENFIELD_SIZE);
  }

  lemma {:induction false} ExtrasSkipped(s: seq<byte>, p: nat, infos: seq<AppInfo>, reserveOnly: bool)
    requires ValidExtra(infos) && Matches(s, p, ExtrasImage(infos, reserveOnly))
    ensures Scan(s, p) == Scan(s, p + ExtraSize(infos))
    decreases |infos|
  {
    hide Matches, Scan, ExtraImage;
    if infos != [] {
      MatchesConcat(s, p, ExtraImage(infos[0], reserveOnly), ExtrasImage(infos[1..], reserveOnly));
      assert infos[0].Valid();
      ExtraSkipped(s, p, infos[0], reserveOnly);
      ExtrasSkipped(s, p + |ExtraImage(infos[0], reserveOnly)|, infos[1..], reserveOnly);
    }
  }

  lemma App11Skipped(s: seq<byte>, p: nat, length: nat)
    requires 2 <= length < 0x1_0000 && Matches(s, p, App11Image(length))
    ensures Scan(s, p) == Scan(s, p + MARKER_SIZE + length)
  {
    hide Matches, Scan;
    Fits(s, p, App11Image(length));
    MatchesConcat(s, p, Lit([0xFF, 0xEB]) + Lit(Be16(U16(length))), Blank(length - LENFIELD_SIZE));
    MatchesConcat(s, p, Lit([0xFF, 0xEB]), Lit(Be16(U16(length))));
    SegmentSkipped(s, p, 0xEB, length);
  }

  lemma TailSkipped(enc: Encoder, s: seq<byte>, p: nat)
    requires enc.Laid() && Matches(s, p, enc.Tail())
    ensures Scan(s, p) == Scan(s, p + |enc.Tail()|)
  {
    hide Matches, Scan, ExtrasImage, App11Image, ExtraSize, AppMarkerWriter.Padding, AppMarkerWriter.WrittenApp1;
    hide AppMarkerWriter.Measured;
    var w := enc.writer;
    var a, b := ExtrasImage(w.Extras(), enc.hwfc), w.WrittenApp11(w.app1End + ExtraSize(w.Extras()), MARKER_SIZE, enc.align);
    MatchesConcat(s, p, a, b);
    ExtrasSkipped(s, p, w.Extras(), enc.hwfc);
    if b != [] {
      App11Skipped(s, p + |a|, |b| - MARKER_SIZE);
    }
  }

  /** The length announced in APP1 of the finished stream. */
  ghost function FinalLength(enc: Encoder, t: seq<byte>): nat
    reads enc, enc.writer
  {
    if enc.reserved then enc.writer.szApp1 + enc.writer.maxThumbSize + OEM_RESERVED else enc.writer.szApp1 + |t|
  }

  /** APP1 of the finished stream: its announced length is exact and does not wrap. */
  lemma FinalApp1Is(enc: Encoder, mem: seq<byte>, t: seq<byte>)
    requires enc.Laid() && |t| <= enc.writer.maxThumbSize && enc.writer.exif.Some?
    requires Matches(mem, MARKER_SIZE, enc.FinalApp1(t))
    ensures Matches(mem, MARKER_SIZE, App1Image(enc.writer.exif.value, FinalLength(enc, t), |t|))
    ensures FinalLength(enc, t) <= MAX_SEGMENT_SIZE
    ensures |enc.FinalApp1(t)| == MARKER_SIZE + FinalLength(enc, t)
    ensures enc.writer.exif.value.enableThumb ==>
              Matches(mem, MARKER_SIZE + TIFF_BASE + FirstOffset(enc.writer.exif.value) + 78, Lit(t))
  {
    hide Matches, App1Image, ZerothFields, DirSize, Encoder.Tail, Zeros;
    var e, n := enc.writer.exif.value, FinalLength(enc, t);
    if e.enableThumb {
      if enc.reserved {
        MatchesConcat(mem, MARKER_SIZE, App1Image(e, n, |t|) + Lit(t), Lit(Zeros(enc.writer.maxThumbSize + OEM_RESERVED - |t|)));
      }
      MatchesConcat(mem, MARKER_SIZE, App1Image(e, n, |t|), Lit(t));
    }
  }

  /**
   The parser gives the finished stream the verdict, sides and sampling factors that it gives the
   main stream, whether the thumbnail was spliced in, put into reserved space, or absent.
   */
  lemma SameVerdict(enc: Encoder, main: seq<byte>, t: seq<byte>, n: nat, size: nat)
    requires enc.Laid() && |t| <= enc.writer.maxThumbSize
    requires HardwareStream(main) && enc.Assembled(main, t, n, size)
    ensures Verdict(enc.buf[..size]) == Verdict(main[..n])
  {
    hide Matches, Scan, Encoder.FinalApp1, Encoder.Tail, Encoder.Laid, IsEoi, FinalLength;
    var s, p := enc.buf[..size], MARKER_SIZE + |enc.FinalApp1(t)|;
    assert enc.buf[..][..size] == s;
    FinishedParts(enc, s, main, t, n, size);
    FrontSkipped(enc, s, t);
    TailSkipped(enc, s, p);
    MainBehind(s, p + |enc.Tail()|, main, n);
  }

  lemma FinishedParts(enc: Encoder, s: seq<byte>, main: seq<byte>, t: seq<byte>, n: nat, size: nat)
    requires enc.Laid() && |t| <= enc.writer.maxThumbSize
    requires enc.Assembled(main, t, n, size) && s == enc.buf[..][..size]
    ensures Matches(s, MARKER_SIZE, enc.FinalApp1(t)) && Matches(s, MARKER_SIZE + |enc.FinalApp1(t)|, enc.Tail())
    ensures Matches(s, MARKER_SIZE + |enc.FinalApp1(t)| + |enc.Tail()|, Lit(main[2..n]))
  {
    hide Matches, Encoder.FinalApp1, Encoder.Tail, Encoder.Laid, IsEoi;
    var p := MARKER_SIZE + |enc.FinalApp1(t)|;
    MatchesPrefix(enc.buf[..], MARKER_SIZE, enc.FinalApp1(t), size);
    MatchesPrefix(enc.buf[..], p, enc.Tail() + Lit(main[2..n]), size);
    MatchesConcat(s, p, enc.Tail(), Lit(main[2..n]));
  }

  lemma FrontSkipped(enc: Encoder, s: seq<byte>, t: seq<byte>)
    requires enc.Laid() && |t| <= enc.writer.maxThumbSize
    requires MARKER_SIZE + |enc.FinalApp1(t)| <= |s| && Matches(s, MARKER_SIZE, enc.FinalApp1(t))
    ensures Scan(s, MARKER_SIZE) == Scan(s, MARKER_SIZE + |enc.FinalApp1(t)|)
  {
    hide Matches, Scan, Encoder.FinalApp1, Encoder.Tail, Encoder.Laid, FinalLength, App1Image, FirstOffset, App1Length;
    if enc.writer.exif.Some? {
      FinalApp1Is(enc, s, t);
      AtLeastTwo(enc, t);
      App1Skipped(s, MARKER_SIZE, enc.writer.exif.value, FinalLength(enc, t), |t|);
    } else {
      NoApp1(enc, t);
    }
  }

  /** Where the segment ends at which the scan from `p` on stops. */
  ghost function StopEnd(s: seq<byte>, p: nat): nat
    decreases |s| - p
  {
    if Skippable(s, p) then StopEnd(s, Next(s, p))
    else if p + 4 <= |s| then Next(s, p) else |s|
  }

  lemma {:induction false} StopIsBehind(s: seq<byte>, p: nat)
    requires p + 4 <= |s|
    ensures StopEnd(s, p) >= Next(s, p)
    decreases |s| - p
  {
    if Skippable(s, p) && Next(s, p) + 4 <= |s| {
      StopIsBehind(s, Next(s, p));
    }
  }

  /** A shorter stream is accepted if and only if the longer one is, for a frame header that the shorter one has. */
  lemma {:induction false} AcceptedPrefix(s: seq<byte>, p: nat, n: nat)
    requires n <= |s|
    ensures Scan(s[..n], p).0 <==> Scan(s, p).0 && StopEnd(s, p) <= n
    ensures Scan(s[..n], p).0 ==> Scan(s, p) == Scan(s[..n], p)
    decreases |s| - p
  {
    if Skippable(s, p) {
      if Next(s, p) <= n {
        AcceptedPrefix(s, Next(s, p), n);
      } else {
        StopIsBehind(s, p);
      }
    }
  }

  /**
   Dummy bytes behind the last EOI do not matter: the finished stream is accepted if and only if the compressor's
   whole stream is, for a frame header in front of its last EOI, and then the same is remembered.
   */
  lemma SameVerdictAsUntrimmed(enc: Encoder, main: seq<byte>, t: seq<byte>, n: nat, size: nat)
    requires enc.Laid() && |t| <= enc.writer.maxThumbSize
    requires HardwareStream(main) && enc.Assembled(main, t, n, size)
    ensures Verdict(enc.buf[..size]).0 <==> Verdict(main).0 && StopEnd(main, 2) <= n
    ensures Verdict(enc.buf[..size]).0 ==> Verdict(enc.buf[..size]) == Verdict(main)
  {
    hide Scan, Encoder.FinalApp1, Encoder.Tail, Encoder.Laid, IsEoi, StopEnd;
    SameVerdict(enc, main, t, n, size);
    AcceptedPrefix(main, 2, n);
  }

  lemma AtLeastTwo(enc: Encoder, t: seq<byte>)
    requires enc.Laid() && enc.writer.exif.Some?
    ensures 2 <= FinalLength(enc, t)
  {
    hide ZerothFields, DirSize, Encoder.Tail;
  }

  lemma NoApp1(enc: Encoder, t: seq<byte>)
    requires enc.Laid() && enc.writer.exif.None? && |t| <= enc.writer.maxThumbSize
    ensures enc.FinalApp1(t) == []
  {
  }

  lemma MainBehind(s: seq<byte>, q: nat, main: seq<byte>, n: nat)
    requires 2 <= n <= |main| && q + n - 2 == |s| && Matches(s, q, Lit(main[2..n]))
    ensures Scan(s, q) == Scan(main[..n], 2)
  {
    MatchesLit(s, q, main[2..n]);
    assert s[q..] == s[q..q + |main[2..n]|];
    assert main[..n][2..] == main[2..n];
    ScanMoved(s, q, main[..n], 2);
  }

  /** Every attribute can be read from the finished stream, and IFD1 leads to exactly the thumbnail. */
  lemma ExifInFinishedStream(enc: Encoder, main: seq<byte>, t: seq<byte>, n: nat, size: nat)
    requires enc.Laid() && |t| <= enc.writer.maxThumbSize && enc.writer.exif.Some?
    requires enc.Assembled(main, t, n, size)
    ensures
      var e, s := enc.writer.exif.value, enc.buf[..size];
      ReadExif(s, MARKER_SIZE) == Some(Reading(e, FinalLength(enc, t), |t|))
      && ExifTells(s, e, t)
      && (e.enableThumb ==>
            var first := FirstFields(e, FirstOffset(e) + 78, |t|);
            var start := MARKER_SIZE + TIFF_BASE + FirstOffset(e) + 78;
            start + |t| <= size && s[start..start + |t|] == t)
  {
    hide Matches, Encoder.FinalApp1, Encoder.Tail, Encoder.Laid, ReadExif, Reading, App1Image, DirSize, ZerothFields, Says;
    var s, e := enc.buf[..size], enc.writer.exif.value;
    MatchesPrefix(enc.buf[..], MARKER_SIZE, enc.FinalApp1(t), size);
    assert enc.buf[..][..size] == s;
    FinalApp1Is(enc, s, t);
    FitsSegment(enc);
    ReadExifBack(s, MARKER_SIZE, e, FinalLength(enc, t), |t|);
    AttributesBack(s, MARKER_SIZE, e, FinalLength(enc, t), |t|);
    if e.enableThumb {
      MatchesLit(s, MARKER_SIZE + TIFF_BASE + FirstOffset(e) + 78, t);
    }
    assert Says(ReadExif(s, 2).value, e, App1Length(e) - 8, |t|) && (e.enableThumb ==> HoldsAt(s, 12 + (App1Length(e) - 8), t));
  }

  /** An Exif reader finds all attributes and, at the offset that the segment gives, the thumbnail. */
  ghost predicate ExifTells(s: seq<byte>, e: Attributes, t: seq<byte>) {
    var r := ReadExif(s, 2);
    HeaderAt(s, 2) && r.Some? && exists offset: nat :: Says(r.value, e, offset, |t|) && (e.enableThumb ==> HoldsAt(s, 12 + offset, t))
  }

  lemma FitsSegment(enc: Encoder)
    requires enc.Laid() && enc.writer.exif.Some?
    ensures App1Length(enc.writer.exif.value) <= MAX_SEGMENT_SIZE
  {
    hide ZerothFields, DirSize, Encoder.Tail;
  }

  /** The main compressor: the stream it makes in the given space, unless it fails. */
  type Device = f: nat -> Option<seq<byte>> | forall n :: f(n).Some? ==> HardwareStream(f(n).value) && |f(n).value| <= n
    witness _ => None

  /** The compressor overwrites nothing of the segments but the dummy bytes that end them. */
  method CompressMain(enc: Encoder, device: Device) returns (mainlen: int, ghost main: seq<byte>)
    requires enc.Laid() && enc.Open() && enc.buf.Length < 0x8000_0000
    requires enc.writer.mainBase + MARKER_SIZE <= enc.buf.Length
    requires Matches(enc.buf[..], MARKER_SIZE, enc.writer.WrittenApp1(enc.reserved))
    requires Matches(enc.buf[..], enc.writer.app1End, enc.Tail())
    modifies enc.buf
    ensures match device(enc.buf.Length - enc.writer.mainBase)
            case None => mainlen == -1
            case Some(made) => main == made && mainlen == |main| && enc.Compressed(main)
  {
    hide Encoder.Laid, Encoder.Open, Encoder.Tail, AppMarkerWriter.WrittenApp1, Matches, Stamp;
    main := [];
    var base := enc.writer.mainBase;
    var made := device(enc.buf.Length - base);
    if made.None? {
      return -1, [];
    }
    ghost var mem := enc.buf[..];
    StreamStored(enc, mem, made.value);
    Store(enc.buf, base, made.value);
    main := made.value;
    StampedPart(mem, base, main);
    assert enc.buf[..][base..base + |main|] == enc.buf[base..base + |main|];
    return |made.value|, main;
  }

  lemma StampedPart(mem: seq<byte>, at: nat, data: seq<byte>)
    requires at + |data| <= |mem|
    ensures Stamp(mem, at, Lit(data))[at..at + |data|] == data
  {
  }

  lemma StreamStored(enc: Encoder, mem: seq<byte>, main: seq<byte>)
    requires enc.Laid() && enc.writer.mainBase + |main| <= |mem| && |main| >= 2
    requires Matches(mem, MARKER_SIZE, enc.writer.WrittenApp1(enc.reserved))
    requires Matches(mem, enc.writer.app1End, enc.Tail())
    ensures var mem' := Stamp(mem, enc.writer.mainBase, Lit(main));
            Matches(mem', MARKER_SIZE, enc.writer.WrittenApp1(enc.reserved)) && Matches(mem', enc.writer.app1End, enc.Tail())
  {
    hide Encoder.Tail, AppMarkerWriter.WrittenApp1, AppMarkerWriter.Prepared, Matches, Stamp;
    enc.SegmentsEndBlank();
    TailKept(mem, enc.writer.mainBase, enc.writer.app1End, enc.Tail(), main);
    if enc.writer.WrittenApp1(enc.reserved) == [] {
      Fits(mem, enc.writer.app1End, enc.Tail());
      MatchesNothing(Stamp(mem, enc.writer.mainBase, Lit(main)), MARKER_SIZE);
    } else {
      MatchesApart(mem, MARKER_SIZE, enc.writer.WrittenApp1(enc.reserved), enc.writer.mainBase, main);
    }
  }

  // ---------------------------------------------------------------- all segments of the stream

  /** The number of two bytes at `p`, the more significant one first. */
  function Two(s: seq<byte>, p: nat): nat
    requires p + 2 <= |s|
  {
    0x100 * (s[p] as int) + s[p + 1] as int
  }

  /** One APPn segment after the other, with the ids and the payloads given; payloads of `reserved` ones come later. */
  ghost predicate HasExtras(s: seq<byte>, p: nat, infos: seq<AppInfo>, reserved: bool)
    decreases |infos|
  {
    infos != [] ==>
      var n := |infos[0].data|;
      && p + 4 + n <= |s| && s[p] == 0xFF && s[p + 1] == 0xE0 + infos[0].appid && Two(s, p + 2) == n + 2
      && (reserved || s[p + 4..p + 4 + n] == infos[0].data)
      && HasExtras(s, p + 4 + n, infos[1..], reserved)
  }

  function EndOfExtras(p: nat, infos: seq<AppInfo>): nat
    decreases |infos|
  {
    if infos == [] then p else EndOfExtras(p + 4 + |infos[0].data|, infos[1..])
  }

  /**
   The whole stream: SOI, APP1 as long as it says, if there is Exif data, the extra segments, APP11 up to the main
   stream, if there are segments at all, and the main stream behind its own SOI, which ends with EOI.
   */
  ghost predicate StreamIs(s: seq<byte>, exif: bool, extra: Option<seq<AppInfo>>, reserved: bool, main: seq<byte>)
    requires |main| >= 2
  {
    var infos := if extra.Some? then extra.value else [];
    && |s| >= 2 && s[0] == 0xFF && s[1] == 0xD8 && (exif ==> |s| >= 6 && s[2] == 0xFF && s[3] == 0xE1)
    && var p := if exif then 4 + Two(s, 4) else 2;
       var q, m := EndOfExtras(p, infos), |s| - (|main| - 2);
       && HasExtras(s, p, infos, reserved)
       && (if exif || extra.Some? then q + 4 <= m && s[q] == 0xFF && s[q + 1] == 0xEB && q + 2 + Two(s, q + 2) == m else q == m)
       && 0 <= m && s[m..] == main[2..] && s[|s| - 2] == 0xFF && s[|s| - 1] == 0xD9
  }

  lemma {:induction false} ExtrasAreThere(s: seq<byte>, p: nat, infos: seq<AppInfo>, reserved: bool)
    requires ValidExtra(infos) && Matches(s, p, ExtrasImage(infos, reserved))
    ensures HasExtras(s, p, infos, reserved) && EndOfExtras(p, infos) == p + ExtraSize(infos)
    decreases |infos|
  {
    hide Matches, ExtraImage;
    if infos != [] {
      MatchesConcat(s, p, ExtraImage(infos[0], reserved), ExtrasImage(infos[1..], reserved));
      assert infos[0].Valid();
      ExtraIsThere(s, p, infos[0], reserved);
      ExtrasAreThere(s, p + 4 + |infos[0].data|, infos[1..], reserved);
    }
  }

  lemma ExtraIsThere(s: seq<byte>, p: nat, info: AppInfo, reserved: bool)
    requires info.Valid() && Matches(s, p, ExtraImage(info, reserved))
    ensures p + 4 + |info.data| <= |s| && s[p] == 0xFF && s[p + 1] == 0xE0 + info.appid && Two(s, p + 2) == |info.data| + 2
    ensures reserved || s[p + 4..p + 4 + |info.data|] == info.data
  {
    hide Matches;
    var m, l := Lit([0xFF, 0xE0 + info.appid % 16]), Lit(Be16(U16(|info.data| + LENFIELD_SIZE)));
    var d := if reserved then Blank(|info.data|) else Lit(info.data);
    Fits(s, p, ExtraImage(info, reserved));
    MatchesConcat(s, p, m + l, d);
    MatchesConcat(s, p, m, l);
    TwoBytes(s, p, 0xFF, 0xE0 + info.appid % 16);
    LengthIs(s, p + 2, |info.data| + LENFIELD_SIZE);
    if !reserved {
      MatchesLit(s, p + 4, info.data);
    }
  }

  lemma LengthIs(s: seq<byte>, p: nat, length: u16)
    requires Matches(s, p, Lit(Be16(length)))
    ensures p + 2 <= |s| && Two(s, p) == length
  {
    TwoBytes(s, p, length / 0x100, length % 0x100);
  }

  /** The finished stream consists of these segments and nothing else. */
  lemma StreamIsComplete(enc: Encoder, main: seq<byte>, t: seq<byte>, n: nat, size: nat)
    requires enc.Laid() && |t| <= enc.writer.maxThumbSize
    requires HardwareStream(main) && enc.Assembled(main, t, n, size)
    ensures StreamIs(enc.buf[..size], enc.writer.exif.Some?, enc.writer.extra, enc.hwfc, main[..n])
  {
    hide Matches, Encoder.FinalApp1, Encoder.Tail, Encoder.Laid, IsEoi, FinalLength, ExtraSize, ExtrasImage, App1Image;
    hide AppMarkerWriter.WrittenApp11, HasExtras;
    var w, s, p := enc.writer, enc.buf[..size], MARKER_SIZE + |enc.FinalApp1(t)|;
    assert enc.buf[..][..size] == s;
    FinishedParts(enc, s, main, t, n, size);
    FrontIs(enc, s, t);
    TailIs(enc, s, p);
    var m := p + |enc.Tail()|;
    MatchesLit(s, m, main[2..n]);
    assert s[m..] == s[m..m + (n - 2)] == main[..n][2..];
    EndIs(main, n);
    assert s[m..][n - 4] == main[2..][n - 4] && s[m..][n - 3] == main[2..][n - 3];
  }

  lemma EndIs(main: seq<byte>, n: nat)
    requires HardwareStream(main) && EndsAtEoi(main, n)
    ensures 4 <= n <= |main| && main[n - 2] == 0xFF && main[n - 1] == 0xD9
  {
  }

  lemma FrontIs(enc: Encoder, s: seq<byte>, t: seq<byte>)
    requires enc.Laid() && |t| <= enc.writer.maxThumbSize
    requires MARKER_SIZE + |enc.FinalApp1(t)| <= |s| && Matches(s, MARKER_SIZE, enc.FinalApp1(t))
    ensures if enc.writer.exif.Some? then
              |s| >= 6 && s[2] == 0xFF && s[3] == 0xE1 && MARKER_SIZE + |enc.FinalApp1(t)| == 4 + Two(s, 4)
            else enc.FinalApp1(t) == []
  {
    hide Matches, Encoder.FinalApp1, Encoder.Tail, Encoder.Laid, FinalLength, App1Image, FirstOffset, App1Length;
    if enc.writer.exif.Some? {
      var e, length := enc.writer.exif.value, FinalLength(enc, t);
      FinalApp1Is(enc, s, t);
      App1Parts(s, MARKER_SIZE, e, length, |t|);
      TwoBytes(s, 2, 0xFF, 0xE1);
      LengthIs(s, 4, length);
    } else {
      NoApp1(enc, t);
    }
  }

  lemma TailIs(enc: Encoder, s: seq<byte>, p: nat)
    requires enc.Laid() && Matches(s, p, enc.Tail())
    ensures
      var w := enc.writer;
      var infos := if w.extra.Some? then w.extra.value else [];
      var q, m := EndOfExtras(p, infos), p + |enc.Tail()|;
      && HasExtras(s, p, infos, enc.hwfc)
      && if w.exif.Some? || w.extra.Some?
         then q + 4 <= m <= |s| && s[q] == 0xFF && s[q + 1] == 0xEB && q + 2 + Two(s, q + 2) == m else q == m
  {
    hide Matches, ExtrasImage, ExtraSize, HasExtras, Encoder.Laid, AppMarkerWriter.WrittenApp11, ValidExtra, App11Image;
    var w := enc.writer;
    var q := w.app1End + ExtraSize(w.Extras());
    var a, b := ExtrasImage(w.Extras(), enc.hwfc), w.WrittenApp11(q, MARKER_SIZE, enc.align);
    MatchesConcat(s, p, a, b);
    App11Part(enc, q);
    ExtrasAreThere(s, p, w.Extras(), enc.hwfc);
    if w.exif.Some? || w.extra.Some? {
      App11IsThere(s, p + |a|, w.Padding(q, enc.align) + MARKER_SIZE + LENFIELD_SIZE);
    }
  }

  lemma App11Part(enc: Encoder, q: nat)
    requires enc.Laid()
    ensures
      var w := enc.writer;
      && ValidExtra(w.Extras()) && w.Padding(q, enc.align) < 16
      && w.WrittenApp11(q, MARKER_SIZE, enc.align)
         == if w.exif.Some? || w.extra.Some? then App11Image(w.Padding(q, enc.align) + MARKER_SIZE + LENFIELD_SIZE) else []
  {
    hide AppMarkerWriter.Padding, AppMarkerWriter.WrittenApp1, AppMarkerWriter.Measured, ExtrasImage, ExtraSize;
  }

  lemma App11IsThere(s: seq<byte>, p: nat, length: nat)
    requires 2 <= length < 0x1_0000 && Matches(s, p, App11Image(length))
    ensures p + 2 + length <= |s| && s[p] == 0xFF && s[p + 1] == 0xEB && Two(s, p + 2) == length
  {
    hide Matches;
    Fits(s, p, App11Image(length));
    MatchesConcat(s, p, Lit([0xFF, 0xEB]) + Lit(Be16(U16(length))), Blank(length - LENFIELD_SIZE));
    MatchesConcat(s, p, Lit([0xFF, 0xEB]), Lit(Be16(U16(length))));
    TwoBytes(s, p, 0xFF, 0xEB);
    LengthIs(s, p + 2, length);
  }

  /** What readers find in the first `size` bytes of the buffer. */
  ghost predicate Readable(enc: Encoder, main: seq<byte>, t: seq<byte>, n: nat, size: nat)
    reads enc, enc.writer, enc.buf
  {
    && size <= enc.buf.Length && 2 < n <= |main| && Verdict(enc.buf[..size]) == Verdict(main[..n])
    && StreamIs(enc.buf[..size], enc.writer.exif.Some?, enc.writer.extra, enc.hwfc, main[..n])
    && match enc.writer.exif
       case None => true
       case Some(e) =>
         && ReadExif(enc.buf[..size], MARKER_SIZE) == Some(Reading(e, FinalLength(enc, t), |t|))
         && ExifTells(enc.buf[..size], e, t)
         && (e.enableThumb ==> HoldsAt(enc.buf[..size], MARKER_SIZE + TIFF_BASE + FirstOffset(e) + 78, t))
  }

  ghost predicate HoldsAt(s: seq<byte>, at: nat, t: seq<byte>) {
    at + |t| <= |s| && s[at..at + |t|] == t
  }

  lemma AssembledIsReadable(enc: Encoder, main: seq<byte>, t: seq<byte>, n: nat, size: nat)
    requires enc.Laid() && |t| <= enc.writer.maxThumbSize
    requires HardwareStream(main) && enc.Assembled(main, t, n, size)
    ensures Readable(enc, main, t, n, size)
  {
    hide Verdict, ReadExif, Reading, ExifTells, StreamIs, FinalLength, FirstOffset, IsEoi, HardwareStream, Encoder.Laid, Matches;
    hide Encoder.FinalApp1, Encoder.Tail, App1Length;
    SameVerdict(enc, main, t, n, size);
    StreamIsComplete(enc, main, t, n, size);
    if enc.writer.exif.Some? {
      ExifInFinishedStream(enc, main, t, n, size);
    }
  }

  /**
   Compression of the main image and completion of the stream. It fails if the compressor does, or
   if there is no thumbnail that fits; `came` is the thumbnail as it first came.
   */
  method CompressAndFinish(enc: Encoder, device: Device, mode: ThumbMode, thumblen: nat)
    returns (size: int, ghost main: seq<byte>, ghost t: seq<byte>, ghost n: nat, ghost came: seq<byte>)
    requires enc.Laid() && enc.Open() && enc.buf.Length < 0x8000_0000 && enc.streamSize == enc.buf.Length
    requires enc.writer.mainBase + MARKER_SIZE <= enc.buf.Length
    requires Matches(enc.buf[..], MARKER_SIZE, enc.writer.WrittenApp1(enc.reserved))
    requires Matches(enc.buf[..], enc.writer.app1End, enc.Tail())
    requires mode.BackToBack? ==> thumblen <= |enc.thumbJpeg|
    modifies enc`streamSize, enc`thumbJpeg, enc.buf, enc.writer`thumbSizePlaceholder
    ensures size < 0 ==> size == -1
    ensures match device(enc.buf.Length - enc.writer.mainBase)
            case None => size == -1
            case Some(made) =>
              && main == made && EndsAtEoi(main, n)
              && enc.Outcome(mode, old(enc.thumbJpeg), thumblen, n, size, t, came)
    ensures size >= 0 ==> t <= enc.thumbJpeg && |t| <= enc.writer.maxThumbSize && Readable(enc, main, t, n, size)
  {
    hide Encoder.Laid, Encoder.Open, Encoder.Tail, AppMarkerWriter.WrittenApp1, Matches, Readable, Encoder.Outcome;
    hide IsEoi, ExtraSize, EndsAtEoi, HardwareStream, Encoder.Compressed, Encoder.Assembled;
    var mainlen;
    mainlen, main := CompressMain(enc, device);
    if mainlen < 0 {
      return -1, [], [], 0, [];
    }
    size, t, n, came := enc.FinishCompression(mainlen, thumblen, mode, main);
    if size >= 0 {
      AssembledIsReadable(enc, main, t, n, size);
    }
  }

  /**
   A whole blocking `encode`: whenever it returns a size, the parser sees in the buffer the frame of
   the main stream, and an Exif reader every attribute and exactly the thumbnail. It returns one if and only if
   the sizes agree, the buffer passes for large enough, the compressor delivers and some thumbnail fits.
   */
  method Encode(enc: Encoder, exif: Option<Attributes>, extra: Option<seq<AppInfo>>, width: u32, height: u32,
                thumbWidth: u32, thumbHeight: u32, device: Device, mode: ThumbMode, thumblen: nat)
    returns (size: int, ghost main: seq<byte>, ghost t: seq<byte>, ghost n: nat, ghost came: seq<byte>)
    requires enc.writer.buf == enc.buf && enc.buf.Length < 0x8000_0000 && enc.streamSize == enc.buf.Length
    requires Acceptable(exif, extra)
    requires enc.SizesAgree(exif, width, height, thumbWidth, thumbHeight) && enc.EnoughRoom(exif, extra) ==>
               MARKER_SIZE + enc.HeaderSize(exif, extra) <= enc.buf.Length
    requires mode.BackToBack? ==> thumblen <= |enc.thumbJpeg|
    modifies enc`reserved, enc`streamSize, enc`thumbJpeg, enc.writer, enc.buf
    ensures size < 0 ==> size == -1
    ensures if !(enc.SizesAgree(exif, width, height, thumbWidth, thumbHeight) && old(enc.EnoughRoom(exif, extra))) then
              size == -1
            else
              && enc.Laid() && enc.writer.exif == exif && enc.writer.extra == extra
              && enc.writer.mainBase == enc.HeaderSize(exif, extra) &&
              match device(enc.buf.Length - enc.HeaderSize(exif, extra))
              case None => size == -1
              case Some(made) =>
                && main == made && EndsAtEoi(main, n)
                && enc.Outcome(mode, old(enc.thumbJpeg), thumblen, n, size, t, came)
    ensures size >= 0 && exif.Some? ==> exif.value.width == width && exif.value.height == height
    ensures size >= 0 && exif.Some? && exif.value.enableThumb ==>
              exif.value.widthThumb == thumbWidth && exif.value.heightThumb == thumbHeight
    ensures size >= 0 ==> t <= enc.thumbJpeg && |t| <= enc.writer.maxThumbSize && Readable(enc, main, t, n, size)
  {
    hide Encoder.Laid, Encoder.Open, Encoder.Tail, AppMarkerWriter.WrittenApp1, Matches, Readable, Encoder.Outcome;
    hide Acceptable, IsEoi, ExtraSize, EndsAtEoi, HardwareStream, Encoder.HeaderSize, Encoder.EnoughRoom;
    hide Encoder.Reserves, Encoder.App1Size, AppMarkerWriter.Prepared;
    main, t, n, came := [], [], 0, [];
    var ok := enc.ProcessExif(exif, extra, width, height, thumbWidth, thumbHeight);
    if !ok {
      return -1, [], [], 0, [];
    }
    size, main, t, n, came := CompressAndFinish(enc, device, mode, thumblen);
  }
}
