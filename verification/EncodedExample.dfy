/** A picture encoded from beginning to end. */
module EncodedExample {
  import opened Bytes
  import opened Tiff
  import opened IfdWriters
  import opened Exif
  import opened ExifWriter
  import opened AppMarkers
  import opened ExifSegment
  import opened ExifReader
  import opened CameraEncoder
  import opened JpegParser
  import opened EncodedStream

  /** Attributes without any text, for an image of 64 by 48 without thumbnail; exposed for 1/60. */
  function Plain(): Attributes {
    Attributes(
      [], [], [], [], 1, 1, Rational(72, 1), Rational(72, 1), 2, Rational(1, 60), Rational(18, 10), 2, 100,
      [0x30, 0x32, 0x32, 0x30], Rational(6, 1), Rational(2, 1), Rational(0, 1), Rational(0, 1), Rational(2, 1), 2, 0,
      Rational(4, 1), [], [], [], 1, 64, 48, 0, 0, 0, Rational(1, 1), 26, 0, 0, 0, 0, [], false, false,
      [2, 2, 0, 0], [0, 0], [Rational(0, 1), Rational(0, 1), Rational(0, 1)], [0, 0],
      [Rational(0, 1), Rational(0, 1), Rational(0, 1)], 0, Rational(0, 1), [],
      [Rational(0, 1), Rational(0, 1), Rational(0, 1)], [], false, 0, 0, 6)
  }

  lemma PlainLength()
    ensures App1Length(Plain()) == 713
  {
    hide ZerothFields, ExifFields, GpsFields, App1Length;
    App1LengthIs(Plain());
    FieldCounts(Plain());
  }

  /** A main stream without contents. */
  const MAIN: seq<byte> := [0xFF, 0xD8, 1, 2, 0xFF, 0xD9]

  function Delivers(space: nat): Option<seq<byte>> {
    if space >= 6 then Some(MAIN) else None
  }

  function PlainDevice(): Device {
    Delivered(0);
    Delivers
  }

  lemma Delivered(n: nat)
    ensures HardwareStream(MAIN) && |MAIN| == 6
    ensures EndsAtEoi(MAIN, n) ==> n == 6
  {
    assert IsEoi(MAIN, 4);
  }

  /** A picture with Exif data, one extra segment and a main stream of six bytes, in a buffer of 128 KiB. */
  method EncodesPlain() returns (enc: Encoder, size: int)
    ensures fresh(enc) && 0 <= size <= enc.buf.Length
    ensures ExifTells(enc.buf[..size], Plain(), [])
    ensures StreamIs(enc.buf[..size], true, Some([AppInfo(5, [7, 8])]), false, MAIN)
  {
    hide Acceptable, Encoder.Laid, Encoder.HeaderSize, Encoder.EnoughRoom, HardwareStream, Readable, Encoder.Outcome;
    hide EndsAtEoi, App1Length, Encoder.SizesAgree, Plain, ExtraSize, ExifTells, StreamIs, Encoder.Reserves, Delivers;
    var buf := new byte[0x2_0000];
    enc := new Encoder(buf, 0, 16, _ => None, 90, false);
    var extra := Some([AppInfo(5, [7, 8])]);
    RoomForPlain(enc, extra);
    ghost var was := enc.thumbJpeg;
    ghost var main, t, n, came;
    size, main, t, n, came := Encode(enc, Some(Plain()), extra, 64, 48, 0, 0, PlainDevice(), SeparatePass, 0);
    RoomForPlain(enc, extra);
    PlainDelivers(enc.buf.Length - enc.HeaderSize(Some(Plain()), extra));
    Delivered(n);
    PlainSucceeds(enc, was, n, size, t, came);
    PlainIsReadable(enc, main, t, n, size);
  }

  /** There is no thumbnail that could fail to fit. */
  lemma PlainSucceeds(enc: Encoder, was: seq<byte>, n: nat, size: int, t: seq<byte>, came: seq<byte>)
    requires enc.Laid() && enc.writer.exif == Some(Plain()) && enc.Outcome(SeparatePass, was, 0, n, size, t, came)
    ensures size >= 0
  {
    hide App1Length, Encoder.Tail, AppMarkerWriter.WrittenApp1;
  }

  lemma PlainIsReadable(enc: Encoder, main: seq<byte>, t: seq<byte>, n: nat, size: nat)
    requires Readable(enc, main, t, n, size) && enc.writer.exif == Some(Plain()) && enc.writer.extra == Some([AppInfo(5, [7, 8])])
    requires !enc.hwfc && main == MAIN && n == 6
    ensures size <= enc.buf.Length && ExifTells(enc.buf[..size], Plain(), [])
    ensures StreamIs(enc.buf[..size], true, Some([AppInfo(5, [7, 8])]), false, MAIN)
  {
    hide ReadExif, StreamIs, MainSays, Verdict, Reading;
    var s := enc.buf[..size];
    var r := ReadExif(s, 2);
    var offset: nat :| Says(r.value, Plain(), offset, |t|);
    assert Says(r.value, Plain(), offset, 0);
    assert MAIN[..6] == MAIN;
  }

  lemma PlainDelivers(space: nat)
    requires space >= 6
    ensures PlainDevice()(space) == Some(MAIN)
  {
  }

  lemma RoomForPlain(enc: Encoder, extra: Option<seq<AppInfo>>)
    requires enc.buf.Length == 0x2_0000 && enc.writer.buf == enc.buf && extra == Some([AppInfo(5, [7, 8])])
    ensures Acceptable(Some(Plain()), extra) && enc.SizesAgree(Some(Plain()), 64, 48, 0, 0)
    ensures enc.EnoughRoom(Some(Plain()), extra) && MARKER_SIZE + enc.HeaderSize(Some(Plain()), extra) + 6 <= enc.buf.Length
  {
    hide App1Length, AppMarkerWriter.Padding;
    PlainLength();
    var infos := [AppInfo(5, [7, 8])];
    assert infos[1..] == [];
    assert ExtraSize(infos) == 6;
  }
}
