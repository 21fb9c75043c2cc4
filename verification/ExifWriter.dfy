/** The directories of the APP1 segment, filled field by field (the IFD part of `CAppMarkerWriter::WriteAPP1`). */
module ExifWriter {
  import opened Bytes
  import opened Tiff
  import opened IfdWriters
  import opened Exif

  // ---------------------------------------------------------------- sizes

  function TextSize(chars: seq<byte>): nat { if |chars| > 3 then |chars| + 1 else 0 }

  function BlobSize(data: seq<byte>): nat { if |data| > 4 then |data| else 0 }

  lemma Unroll5(d: seq<Field>)
    requires |d| >= 5
    ensures ValuesSize(d) == FieldSize(d[0]) + FieldSize(d[1]) + FieldSize(d[2]) + FieldSize(d[3]) + FieldSize(d[4])
                             + ValuesSize(d[5..])
  {
    hide FieldSize;
    assert d[1..][1..] == d[2..] && d[2..][1..] == d[3..] && d[3..][1..] == d[4..] && d[4..][1..] == d[5..];
    assert ValuesSize(d[1..]) == FieldSize(d[1]) + ValuesSize(d[2..]);
    assert ValuesSize(d[2..]) == FieldSize(d[2]) + ValuesSize(d[3..]);
    assert ValuesSize(d[3..]) == FieldSize(d[3]) + ValuesSize(d[4..]);
    assert ValuesSize(d[4..]) == FieldSize(d[4]) + ValuesSize(d[5..]);
  }

  lemma Prepend(f: Field, d: seq<Field>)
    ensures ValuesSize([f] + d) == FieldSize(f) + ValuesSize(d)
  {
    assert ([f] + d)[1..] == d;
  }

  lemma Unroll4(a: Field, b: Field, c: Field, d: Field)
    ensures ValuesSize([a, b]) == FieldSize(a) + FieldSize(b)
    ensures ValuesSize([a, b, c]) == FieldSize(a) + FieldSize(b) + FieldSize(c)
    ensures ValuesSize([a, b, c, d]) == FieldSize(a) + FieldSize(b) + FieldSize(c) + FieldSize(d)
  {
    hide FieldSize;
    Prepend(a, [b]);
    assert [a] + [b] == [a, b];
    Prepend(b, [c]);
    Prepend(a, [b, c]);
    assert [b] + [c] == [b, c] && [a] + [b, c] == [a, b, c];
    Prepend(c, [d]);
    Prepend(b, [c, d]);
    Prepend(a, [b, c, d]);
    assert [c] + [d] == [c, d] && [b] + [c, d] == [b, c, d] && [a] + [b, c, d] == [a, b, c, d];
  }

  lemma OptionalSizes(tag: u16, s: seq<byte>)
    ensures ValuesSize(OptionalText(tag, s)) == TextSize(s)
    ensures ValuesSize(OptionalUndef(tag, s)) == BlobSize(s)
  {
  }

  lemma ZerothHeadSize(e: Attributes)
    ensures ValuesSize(ZerothHead(e)) == 16
  {
    hide ShortBytes, RationalBytes;
    Unroll5(ZerothHead(e));
  }

  lemma ZerothTextsSize(e: Attributes)
    ensures ValuesSize(ZerothTexts(e)) == TextSize(e.maker) + TextSize(e.model) + TextSize(e.software) + DATETIME_LENGTH
  {
    hide OptionalText, TextSize, CString;
    var a, b, c := OptionalText(0x010F, e.maker), OptionalText(0x0110, e.model), OptionalText(0x0131, e.software);
    var d := [Text(0x0132, e.dateTime, DATETIME_LENGTH)];
    OptionalSizes(0x010F, e.maker);
    OptionalSizes(0x0110, e.model);
    OptionalSizes(0x0131, e.software);
    ValuesSizeConcat(a, b);
    ValuesSizeConcat(a + b, c);
    ValuesSizeConcat(a + b + c, d);
  }

  lemma ExifExposureSize(e: Attributes)
    ensures ValuesSize(ExifExposure(e)) == 56
  {
    hide ShortBytes, RationalBytes, CString;
    var d := ExifExposure(e);
    Unroll5(d);
    Unroll4(d[5], d[6], d[6], d[6]);
    assert d[5..] == [d[5], d[6]];
  }

  lemma ExifLensSize(e: Attributes)
    ensures ValuesSize(ExifLens(e)) == 48
  {
    hide ShortBytes, RationalBytes;
    var d := ExifLens(e);
    Unroll5(d);
    Unroll5(d[5..]);
    assert d[5..][5..] == [];
  }

  lemma ExifNotesSize(e: Attributes)
    ensures ValuesSize(ExifNotes(e)) == 15 + BlobSize(e.makerNote) + BlobSize(e.userComment)
  {
    hide CString, OptionalUndef, BlobSize;
    var a := [Text(0x9290, e.secTime, SUBSECTIME_LENGTH), Text(0x9291, e.secTime, SUBSECTIME_LENGTH),
              Text(0x9292, e.secTime, SUBSECTIME_LENGTH)];
    Unroll4(a[0], a[1], a[2], a[2]);
    OptionalSizes(0x927C, e.makerNote);
    OptionalSizes(0x9286, e.userComment);
    ValuesSizeConcat(a, OptionalUndef(0x927C, e.makerNote));
    ValuesSizeConcat(a + OptionalUndef(0x927C, e.makerNote), OptionalUndef(0x9286, e.userComment));
  }

  lemma ExifImageSize(e: Attributes)
    ensures ValuesSize(ExifImage(e)) == 0
  {
    hide ShortBytes, Le32;
    var d := ExifImage(e);
    Unroll5(d);
    Unroll4(d[5], d[6], d[6], d[6]);
    assert d[5..] == [d[5], d[6]];
  }

  lemma ExifSceneSize(e: Attributes)
    ensures ValuesSize(ExifScene(e)) == 8 + TextSize(e.uniqueId)
  {
    hide ShortBytes, RationalBytes, OptionalText, TextSize;
    var a := [Rationals(0xA404, [e.digitalZoomRatio]), Short(0xA405, e.focalLengthIn35mm),
              Short(0xA406, e.sceneCaptureType), Short(0xA408, e.contrast), Short(0xA409, e.saturation),
              Short(0xA40A, e.sharpness)];
    Unroll5(a);
    assert a[5..] == [a[5]];
    OptionalSizes(0xA420, e.uniqueId);
    ValuesSizeConcat(a, OptionalText(0xA420, e.uniqueId));
  }

  lemma InteropSize(e: Attributes)
    ensures DirSize(InteropFields(e)) == 30
  {
    var d := InteropFields(e);
    Unroll4(d[0], d[1], d[1], d[1]);
    assert d == [d[0], d[1]];
  }

  function MethodSize(e: Attributes): nat {
    if e.gpsProcessingMethod == [] then 0 else |ASCII_PREFIX| + |ProcessingMethod(e)| + 1
  }

  lemma GpsPositionSize(e: Attributes)
    ensures ValuesSize(GpsPosition(e)) == 48
  {
    hide RationalBytes, Terminated;
    Unroll5(GpsPosition(e));
  }

  lemma GpsDetailSize(e: Attributes)
    ensures ValuesSize(GpsDetail(e)) == 43 + MethodSize(e)
  {
    hide RationalBytes, CString, ProcessingMethod;
    var d := GpsDetail(e);
    if e.gpsProcessingMethod == [] {
      Unroll4(d[0], d[1], d[2], d[3]);
      assert d == [d[0], d[1], d[2], d[3]];
    } else {
      Unroll5(d);
      assert d[5..] == [];
    }
  }

  lemma GpsSize(e: Attributes)
    ensures ValuesSize(GpsFields(e)) == 91 + MethodSize(e)
  {
    hide GpsPosition, GpsDetail;
    GpsPositionSize(e);
    GpsDetailSize(e);
    ValuesSizeConcat(GpsPosition(e), GpsDetail(e));
  }

  lemma ExifScalarsSize(e: Attributes)
    ensures ValuesSize(ExifScalars(e)) == 127 + BlobSize(e.makerNote) + BlobSize(e.userComment) + TextSize(e.uniqueId)
    ensures ValuesSize(ExifExposure(e)) + ValuesSize(ExifLens(e)) + ValuesSize(ExifNotes(e)) + ValuesSize(ExifImage(e))
            + ValuesSize(ExifScene(e)) == ValuesSize(ExifScalars(e))
  {
    hide ExifExposure, ExifLens, ExifNotes, ExifImage, ExifScene, TextSize, BlobSize;
    var a, b, c, d, f := ExifExposure(e), ExifLens(e), ExifNotes(e), ExifImage(e), ExifScene(e);
    ExifExposureSize(e);
    ExifLensSize(e);
    ExifNotesSize(e);
    ExifImageSize(e);
    ExifSceneSize(e);
    ValuesSizeConcat(a, b);
    ValuesSizeConcat(a + b, c);
    ValuesSizeConcat(a + b + c, d);
    ValuesSizeConcat(a + b + c + d, f);
  }

  lemma ExifSize(e: Attributes)
    ensures ValuesSize(ExifFields(e)) == ValuesSize(ExifScalars(e)) + 30
  {
    hide ExifScalars, InteropFields;
    ValuesSizeConcat(ExifScalars(e), [SubDir(INTEROPERABILITY_POINTER, InteropFields(e))]);
    InteropSize(e);
  }

  lemma ZerothSize(e: Attributes)
    ensures ValuesSize(ZerothFields(e)) ==
            ValuesSize(ZerothHead(e)) + ValuesSize(ZerothTexts(e)) + DirSize(ExifFields(e))
            + if e.enableGps then DirSize(GpsFields(e)) else 0
  {
    hide ZerothHead, ZerothTexts, ExifFields, GpsFields;
    var a, b, c := ZerothHead(e), ZerothTexts(e), [SubDir(EXIF_IFD_POINTER, ExifFields(e))];
    ValuesSizeConcat(a, b);
    ValuesSizeConcat(a + b, c);
    ValuesSizeConcat(a + b + c, if e.enableGps then [SubDir(GPS_IFD_POINTER, GpsFields(e))] else []);
  }

  lemma FirstSize(e: Attributes, offset: nat, length: nat)
    ensures DirSize(FirstFields(e, offset, length)) == 78
  {
    hide ShortBytes, Le32;
    var d := FirstFields(e, offset, length);
    Unroll5(d);
    assert d[5..] == [d[5]];
  }

  // ---------------------------------------------------------------- writing

  method WriteZerothHead(w: IfdWriter, e: Attributes)
    requires w.Valid() && w.tags >= |ZerothHead(e)| && w.value + ValuesSize(ZerothHead(e)) <= w.buf.Length
    modifies w, w.buf
    ensures w.Valid() && w.done == old(w.done) + ZerothHead(e) && w.tags == old(w.tags) - |ZerothHead(e)|
    ensures w.value == old(w.value) + ValuesSize(ZerothHead(e))
  {
    hide IfdWriter.Valid, IfdWriter.Layout, ShortBytes, RationalBytes, ValuesSize;
    ZerothHeadSize(e);
    w.WriteShort(0x0112, 1, [e.orientation]);
    w.WriteShort(0x0213, 1, [e.ycbcrPositioning]);
    w.WriteRational(0x011A, 1, [e.xResolution]);
    w.WriteRational(0x011B, 1, [e.yResolution]);
    w.WriteShort(0x0128, 1, [e.resolutionUnit]);
  }

  /** `if (strlen(...) > 0) writer.WriteASCII(...)`. */
  method WriteOptionalText(w: IfdWriter, tag: u16, chars: seq<byte>)
    requires w.Valid() && w.tags >= |OptionalText(tag, chars)| && w.value + TextSize(chars) <= w.buf.Length
    modifies w, w.buf
    ensures w.Valid() && w.done == old(w.done) + OptionalText(tag, chars)
    ensures w.tags == old(w.tags) - |OptionalText(tag, chars)| && w.value == old(w.value) + TextSize(chars)
  {
    hide IfdWriter.Contents, ValuesSize;
    if |chars| > 0 {
      var text := chars + [0];
      assert |chars| > 3 ==> |text| <= w.buf.Length;
      assert Terminated(text, |text|) == text;
      w.WriteASCII(tag, |text|, text);
    }
  }

  method WriteOptionalUndef(w: IfdWriter, tag: u16, data: seq<byte>)
    requires w.Valid() && w.tags >= |OptionalUndef(tag, data)| && w.value + BlobSize(data) <= w.buf.Length
    modifies w, w.buf
    ensures w.Valid() && w.done == old(w.done) + OptionalUndef(tag, data)
    ensures w.tags == old(w.tags) - |OptionalUndef(tag, data)| && w.value == old(w.value) + BlobSize(data)
  {
    if |data| > 0 {
      w.WriteUndef(tag, U32(|data|), data);
    }
  }

  method WriteZerothTexts(w: IfdWriter, e: Attributes)
    requires w.Valid() && w.tags >= |ZerothTexts(e)| && w.value + ValuesSize(ZerothTexts(e)) <= w.buf.Length
    modifies w, w.buf
    ensures w.Valid() && w.done == old(w.done) + ZerothTexts(e) && w.tags == old(w.tags) - |ZerothTexts(e)|
    ensures w.value == old(w.value) + ValuesSize(ZerothTexts(e))
  {
    hide IfdWriter.Valid, IfdWriter.Layout, ValuesSize, OptionalText, TextSize, CString;
    ZerothTextsSize(e);
    WriteOptionalText(w, 0x010F, e.maker);
    WriteOptionalText(w, 0x0110, e.model);
    WriteOptionalText(w, 0x0131, e.software);
    w.WriteCString(0x0132, DATETIME_LENGTH, e.dateTime);
  }

  method WriteExifExposure(w: IfdWriter, e: Attributes)
    requires w.Valid() && w.tags >= |ExifExposure(e)| && w.value + ValuesSize(ExifExposure(e)) <= w.buf.Length
    modifies w, w.buf
    ensures w.Valid() && w.done == old(w.done) + ExifExposure(e) && w.tags == old(w.tags) - |ExifExposure(e)|
    ensures w.value == old(w.value) + ValuesSize(ExifExposure(e))
  {
    hide IfdWriter.Valid, IfdWriter.Layout, ShortBytes, RationalBytes, CString, ValuesSize;
    ExifExposureSize(e);
    w.WriteRational(0x829A, 1, [e.exposureTime]);
    w.WriteRational(0x829D, 1, [e.fnumber]);
    w.WriteShort(0x8822, 1, [e.exposureProgram]);
    w.WriteShort(0x8827, 1, [e.isoSpeedRating]);
    w.WriteUndef(0x9000, 4, e.exifVersion);
    w.WriteCString(0x9003, DATETIME_LENGTH, e.dateTime);
    w.WriteCString(0x9004, DATETIME_LENGTH, e.dateTime);
  }

  method WriteExifLens(w: IfdWriter, e: Attributes)
    requires w.Valid() && w.tags >= |ExifLens(e)| && w.value + ValuesSize(ExifLens(e)) <= w.buf.Length
    modifies w, w.buf
    ensures w.Valid() && w.done == old(w.done) + ExifLens(e) && w.tags == old(w.tags) - |ExifLens(e)|
    ensures w.value == old(w.value) + ValuesSize(ExifLens(e))
  {
    hide IfdWriter.Valid, IfdWriter.Layout, ShortBytes, RationalBytes, ValuesSize;
    ExifLensSize(e);
    w.WriteSRational(0x9201, 1, [e.shutterSpeed]);
    w.WriteRational(0x9202, 1, [e.aperture]);
    w.WriteSRational(0x9203, 1, [e.brightness]);
    w.WriteSRational(0x9204, 1, [e.exposureBias]);
    w.WriteRational(0x9205, 1, [e.maxAperture]);
    w.WriteShort(0x9207, 1, [e.meteringMode]);
    w.WriteShort(0x9209, 1, [e.flash]);
    w.WriteUndef(0xA000, 4, VERSION_0100);
    w.WriteUndef(0x9101, 4, COMPONENTS_CONFIGURATION);
    w.WriteRational(0x920A, 1, [e.focalLength]);
  }

  method WriteExifNotes(w: IfdWriter, e: Attributes)
    requires w.Valid() && w.tags >= |ExifNotes(e)| && w.value + ValuesSize(ExifNotes(e)) <= w.buf.Length
    modifies w, w.buf
    ensures w.Valid() && w.done == old(w.done) + ExifNotes(e) && w.tags == old(w.tags) - |ExifNotes(e)|
    ensures w.value == old(w.value) + ValuesSize(ExifNotes(e))
  {
    hide IfdWriter.Valid, IfdWriter.Layout, CString, ValuesSize, OptionalUndef, BlobSize;
    ExifNotesSize(e);
    w.WriteCString(0x9290, SUBSECTIME_LENGTH, e.secTime);
    w.WriteCString(0x9291, SUBSECTIME_LENGTH, e.secTime);
    w.WriteCString(0x9292, SUBSECTIME_LENGTH, e.secTime);
    WriteOptionalUndef(w, 0x927C, e.makerNote);
    WriteOptionalUndef(w, 0x9286, e.userComment);
  }

  method WriteExifImage(w: IfdWriter, e: Attributes)
    requires w.Valid() && w.tags >= |ExifImage(e)| && w.value + ValuesSize(ExifImage(e)) <= w.buf.Length
    modifies w, w.buf
    ensures w.Valid() && w.done == old(w.done) + ExifImage(e) && w.tags == old(w.tags) - |ExifImage(e)|
    ensures w.value == old(w.value) + ValuesSize(ExifImage(e))
  {
    hide IfdWriter.Valid, IfdWriter.Layout, ShortBytes, Le32, ValuesSize;
    ExifImageSize(e);
    w.WriteShort(0xA001, 1, [e.colorSpace]);
    w.WriteLong(0xA002, 1, e.width);
    w.WriteLong(0xA003, 1, e.height);
    w.WriteUndef(0xA301, 4, SCENE_TYPE);
    w.WriteShort(0xA401, 1, [e.customRendered]);
    w.WriteShort(0xA402, 1, [e.exposureMode]);
    w.WriteShort(0xA403, 1, [e.whiteBalance]);
  }

  method WriteExifScene(w: IfdWriter, e: Attributes)
    requires w.Valid() && w.tags >= |ExifScene(e)| && w.value + ValuesSize(ExifScene(e)) <= w.buf.Length
    modifies w, w.buf
    ensures w.Valid() && w.done == old(w.done) + ExifScene(e) && w.tags == old(w.tags) - |ExifScene(e)|
    ensures w.value == old(w.value) + ValuesSize(ExifScene(e))
  {
    hide IfdWriter.Valid, IfdWriter.Layout, ShortBytes, RationalBytes, ValuesSize, OptionalText, TextSize;
    ExifSceneSize(e);
    w.WriteRational(0xA404, 1, [e.digitalZoomRatio]);
    w.WriteShort(0xA405, 1, [e.focalLengthIn35mm]);
    w.WriteShort(0xA406, 1, [e.sceneCaptureType]);
    w.WriteShort(0xA408, 1, [e.contrast]);
    w.WriteShort(0xA409, 1, [e.saturation]);
    w.WriteShort(0xA40A, 1, [e.sharpness]);
    WriteOptionalText(w, 0xA420, e.uniqueId);
  }

  method WriteInteropIfd(buf: array<byte>, tiff: nat, at: nat, e: Attributes) returns (end: nat)
    requires tiff <= at && at + DirSize(InteropFields(e)) <= buf.Length < 0x8000_0000
    modifies buf
    ensures buf[..] == Stamp(old(buf[..]), at, DirImage(at - tiff, InteropFields(e), 0))
    ensures end == at + DirSize(InteropFields(e))
  {
    hide Stamp, DirImage, Partial;
    InteropSize(e);
    var w := new IfdWriter(buf, tiff, at, 2);
    var index := if e.interoperabilityThm then THM else R98;
    assert Terminated(index, 4) == index;
    w.WriteASCII(0x0001, 4, index);
    w.WriteUndef(0x0002, 4, VERSION_0100);
    assert w.done == InteropFields(e);
    w.Finish(true);
    end := w.value;
  }

  method WriteExifScalars(w: IfdWriter, e: Attributes)
    requires w.Valid() && w.tags >= |ExifScalars(e)| && w.value + ValuesSize(ExifScalars(e)) <= w.buf.Length
    modifies w, w.buf
    ensures w.Valid() && w.done == old(w.done) + ExifScalars(e) && w.tags == old(w.tags) - |ExifScalars(e)|
    ensures w.value == old(w.value) + ValuesSize(ExifScalars(e))
  {
    hide ExifExposure, ExifLens, ExifNotes, ExifImage, ExifScene, ValuesSize, IfdWriter.Valid;
    ExifScalarsSize(e);
    WriteExifExposure(w, e);
    WriteExifLens(w, e);
    WriteExifNotes(w, e);
    WriteExifImage(w, e);
    WriteExifScene(w, e);
  }

  method WriteExifIfd(buf: array<byte>, tiff: nat, at: nat, e: Attributes, fields: u16) returns (end: nat)
    requires fields == |ExifFields(e)|
    requires tiff <= at && at + DirSize(ExifFields(e)) <= buf.Length < 0x8000_0000
    modifies buf
    ensures buf[..] == Stamp(old(buf[..]), at, DirImage(at - tiff, ExifFields(e), 0))
    ensures end == at + DirSize(ExifFields(e))
  {
    hide ExifScalars, InteropFields, ValuesSize, Stamp, DirImage, Partial, IfdWriter.Contents;
    ExifSize(e);
    InteropSize(e);
    var w := new IfdWriter(buf, tiff, at, fields);
    WriteExifScalars(w, e);
    var sub := w.BeginSubIFD(INTEROPERABILITY_POINTER);
    ghost var mem := buf[..];
    var subEnd := WriteInteropIfd(buf, tiff, sub, e);
    w.EndSubIFD(INTEROPERABILITY_POINTER, InteropFields(e), mem, subEnd);
    assert w.done == ExifFields(e);
    w.Finish(true);
    end := w.value;
  }

  method WriteGpsPosition(w: IfdWriter, e: Attributes)
    requires w.Valid() && w.tags >= |GpsPosition(e)| && w.value + ValuesSize(GpsPosition(e)) <= w.buf.Length
    modifies w, w.buf
    ensures w.Valid() && w.done == old(w.done) + GpsPosition(e) && w.tags == old(w.tags) - |GpsPosition(e)|
    ensures w.value == old(w.value) + ValuesSize(GpsPosition(e))
  {
    hide IfdWriter.Valid, IfdWriter.Layout, RationalBytes, Terminated, ValuesSize;
    GpsPositionSize(e);
    w.WriteByte(0x0000, 4, e.gpsVersionId);
    w.WriteASCII(0x0001, 2, e.gpsLatitudeRef);
    w.WriteRational(0x0002, 3, e.gpsLatitude);
    w.WriteASCII(0x0003, 2, e.gpsLongitudeRef);
    w.WriteRational(0x0004, 3, e.gpsLongitude);
  }

  method WriteGpsDetail(w: IfdWriter, e: Attributes)
    requires w.Valid() && w.tags >= |GpsDetail(e)| && w.value + ValuesSize(GpsDetail(e)) <= w.buf.Length
    modifies w, w.buf
    ensures w.Valid() && w.done == old(w.done) + GpsDetail(e) && w.tags == old(w.tags) - |GpsDetail(e)|
    ensures w.value == old(w.value) + ValuesSize(GpsDetail(e))
  {
    hide IfdWriter.Valid, IfdWriter.Layout, RationalBytes, CString, ValuesSize;
    GpsDetailSize(e);
    w.WriteByte(0x0005, 1, [e.gpsAltitudeRef]);
    w.WriteRational(0x0006, 1, [e.gpsAltitude]);
    w.WriteCString(0x001D, GPSDATESTAMP_LENGTH, e.gpsDateStamp);
    w.WriteRational(0x0007, 3, e.gpsTimestamp);
    var len := |e.gpsProcessingMethod|;
    if len > 0 {
      len := Min(len, 99);
      w.WriteUndef(0x001B, |ASCII_PREFIX| + len + 1, ASCII_PREFIX + e.gpsProcessingMethod[..len] + [0]);
    }
  }

  method WriteGpsIfd(buf: array<byte>, tiff: nat, at: nat, e: Attributes, fields: u16) returns (end: nat)
    requires fields == |GpsFields(e)|
    requires tiff <= at && at + DirSize(GpsFields(e)) <= buf.Length < 0x8000_0000
    modifies buf
    ensures buf[..] == Stamp(old(buf[..]), at, DirImage(at - tiff, GpsFields(e), 0))
    ensures end == at + DirSize(GpsFields(e))
  {
    hide GpsPosition, GpsDetail, ValuesSize, Stamp, DirImage, Partial, IfdWriter.Contents;
    ValuesSizeConcat(GpsPosition(e), GpsDetail(e));
    var w := new IfdWriter(buf, tiff, at, fields);
    WriteGpsPosition(w, e);
    WriteGpsDetail(w, e);
    assert w.done == GpsFields(e);
    w.Finish(true);
    end := w.value;
  }

  /** IFD1; `placeholder` is the value field of its last entry, the thumbnail's length, left 0. */
  method WriteFirstIfd(buf: array<byte>, tiff: nat, at: nat, e: Attributes, fields: u16, thumbBase: nat)
    returns (end: nat, placeholder: nat)
    requires fields == 6 && tiff <= thumbBase
    requires tiff <= at && at + DirSize(FirstFields(e, thumbBase - tiff, 0)) <= buf.Length < 0x8000_0000
    modifies buf
    ensures buf[..] == Stamp(old(buf[..]), at, DirImage(at - tiff, FirstFields(e, thumbBase - tiff, 0), 0))
    ensures end == at + 78 && placeholder == at + FIELDCOUNT_SIZE + 12 * 5 + 8
  {
    hide ValuesSize, Stamp, DirImage, Partial, IfdWriter.Contents, ShortBytes, Le32;
    FirstSize(e, thumbBase - tiff, 0);
    var w := new IfdWriter(buf, tiff, at, fields);
    w.WriteLong(0x0100, 1, e.widthThumb);
    w.WriteLong(0x0101, 1, e.heightThumb);
    w.WriteShort(0x0103, 1, [e.compressionScheme]);
    w.WriteShort(0x0112, 1, [e.orientation]);
    w.WriteLong(0x0201, 1, w.Offset(thumbBase));
    w.WriteLong(0x0202, 1, 0);
    placeholder := w.ifd - 4;
    assert w.done == FirstFields(e, thumbBase - tiff, 0);
    w.Finish(true);
    end := w.value;
  }

  /** The fields of IFD0 with its nested directories, up to but not including `Finish`. */
  method WriteZeroth(w: IfdWriter, e: Attributes, exifFields: u16, gpsFields: u16)
    requires w.Valid() && w.done == [] && w.tags == |ZerothFields(e)|
    requires exifFields == |ExifFields(e)| && (e.enableGps ==> gpsFields == |GpsFields(e)|)
    requires w.value + ValuesSize(ZerothFields(e)) <= w.buf.Length
    modifies w, w.buf
    ensures w.Valid() && w.done == ZerothFields(e) && w.tags == 0
    ensures w.value == old(w.value) + ValuesSize(ZerothFields(e))
  {
    hide ZerothHead, ZerothTexts, ExifFields, GpsFields, ValuesSize, Stamp, DirImage, Partial, IfdWriter.Contents;
    ZerothSize(e);
    WriteZerothHead(w, e);
    WriteZerothTexts(w, e);
    WriteExifSub(w, e, exifFields);
    if e.enableGps {
      WriteGpsSub(w, e, gpsFields);
    }
  }

  method WriteExifSub(w: IfdWriter, e: Attributes, fields: u16)
    requires w.Valid() && w.tags > 0 && fields == |ExifFields(e)|
    requires w.value + DirSize(ExifFields(e)) <= w.buf.Length
    modifies w, w.buf
    ensures w.Valid() && w.done == old(w.done) + [SubDir(EXIF_IFD_POINTER, ExifFields(e))] && w.tags == old(w.tags) - 1
    ensures w.value == old(w.value) + DirSize(ExifFields(e))
  {
    hide ExifFields, ValuesSize, Stamp, DirImage, Partial, IfdWriter.Contents;
    var sub := w.BeginSubIFD(EXIF_IFD_POINTER);
    ghost var mem := w.buf[..];
    var end := WriteExifIfd(w.buf, w.base, sub, e, fields);
    w.EndSubIFD(EXIF_IFD_POINTER, ExifFields(e), mem, end);
  }

  method WriteGpsSub(w: IfdWriter, e: Attributes, fields: u16)
    requires w.Valid() && w.tags > 0 && fields == |GpsFields(e)|
    requires w.value + DirSize(GpsFields(e)) <= w.buf.Length
    modifies w, w.buf
    ensures w.Valid() && w.done == old(w.done) + [SubDir(GPS_IFD_POINTER, GpsFields(e))] && w.tags == old(w.tags) - 1
    ensures w.value == old(w.value) + DirSize(GpsFields(e))
  {
    hide GpsFields, ValuesSize, Stamp, DirImage, Partial, IfdWriter.Contents;
    var sub := w.BeginSubIFD(GPS_IFD_POINTER);
    ghost var mem := w.buf[..];
    var end := WriteGpsIfd(w.buf, w.base, sub, e, fields);
    w.EndSubIFD(GPS_IFD_POINTER, GpsFields(e), mem, end);
  }
}
