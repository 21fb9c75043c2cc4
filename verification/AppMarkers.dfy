/** The application segments in front of the main JPEG stream: APP1 (Exif), the extra APPn and APP11. */
module AppMarkers {
  import opened Bytes
  import opened Tiff
  import opened IfdWriters
  import opened Exif
  import opened ExifWriter

  const MAX_SEGMENT_SIZE := 0xFFFF
  const MARKER_SIZE := 2
  const LENFIELD_SIZE := 2
  const OEM_RESERVED := 200
  const EXTRA_APPMARKER_MIN := 1
  const EXTRA_APPMARKER_LIMIT := 10
  const EXIF_IDENTIFIER: seq<byte> := [0x45, 0x78, 0x69, 0x66, 0, 0]
  const TIFF_HEADER: seq<byte> := [0x49, 0x49, 0x2A, 0, 8, 0, 0, 0]
  const TIFF_BASE := 10  // offset of the TIFF header from the APP1 marker

  /** `app_info_t`: the id and payload of one extra APPn segment. */
  datatype AppInfo = AppInfo(appid: int, data: seq<byte>) {
    predicate Valid() {
      && EXTRA_APPMARKER_MIN <= appid < EXTRA_APPMARKER_LIMIT
      && 0 < |data| <= MAX_SEGMENT_SIZE - LENFIELD_SIZE
    }
  }

  predicate ValidExtra(infos: seq<AppInfo>) {
    forall i :: 0 <= i < |infos| ==> infos[i].Valid()
  }

  // ---------------------------------------------------------------- images

  /** The size of the APP1 segment without its marker and without the thumbnail. */
  function App1Length(e: Attributes): nat {
    LENFIELD_SIZE + |EXIF_IDENTIFIER| + |TIFF_HEADER| + DirSize(ZerothFields(e)) + if e.enableThumb then 78 else 0
  }

  /** Offset from the TIFF header of IFD1, which follows IFD0 directly. */
  function FirstOffset(e: Attributes): nat {
    |TIFF_HEADER| + DirSize(ZerothFields(e))
  }

  ghost function FirstImage(e: Attributes, thumbLength: nat): (img: Image)
    ensures |img| == if e.enableThumb then 78 else 0
  {
    if e.enableThumb then
      FirstSize(e, FirstOffset(e) + 78, thumbLength);
      DirImage(FirstOffset(e), FirstFields(e, FirstOffset(e) + 78, thumbLength), 0)
    else []
  }

  /** The APP1 segment up to the end of its last directory. */
  ghost function App1Image(e: Attributes, length: nat, thumbLength: nat): (img: Image)
    ensures |img| == MARKER_SIZE + App1Length(e)
  {
    Lit([0xFF, 0xE1]) + Lit(Be16(U16(length))) + Lit(EXIF_IDENTIFIER + TIFF_HEADER)
    + DirImage(|TIFF_HEADER|, ZerothFields(e), if e.enableThumb then FirstOffset(e) else 0)
    + FirstImage(e, thumbLength)
  }

  /** What an update of APP1 stores: everything but the length, IFD0's next pointer and IFD1. */
  ghost function UpdateImage(e: Attributes): (img: Image) {
    Lit([0xFF, 0xE1]) + Blank(LENFIELD_SIZE) + Lit(EXIF_IDENTIFIER + TIFF_HEADER)
    + Partial(|TIFF_HEADER|, |ZerothFields(e)|, ZerothFields(e))
  }

  ghost function ExtraImage(info: AppInfo, reserveOnly: bool): (img: Image)
    ensures |img| == MARKER_SIZE + LENFIELD_SIZE + |info.data|
  {
    Lit([0xFF, 0xE0 + info.appid % 16]) + Lit(Be16(U16(|info.data| + LENFIELD_SIZE)))
    + if reserveOnly then Blank(|info.data|) else Lit(info.data)
  }

  function ExtraSize(infos: seq<AppInfo>): nat {
    if infos == [] then 0 else |infos[0].data| + MARKER_SIZE + LENFIELD_SIZE + ExtraSize(infos[1..])
  }

  ghost function ExtrasImage(infos: seq<AppInfo>, reserveOnly: bool): (img: Image)
    ensures |img| == ExtraSize(infos)
  {
    if infos == [] then [] else ExtraImage(infos[0], reserveOnly) + ExtrasImage(infos[1..], reserveOnly)
  }

  lemma {:induction false} ExtrasConcat(a: seq<AppInfo>, b: seq<AppInfo>, reserveOnly: bool)
    ensures ExtraSize(a + b) == ExtraSize(a) + ExtraSize(b)
    ensures ExtrasImage(a + b, reserveOnly) == ExtrasImage(a, reserveOnly) + ExtrasImage(b, reserveOnly)
  {
    hide ExtraImage;
    if a == [] {
      assert a + b == b;
    } else {
      assert (a + b)[1..] == a[1..] + b;
      ExtrasConcat(a[1..], b, reserveOnly);
      ConcatAssoc(ExtraImage(a[0], reserveOnly), ExtrasImage(a[1..], reserveOnly), ExtrasImage(b, reserveOnly));
    }
  }

  lemma NoExtras(reserveOnly: bool)
    ensures ExtraSize([]) == 0 && ExtrasImage([], reserveOnly) == []
  {
  }

  lemma ExtrasStep(infos: seq<AppInfo>, idx: nat, reserveOnly: bool)
    requires idx < |infos|
    ensures ExtraSize(infos[..idx + 1]) == ExtraSize(infos[..idx]) + |infos[idx].data| + MARKER_SIZE + LENFIELD_SIZE
    ensures ExtraSize(infos[..idx + 1]) <= ExtraSize(infos)
    ensures ExtrasImage(infos[..idx + 1], reserveOnly)
            == ExtrasImage(infos[..idx], reserveOnly) + ExtraImage(infos[idx], reserveOnly)
  {
    hide ExtraImage;
    assert infos[..idx + 1] == infos[..idx] + [infos[idx]] && infos == infos[..idx + 1] + infos[idx + 1..];
    ExtrasConcat(infos[..idx], [infos[idx]], reserveOnly);
    ExtrasConcat(infos[..idx + 1], infos[idx + 1..], reserveOnly);
    assert [infos[idx]][1..] == [];
  }

  lemma PaddingAligns(p: nat, align: nat)
    requires align > 0
    ensures p % align != 0 ==> (p + (align - p % align)) % align == 0
  {
    var x := p + (align - p % align);
    assert x == (p / align + 1) * align;
    MultipleOf(p / align + 1, align);
  }

  lemma MultipleOf(k: nat, n: nat)
    requires n > 0
    ensures k * n % n == 0
  {
    var x := k * n;
    var d := k - x / n;
    assert x % n == d * n;
    assert d >= 1 ==> d * n >= n;
    assert d <= -1 ==> d * n < 0;
  }

  /** An APP11 segment of length field `length`; its payload is left as it is. */
  ghost function App11Image(length: nat): (img: Image)
    requires length >= LENFIELD_SIZE
    ensures |img| == MARKER_SIZE + length
  {
    Lit([0xFF, 0xEB]) + Lit(Be16(U16(length))) + Blank(length - LENFIELD_SIZE)
  }

  /** What `PrepareAppWriter` accepts: it then knows the layout of everything `Write` will emit. */
  ghost predicate Acceptable(exif: Option<Attributes>, extra: Option<seq<AppInfo>>) {
    && (exif.Some? ==>
          var e := exif.value;
          if e.enableThumb then
            e.widthThumb >= 16 && e.heightThumb >= 16 && App1Length(e) <= MAX_SEGMENT_SIZE - OEM_RESERVED
          else App1Length(e) <= MAX_SEGMENT_SIZE)
    && (extra.Some? ==> ValidExtra(extra.value))
  }

  /** The greatest lengths in numbers, and the ids and sizes of extra segments. */
  lemma AcceptableIff(exif: Option<Attributes>, extra: Option<seq<AppInfo>>)
    ensures
      Acceptable(exif, extra) <==>
        && (exif.Some? ==> App1Length(exif.value) <= if exif.value.enableThumb then 65335 else 65535)
        && (exif.Some? && exif.value.enableThumb ==> exif.value.widthThumb >= 16 && exif.value.heightThumb >= 16)
        && (extra.Some? ==>
              forall info <- extra.value :: 1 <= info.appid <= 9 && 1 <= |info.data| <= 65533)
  {
    hide App1Length;
    if extra.Some? && forall info <- extra.value :: 1 <= info.appid <= 9 && 1 <= |info.data| <= 65533 {
      assert forall i :: 0 <= i < |extra.value| ==> extra.value[i] in extra.value;
    }
  }

  /** `size_t` subtraction. */
  function U64(x: int): nat { x % 0x1_0000_0000_0000_0000 }

  lemma App1LengthIs(e: Attributes)
    ensures App1Length(e) == 16 + ZerothLength(e) + ExifLength(e) + (if e.enableGps then GpsLength(e) else 0)
                             + (if e.enableThumb then 78 else 0)
  {
    hide ZerothFields, ExifFields, GpsFields, TextSize, BlobSize, MethodSize;
    ZerothSize(e);
    ZerothHeadSize(e);
    ZerothTextsSize(e);
    ExifSize(e);
    ExifScalarsSize(e);
    GpsSize(e);
  }

  /** IFD0 without the directories nested in it. */
  function ZerothLength(e: Attributes): nat {
    42 + 12 * |ZerothFields(e)| + TextSize(e.maker) + TextSize(e.model) + TextSize(e.software)
  }

  function ExifLength(e: Attributes): nat {
    163 + 12 * |ExifFields(e)| + BlobSize(e.makerNote) + BlobSize(e.userComment) + TextSize(e.uniqueId)
  }

  function GpsLength(e: Attributes): nat {
    97 + 12 * |GpsFields(e)| + MethodSize(e)
  }

  lemma FieldCounts(e: Attributes)
    ensures |ZerothFields(e)| == 7 + |OptionalText(0, e.maker)| + |OptionalText(0, e.model)| + |OptionalText(0, e.software)|
                                 + if e.enableGps then 1 else 0
    ensures |ExifFields(e)| == 34 + |OptionalText(0, e.uniqueId)| + |OptionalUndef(0, e.makerNote)|
                               + |OptionalUndef(0, e.userComment)|
    ensures |GpsFields(e)| == 9 + if e.gpsProcessingMethod == [] then 0 else 1
  {
  }

  class AppMarkerWriter {
    const buf: array<byte>
    const address: nat           // where the buffer is mapped
    var appBase: nat
    var app1End: nat
    var maxThumbSize: nat
    var szApp1: u16
    var szApp11: u16
    var n0thIFDFields: u16
    var n1stIFDFields: u16
    var nExifIFDFields: u16
    var nGPSIFDFields: u16
    var exif: Option<Attributes>
    var extra: Option<seq<AppInfo>>
    var mainBase: nat
    var thumbBase: Option<nat>
    var thumbSizePlaceholder: Option<nat>

    constructor (buf: array<byte>, address: nat)
      ensures this.buf == buf && this.address == address && exif == None && extra == None
    {
      this.buf := buf;
      this.address := address;
      appBase, app1End, maxThumbSize, szApp1, szApp11, mainBase := 0, 0, 0, 0, 0, 0;
      n0thIFDFields, n1stIFDFields, nExifIFDFields, nGPSIFDFields := 0, 0, 0, 0;
      exif, extra, thumbBase, thumbSizePlaceholder := None, None, None, None;
    }

    /** The sizes and counts are those of the directories that `e` will be written to. */
    ghost predicate Measured(e: Attributes)
      reads this`szApp1, this`maxThumbSize, this`thumbBase, this`appBase
      reads this`n0thIFDFields, this`n1stIFDFields, this`nExifIFDFields, this`nGPSIFDFields
    {
      && szApp1 == App1Length(e)
      && n0thIFDFields == |ZerothFields(e)|
      && nExifIFDFields == |ExifFields(e)|
      && (e.enableGps ==> nGPSIFDFields == |GpsFields(e)|)
      && (if e.enableThumb then
            && n1stIFDFields == 6
            && thumbBase == Some(appBase + MARKER_SIZE + App1Length(e))
            && maxThumbSize == MAX_SEGMENT_SIZE - App1Length(e) - OEM_RESERVED
          else maxThumbSize == 0 && thumbBase == None)
    }

    ghost predicate Prepared()
      reads this`exif, this`extra, this`szApp1, this`maxThumbSize, this`thumbBase, this`appBase
      reads this`n0thIFDFields, this`n1stIFDFields, this`nExifIFDFields, this`nGPSIFDFields
    {
      && Acceptable(exif, extra)
      && (exif.Some? ==> Measured(exif.value))
      && (exif.None? ==> szApp1 == 0 && maxThumbSize == 0 && thumbBase == None)
    }

    method PrepareAppWriter(base: nat, exif: Option<Attributes>, extra: Option<seq<AppInfo>>)
      modifies this
      ensures appBase == base && this.exif == exif && thumbSizePlaceholder == None
      ensures app1End == 0 && szApp11 == old(szApp11)
      ensures Acceptable(exif, extra) ==> Prepared() && this.extra == extra
      ensures exif.Some? && exif.value.enableThumb && (exif.value.widthThumb < 16 || exif.value.heightThumb < 16) ==>
                szApp1 == 0 && thumbBase == None && this.extra == old(this.extra)
      ensures extra.Some? && !ValidExtra(extra.value) ==> this.extra == old(this.extra)
      ensures Acceptable(exif, extra) && exif.Some? && exif.value.enableThumb ==>
                && maxThumbSize == 65535 - 200 - App1Length(exif.value)
                && thumbBase == Some(base + 2 + App1Length(exif.value))
    {
      hide ZerothFields, ExifFields, GpsFields, App1Length, ValidExtra;
      appBase := base;
      this.exif := exif;
      Init();
      if exif.Some? {
        var ok := MeasureApp1(exif.value);
        if !ok {
          return;
        }
      }
      if extra.Some? {
        var ok := CheckExtra(extra.value);
        if !ok {
          return;
        }
      }
      this.extra := extra;
    }

    /** The length of APP11 and the extra segments are not reset. */
    method Init()
      modifies this`app1End, this`szApp1, this`maxThumbSize, this`thumbBase, this`thumbSizePlaceholder
      modifies this`n0thIFDFields, this`n1stIFDFields, this`nExifIFDFields, this`nGPSIFDFields
      ensures app1End == szApp1 == maxThumbSize == 0 && thumbBase == None && thumbSizePlaceholder == None
      ensures n0thIFDFields == n1stIFDFields == nExifIFDFields == nGPSIFDFields == 0
    {
      app1End, szApp1, maxThumbSize := 0, 0, 0;
      n0thIFDFields, n1stIFDFields, nExifIFDFields, nGPSIFDFields := 0, 0, 0, 0;
      thumbBase, thumbSizePlaceholder := None, None;
    }

    static method CheckExtra(infos: seq<AppInfo>) returns (ok: bool)
      ensures ok == ValidExtra(infos)
    {
      for idx := 0 to |infos|
        invariant forall i :: 0 <= i < idx ==> infos[i].Valid()
      {
        if infos[idx].appid < EXTRA_APPMARKER_MIN || infos[idx].appid >= EXTRA_APPMARKER_LIMIT {
          return false;
        }
        if |infos[idx].data| == 0 || |infos[idx].data| > MAX_SEGMENT_SIZE - LENFIELD_SIZE {
          return false;
        }
      }
      return true;
    }

    /** The first pass over the attributes: sizes only, nothing is written. */
    method MeasureApp1(e: Attributes) returns (ok: bool)
      requires exif == Some(e) && szApp1 == 0 && thumbBase == None && maxThumbSize == 0
      modifies this`szApp1, this`maxThumbSize, this`thumbBase
      modifies this`n0thIFDFields, this`n1stIFDFields, this`nExifIFDFields, this`nGPSIFDFields
      ensures ok == !(e.enableThumb && (e.widthThumb < 16 || e.heightThumb < 16))
      ensures n0thIFDFields == |ZerothFields(e)| && nExifIFDFields == |ExifFields(e)|
      ensures e.enableGps ==> nGPSIFDFields == |GpsFields(e)|
      ensures szApp1 == if ok then U16(App1Length(e)) else 0
      ensures if e.enableThumb && ok then
                && n1stIFDFields == 6
                && thumbBase == Some(appBase + MARKER_SIZE + App1Length(e))
                && maxThumbSize == U64(MAX_SEGMENT_SIZE - App1Length(e) - OEM_RESERVED)
              else maxThumbSize == 0 && thumbBase == None
    {
      hide ZerothFields, ExifFields, GpsFields, ZerothLength, ExifLength, GpsLength, App1Length;
      App1LengthIs(e);
      var applen := LENFIELD_SIZE + |EXIF_IDENTIFIER| + |TIFF_HEADER|;
      var len := MeasureZeroth(e);
      applen := applen + len;
      len := MeasureExif(e);
      applen := applen + len;
      if e.enableGps {
        len := MeasureGps(e);
        applen := applen + len;
      }
      if e.enableThumb {
        if e.widthThumb < 16 || e.heightThumb < 16 {
          return false;
        }
        n1stIFDFields := 6;
        applen := applen + FIELDCOUNT_SIZE + VALOFF_SIZE;
        applen := applen + 12 * n1stIFDFields;
        thumbBase := Some(appBase + MARKER_SIZE + applen);
        maxThumbSize := U64(MAX_SEGMENT_SIZE - applen - OEM_RESERVED);
      }
      szApp1 := U16(applen);
      return true;
    }

    method MeasureZeroth(e: Attributes) returns (applen: nat)
      modifies this`n0thIFDFields
      ensures n0thIFDFields == |ZerothFields(e)| && applen == ZerothLength(e)
    {
      hide ZerothFields;
      FieldCounts(e);
      applen := FIELDCOUNT_SIZE + VALOFF_SIZE;
      n0thIFDFields := 7;
      applen := applen + 12 * n0thIFDFields;
      applen := applen + 8 * 2;
      applen := applen + DATETIME_LENGTH;
      if |e.maker| > 0 {
        n0thIFDFields := n0thIFDFields + 1;
        applen := applen + FIELD_SIZE;
        if |e.maker| > 3 { applen := applen + |e.maker| + 1; }
      }
      if |e.software| > 0 {
        n0thIFDFields := n0thIFDFields + 1;
        applen := applen + FIELD_SIZE;
        if |e.software| > 3 { applen := applen + |e.software| + 1; }
      }
      if |e.model| > 0 {
        n0thIFDFields := n0thIFDFields + 1;
        applen := applen + FIELD_SIZE;
        if |e.model| > 3 { applen := applen + |e.model| + 1; }
      }
      if e.enableGps {
        n0thIFDFields := n0thIFDFields + 1;
        applen := applen + FIELD_SIZE;
      }
    }

    method MeasureExif(e: Attributes) returns (applen: nat)
      modifies this`nExifIFDFields
      ensures nExifIFDFields == |ExifFields(e)| && applen == ExifLength(e)
    {
      hide ExifFields;
      FieldCounts(e);
      nExifIFDFields := 28;
      applen := FIELDCOUNT_SIZE + VALOFF_SIZE;
      applen := applen + 12 * nExifIFDFields;
      applen := applen + 8 * 9;
      nExifIFDFields := nExifIFDFields + 2;
      applen := applen + (FIELD_SIZE + DATETIME_LENGTH) * 2;
      nExifIFDFields := nExifIFDFields + 3;
      applen := applen + (FIELD_SIZE + SUBSECTIME_LENGTH) * 3;
      if |e.uniqueId| > 0 {
        nExifIFDFields := nExifIFDFields + 1;
        applen := applen + FIELD_SIZE;
        if |e.uniqueId| > 3 { applen := applen + |e.uniqueId| + 1; }
      }
      if |e.makerNote| > 0 {
        nExifIFDFields := nExifIFDFields + 1;
        applen := applen + FIELD_SIZE;
        if |e.makerNote| > 4 { applen := applen + |e.makerNote|; }
      }
      if |e.userComment| > 0 {
        nExifIFDFields := nExifIFDFields + 1;
        applen := applen + FIELD_SIZE;
        if |e.userComment| > 4 { applen := applen + |e.userComment|; }
      }
      // Interoperability sub-IFD
      nExifIFDFields := nExifIFDFields + 1;
      applen := applen + FIELD_SIZE + FIELDCOUNT_SIZE + VALOFF_SIZE + FIELD_SIZE * 2;
    }

    method MeasureGps(e: Attributes) returns (applen: nat)
      modifies this`nGPSIFDFields
      ensures nGPSIFDFields == |GpsFields(e)| && applen == GpsLength(e)
    {
      hide GpsFields;
      FieldCounts(e);
      nGPSIFDFields := 8;
      applen := FIELDCOUNT_SIZE + VALOFF_SIZE;
      applen := applen + 12 * nGPSIFDFields;
      applen := applen + 8 * 10;
      nGPSIFDFields := nGPSIFDFields + 1;
      applen := applen + FIELD_SIZE + GPSDATESTAMP_LENGTH;
      var len := Min(|e.gpsProcessingMethod|, MAX_GPS_PROCESSINGMETHOD_SIZE - |ASCII_PREFIX| - 1);
      if len > 0 {
        nGPSIFDFields := nGPSIFDFields + 1;
        applen := applen + FIELD_SIZE + len + |ASCII_PREFIX| + 1;
      }
    }

    /** The APP1 segment as written for `reserveThumbnailSpace`, with the reserved space after it left alone. */
    ghost function WrittenApp1(reserveThumbnailSpace: bool): (img: Image)
      reads this`exif, this`szApp1, this`maxThumbSize
    {
      match exif
      case None => []
      case Some(e) =>
        var space := if reserveThumbnailSpace then maxThumbSize + OEM_RESERVED else 0;
        App1Image(e, szApp1 + space, 0) + Blank(if e.enableThumb then space else 0)
    }

    method WriteAPP1(current: nat, reserveThumbnailSpace: bool) returns (end: nat)
      requires Prepared() && current == appBase
      requires current + |WrittenApp1(reserveThumbnailSpace)| <= buf.Length < 0x8000_0000
      modifies this`thumbSizePlaceholder, buf
      ensures buf[..] == Stamp(old(buf[..]), current, old(WrittenApp1(reserveThumbnailSpace)))
      ensures end == current + |old(WrittenApp1(reserveThumbnailSpace))|
      ensures exif.Some? && exif.value.enableThumb ==>
                thumbSizePlaceholder == Some(current + TIFF_BASE + FirstOffset(exif.value) + FIELDCOUNT_SIZE + 12 * 5 + 8)
      ensures !(exif.Some? && exif.value.enableThumb) ==> thumbSizePlaceholder == old(thumbSizePlaceholder)
    {
      hide ZerothFields, ExifFields, GpsFields, Stamp, DirImage, DirSize, Lit, Blank;
      if exif.None? {
        StampEmpty(buf[..], current);
        return current;
      }
      var e := exif.value;
      ghost var mem := buf[..];
      var len := szApp1;
      if reserveThumbnailSpace {
        len := U16(len + maxThumbSize + OEM_RESERVED);
      }
      var tiff := WriteApp1Head(current, len);
      end := WriteApp1Directories(tiff, e);
      ghost var head := Lit([0xFF, 0xE1]) + Lit(Be16(len)) + Lit(EXIF_IDENTIFIER + TIFF_HEADER);
      ghost var next := if e.enableThumb then FirstOffset(e) else 0;
      ghost var dir, first := DirImage(|TIFF_HEADER|, ZerothFields(e), next), FirstImage(e, 0);
      StampConcat(mem, current, head, dir + first);
      ConcatAssoc(head, dir, first);
      ghost var space := if e.enableThumb && reserveThumbnailSpace then maxThumbSize + OEM_RESERVED else 0;
      StampBlank(mem, current, head + dir + first, space);
      if e.enableThumb && reserveThumbnailSpace {
        end := end + maxThumbSize + OEM_RESERVED;
      }
    }

    /** IFD0 and, behind it, IFD1 when there is a thumbnail. */
    method WriteApp1Directories(tiff: nat, e: Attributes) returns (end: nat)
      requires Measured(e) && tiff == appBase + TIFF_BASE
      requires tiff + App1Length(e) - 8 <= buf.Length < 0x8000_0000
      modifies this`thumbSizePlaceholder, buf
      ensures buf[..] == Stamp(old(buf[..]), tiff + |TIFF_HEADER|,
                               DirImage(|TIFF_HEADER|, ZerothFields(e), if e.enableThumb then FirstOffset(e) else 0)
                               + FirstImage(e, 0))
      ensures end == tiff + App1Length(e) - 8
      ensures thumbSizePlaceholder == if e.enableThumb then Some(tiff + FirstOffset(e) + FIELDCOUNT_SIZE + 12 * 5 + 8)
                                      else old(thumbSizePlaceholder)
    {
      hide ZerothFields, ExifFields, GpsFields, Stamp, DirImage, ValuesSize, Partial, IfdWriter.Contents;
      ghost var mem := buf[..];
      var at := tiff + |TIFF_HEADER|;
      var w := new IfdWriter(buf, tiff, at, n0thIFDFields);
      WriteZeroth(w, e, nExifIFDFields, nGPSIFDFields);
      ghost var next := if e.enableThumb then FirstOffset(e) else 0;
      ghost var dir := DirImage(|TIFF_HEADER|, ZerothFields(e), next);
      if e.enableThumb {
        w.Finish(false);
        FirstSize(e, thumbBase.value - tiff, 0);
        var placeholder;
        end, placeholder := WriteFirstIfd(buf, tiff, w.value, e, n1stIFDFields, thumbBase.value);
        thumbSizePlaceholder := Some(placeholder);
        StampConcat(mem, at, dir, FirstImage(e, 0));
      } else {
        w.Finish(true);
        end := w.value;
        assert dir + FirstImage(e, 0) == dir;
      }
    }

    method WriteApp1Head(at: nat, len: u16) returns (tiff: nat)
      requires at + TIFF_BASE + |TIFF_HEADER| <= buf.Length
      modifies buf
      ensures buf[..] == Stamp(old(buf[..]), at, Lit([0xFF, 0xE1]) + Lit(Be16(len)) + Lit(EXIF_IDENTIFIER + TIFF_HEADER))
      ensures tiff == at + TIFF_BASE
    {
      hide Stamp, Lit;
      ghost var mem := buf[..];
      Store(buf, at, [0xFF, 0xE1]);
      Store(buf, at + 2, Be16(len));
      StampConcat(mem, at, Lit([0xFF, 0xE1]), Lit(Be16(len)));
      tiff := WriteIdentifiers(at + 4);
      StampConcat(mem, at, Lit([0xFF, 0xE1]) + Lit(Be16(len)), Lit(EXIF_IDENTIFIER + TIFF_HEADER));
    }

    method WriteIdentifiers(at: nat) returns (tiff: nat)
      requires at + |EXIF_IDENTIFIER| + |TIFF_HEADER| <= buf.Length
      modifies buf
      ensures buf[..] == Stamp(old(buf[..]), at, Lit(EXIF_IDENTIFIER + TIFF_HEADER))
      ensures tiff == at + |EXIF_IDENTIFIER|
    {
      hide Stamp, Lit;
      ghost var mem := buf[..];
      Store(buf, at, EXIF_IDENTIFIER);
      tiff := at + |EXIF_IDENTIFIER|;
      Store(buf, tiff, TIFF_HEADER);
      StampConcat(mem, at, Lit(EXIF_IDENTIFIER), Lit(TIFF_HEADER));
      LitConcat(EXIF_IDENTIFIER, TIFF_HEADER);
    }

    /** `WriteAPP1` in updating mode: the length, IFD0's next pointer and IFD1 are never touched. */
    method Update()
      requires exif.Some? && Measured(exif.value)
      requires appBase + |UpdateImage(exif.value)| <= buf.Length < 0x8000_0000
      modifies buf
      ensures buf[..] == Stamp(old(buf[..]), appBase, UpdateImage(exif.value))
    {
      hide ZerothFields, ExifFields, GpsFields, Stamp, Partial, ValuesSize, Lit, Blank;
      var e := exif.value;
      ghost var mem := buf[..];
      Store(buf, appBase, [0xFF, 0xE1]);
      StampBlank(mem, appBase, Lit([0xFF, 0xE1]), LENFIELD_SIZE);
      ghost var front := Lit([0xFF, 0xE1]) + Blank(LENFIELD_SIZE);
      var tiff := WriteIdentifiers(appBase + MARKER_SIZE + LENFIELD_SIZE);
      ghost var ids := Lit(EXIF_IDENTIFIER + TIFF_HEADER);
      StampConcat(mem, appBase, front, ids);
      var w := new IfdWriter(buf, tiff, tiff + |TIFF_HEADER|, n0thIFDFields);
      WriteZeroth(w, e, nExifIFDFields, nGPSIFDFields);
      StampConcat(mem, appBase, front + ids, Partial(|TIFF_HEADER|, |ZerothFields(e)|, ZerothFields(e)));
    }

    ghost function Extras(): seq<AppInfo>
      reads this`extra
    {
      if extra.Some? then extra.value else []
    }

    method WriteAPPX(current: nat, justReserve: bool) returns (end: nat)
      requires extra.Some? ==> ValidExtra(extra.value)
      requires current + ExtraSize(Extras()) <= buf.Length
      modifies buf
      ensures buf[..] == Stamp(old(buf[..]), current, ExtrasImage(Extras(), justReserve))
      ensures end == current + ExtraSize(Extras())
    {
      hide Stamp, ExtraImage, ExtrasImage, ExtraSize;
      if extra.None? {
        NoExtras(justReserve);
        StampEmpty(buf[..], current);
        return current;
      }
      var infos := extra.value;
      ghost var mem := buf[..];
      end := current;
      NoExtras(justReserve);
      StampEmpty(mem, current);
      for idx := 0 to |infos|
        invariant end == current + ExtraSize(infos[..idx]) <= buf.Length
        invariant buf[..] == Stamp(mem, current, ExtrasImage(infos[..idx], justReserve))
      {
        ExtrasStep(infos, idx, justReserve);
        ghost var done := ExtrasImage(infos[..idx], justReserve);
        end := WriteExtra(end, infos[idx], justReserve);
        StampConcat(mem, current, done, ExtraImage(infos[idx], justReserve));
      }
      assert infos[..|infos|] == infos;
    }

    method WriteExtra(at: nat, info: AppInfo, justReserve: bool) returns (end: nat)
      requires info.Valid() && at + MARKER_SIZE + LENFIELD_SIZE + |info.data| <= buf.Length
      modifies buf
      ensures buf[..] == Stamp(old(buf[..]), at, ExtraImage(info, justReserve))
      ensures end == at + MARKER_SIZE + LENFIELD_SIZE + |info.data|
    {
      hide Stamp, Lit, Blank;
      ghost var mem := buf[..];
      var len := U16(|info.data| + LENFIELD_SIZE);
      Store(buf, at, [0xFF, 0xE0 + info.appid % 16]);
      Store(buf, at + 2, Be16(len));
      ghost var head := Lit([0xFF, 0xE0 + info.appid % 16]);
      StampConcat(mem, at, head, Lit(Be16(len)));
      if justReserve {
        StampBlank(mem, at, head + Lit(Be16(len)), |info.data|);
      } else {
        Store(buf, at + 4, info.data);
        StampConcat(mem, at, head + Lit(Be16(len)), Lit(info.data));
      }
      end := at + 4 + |info.data|;
    }

    /** The bytes `WriteAPP11` adds so that what follows the payload's fixed part is aligned. */
    function Padding(current: nat, align: nat): (p: nat)
      requires align > 0
      ensures p < align && (address + current + MARKER_SIZE + LENFIELD_SIZE + p) % align == 0
    {
      var len := (address + current + MARKER_SIZE + LENFIELD_SIZE) % align;
      PaddingAligns(address + current + MARKER_SIZE + LENFIELD_SIZE, align);
      if len != 0 then align - len else len
    }

    ghost function WrittenApp11(current: nat, dummy: nat, align: nat): (img: Image)
      requires align > 0
      reads this`exif, this`extra
    {
      if (dummy == 0 && align == 1) || (exif.None? && extra.None?) then []
      else App11Image(Padding(current, align) + dummy + LENFIELD_SIZE)
    }

    method WriteAPP11(current: nat, dummy: nat, align: nat) returns (end: nat)
      requires align > 0 && align + dummy + MARKER_SIZE + LENFIELD_SIZE < 0x1_0000
      requires current + |WrittenApp11(current, dummy, align)| <= buf.Length
      modifies buf
      ensures buf[..] == Stamp(old(buf[..]), current, WrittenApp11(current, dummy, align))
      ensures end == current + |WrittenApp11(current, dummy, align)| && end - current < 0x1_0000
    {
      hide Stamp, Lit, Blank, AppMarkerWriter.Padding;
      if dummy == 0 && align == 1 {
        StampEmpty(buf[..], current);
        return current;
      }
      if exif.None? && extra.None? {
        StampEmpty(buf[..], current);
        return current;
      }
      ghost var mem := buf[..];
      var len := U16(Padding(current, align) + dummy + LENFIELD_SIZE);
      Store(buf, current, [0xFF, 0xEB]);
      Store(buf, current + 2, Be16(len));
      StampConcat(mem, current, Lit([0xFF, 0xEB]), Lit(Be16(len)));
      StampBlank(mem, current, Lit([0xFF, 0xEB]) + Lit(Be16(len)), len - LENFIELD_SIZE);
      end := current + 2 + len;
    }

    /** Everything `Write` puts in front of the main stream. */
    ghost function Header(reserveThumbnailSpace: bool, dummy: nat, align: nat, reserveDebug: bool): (img: Image)
      requires align > 0
      reads this`appBase, this`exif, this`extra, this`szApp1, this`maxThumbSize
    {
      var front := WrittenApp1(reserveThumbnailSpace) + ExtrasImage(Extras(), reserveDebug);
      front + WrittenApp11(appBase + |front|, dummy, align)
    }

    method Write(reserveThumbnailSpace: bool, dummy: nat, align: nat, reserveDebug: bool)
      requires Prepared() && dummy <= appBase
      requires reserveThumbnailSpace ==> exif.Some? && exif.value.enableThumb
      requires align > 0 && align + dummy + MARKER_SIZE + LENFIELD_SIZE < 0x1_0000
      requires appBase + |Header(reserveThumbnailSpace, dummy, align, reserveDebug)| <= buf.Length < 0x8000_0000
      modifies this`app1End, this`szApp11, this`mainBase, this`thumbSizePlaceholder, buf
      ensures buf[..] == Stamp(old(buf[..]), appBase, old(Header(reserveThumbnailSpace, dummy, align, reserveDebug)))
      ensures app1End == appBase + |old(WrittenApp1(reserveThumbnailSpace))|
      ensures mainBase + dummy == appBase + |old(Header(reserveThumbnailSpace, dummy, align, reserveDebug))|
      ensures szApp11 == mainBase + dummy - app1End - ExtraSize(Extras())
      ensures exif.Some? && exif.value.enableThumb ==>
                thumbSizePlaceholder == Some(appBase + TIFF_BASE + FirstOffset(exif.value) + FIELDCOUNT_SIZE + 12 * 5 + 8)
      ensures !(exif.Some? && exif.value.enableThumb) ==> thumbSizePlaceholder == old(thumbSizePlaceholder)
    {
      hide Stamp, ExtrasImage, ExtraSize, App11Image, AppMarkerWriter.WrittenApp1, AppMarkerWriter.WrittenApp11;
      hide AppMarkerWriter.Measured, AppMarkerWriter.Padding, ZerothFields, FirstOffset, ValidExtra, App1Length;
      ghost var mem := buf[..];
      ghost var app1 := WrittenApp1(reserveThumbnailSpace);
      ghost var appX := ExtrasImage(Extras(), reserveDebug);
      app1End := WriteAPP1(appBase, reserveThumbnailSpace);
      var appXend := WriteAPPX(app1End, reserveDebug);
      StampConcat(mem, appBase, app1, appX);
      var app11end := WriteAPP11(appXend, dummy, align);
      StampConcat(mem, appBase, app1 + appX, WrittenApp11(appXend, dummy, align));
      szApp11 := app11end - appXend;
      mainBase := app11end - dummy;
    }

    predicate IsThumbSpaceReserved()
      reads this`app1End, this`appBase, this`szApp1, this`maxThumbSize
    {
      app1End - appBase == szApp1 + maxThumbSize + OEM_RESERVED + MARKER_SIZE
    }

    method CalculateAPPSize(thumblen: nat) returns (appsize: nat)
      ensures appsize == (if szApp1 > 0 then szApp1 + MARKER_SIZE else 0) + ExtraSize(Extras())
                         + (if IsThumbSpaceReserved() then maxThumbSize + OEM_RESERVED else Min(maxThumbSize, thumblen))
                         + szApp11
    {
      hide ExtraSize;
      appsize := 0;
      if szApp1 > 0 {
        appsize := appsize + szApp1 + MARKER_SIZE;
      }
      NoExtras(true);
      if extra.Some? {
        var infos := extra.value;
        ghost var front := appsize;
        for idx := 0 to |infos|
          invariant appsize == front + ExtraSize(infos[..idx])
        {
          ExtrasStep(infos, idx, true);
          appsize := appsize + |infos[idx].data| + MARKER_SIZE + LENFIELD_SIZE;
        }
        assert infos[..|infos|] == infos;
      }
      if IsThumbSpaceReserved() {
        appsize := appsize + maxThumbSize + OEM_RESERVED;
      } else {
        appsize := appsize + Min(maxThumbSize, thumblen);
      }
      appsize := appsize + szApp11;
    }

    method Finalize(thumbsize: nat)
      requires thumbSizePlaceholder.Some? ==> thumbSizePlaceholder.value + 4 <= buf.Length
      modifies this`thumbSizePlaceholder, buf
      ensures thumbSizePlaceholder == None
      ensures buf[..] == match old(thumbSizePlaceholder)
                         case None => old(buf[..])
                         case Some(p) => Stamp(old(buf[..]), p, Lit(Le32(U32(thumbsize))))
    {
      if thumbSizePlaceholder.Some? {
        Store(buf, thumbSizePlaceholder.value, Le32(U32(thumbsize)));
        thumbSizePlaceholder := None;
      }
    }

    method UpdateApp1Size(amount: nat)
      requires appBase + MARKER_SIZE + LENFIELD_SIZE <= buf.Length
      modifies buf
      ensures buf[..] == Stamp(old(buf[..]), appBase + MARKER_SIZE, Lit(Be16(U16(szApp1 + amount))))
    {
      Store(buf, appBase + MARKER_SIZE, Be16(U16(szApp1 + amount)));
    }
  }
}
