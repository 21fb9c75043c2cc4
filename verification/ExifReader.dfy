/** What a reader of Exif 2.2 makes of a segment: attributes looked up by their tags and decoded from the bytes. */
module ExifReader {
  import opened Bytes
  import opened Tiff
  import opened IfdWriters
  import opened Exif
  import opened ExifWriter
  import opened AppMarkers
  import opened ExifSegment

  // ---------------------------------------------------------------- looking fields up

  /** The first field with the tag. */
  function Find(dir: seq<Field>, tag: u16): Option<Field> {
    if dir == [] then None else if dir[0].tag == tag then Some(dir[0]) else Find(dir[1..], tag)
  }

  /** The value of a field of the given type, by its tag. */
  function Data(dir: seq<Field>, tag: u16, typ: FieldType): Option<seq<byte>> {
    match Find(dir, tag)
    case Some(Value(_, t, data)) => if t == typ then Some(data) else None
    case _ => None
  }

  /** The directory that a field points to, by its tag. */
  function Nested(dir: seq<Field>, tag: u16): Option<seq<Field>> {
    match Find(dir, tag)
    case Some(SubDir(_, nested)) => Some(nested)
    case _ => None
  }

  /** No tag occurs twice. */
  ghost predicate Unique(dir: seq<Field>) {
    forall i, j :: 0 <= i < j < |dir| ==> dir[i].tag != dir[j].tag
  }

  ghost predicate Contains(dir: seq<Field>, fields: seq<Field>) {
    forall f :: f in fields ==> f in dir
  }

  lemma {:induction false} FindIt(dir: seq<Field>, f: Field)
    requires Unique(dir) && f in dir
    ensures Find(dir, f.tag) == Some(f)
  {
    if dir[0] != f {
      var i :| 0 <= i < |dir| && dir[i] == f;
      assert dir[0].tag != dir[i].tag;
      assert forall i, j :: 0 <= i < j < |dir[1..]| ==> dir[1..][i] == dir[i + 1] && dir[1..][j] == dir[j + 1];
      FindIt(dir[1..], f);
    }
  }

  lemma {:induction false} FindNone(dir: seq<Field>, tag: u16)
    requires forall f :: f in dir ==> f.tag != tag
    ensures Find(dir, tag) == None
  {
    if dir != [] {
      FindNone(dir[1..], tag);
    }
  }

  /** The field types by their codes, and the bytes of one component (TIFF 6.0 section 2). */
  lemma TypesOfTiff(code: u16)
    ensures
      FromCode(code)
      == (if code == 1 then Some(BYTE) else if code == 2 then Some(ASCII) else if code == 3 then Some(SHORT)
          else if code == 4 then Some(LONG) else if code == 5 then Some(RATIONAL) else if code == 7 then Some(UNDEFINED)
          else if code == 10 then Some(SRATIONAL) else None)
    ensures FromCode(code).Some? ==>
              FromCode(code).value.Size() == (if code == 3 then 2 else if code == 4 then 4 else if code in {5, 10} then 8 else 1)
              && FromCode(code).value.Code() == code
  {
  }

  // ---------------------------------------------------------------- decoding values

  ghost predicate HasShort(dir: seq<Field>, tag: u16, v: int) {
    match Data(dir, tag, SHORT)
    case Some(data) => |data| == 2 && GetLe16(data, 0) == v
    case None => false
  }

  ghost predicate HasLong(dir: seq<Field>, tag: u16, v: int) {
    match Data(dir, tag, LONG)
    case Some(data) => |data| == 4 && GetLe32(data, 0) == v
    case None => false
  }

  /** Numerator first, then denominator. */
  ghost predicate HasRationals(dir: seq<Field>, tag: u16, typ: FieldType, rs: seq<Rational>) {
    match Data(dir, tag, typ)
    case Some(data) =>
      |data| == 8 * |rs| && forall i :: 0 <= i < |rs| ==> rs[i] == Rational(GetLe32(data, 8 * i), GetLe32(data, 8 * i + 4))
    case None => false
  }

  ghost predicate HasBytes(dir: seq<Field>, tag: u16, typ: FieldType, bytes: seq<byte>) {
    Data(dir, tag, typ) == Some(bytes)
  }

  /** The bytes in front of the first 0. */
  function Chars(s: seq<byte>): seq<byte> {
    if s == [] || s[0] == 0 then [] else [s[0]] + Chars(s[1..])
  }

  /** A text in `count` bytes, the last of which is 0. */
  ghost predicate HasText(dir: seq<Field>, tag: u16, text: seq<byte>, count: nat) {
    match Data(dir, tag, ASCII)
    case Some(data) => 0 < |data| == count && data[count - 1] == 0 && Chars(data) == Chars(text[..Min(|text|, count - 1)])
    case None => false
  }

  /** A text that is left out when empty, and never cut. */
  ghost predicate HasOptionalText(dir: seq<Field>, tag: u16, text: seq<byte>) {
    if text == [] then Find(dir, tag) == None else HasText(dir, tag, text, |text| + 1)
  }

  ghost predicate HasOptionalBytes(dir: seq<Field>, tag: u16, bytes: seq<byte>) {
    if bytes == [] then Find(dir, tag) == None else HasBytes(dir, tag, UNDEFINED, bytes)
  }

  // ---------------------------------------------------------------- what the directories say, by the tags of Exif 2.2

  ghost predicate ZerothSays(dir: seq<Field>, e: Attributes) {
    && HasOptionalText(dir, 0x010F, e.maker)
    && HasOptionalText(dir, 0x0110, e.model)
    && HasShort(dir, 0x0112, e.orientation)
    && HasRationals(dir, 0x011A, RATIONAL, [e.xResolution])
    && HasRationals(dir, 0x011B, RATIONAL, [e.yResolution])
    && HasShort(dir, 0x0128, e.resolutionUnit)
    && HasOptionalText(dir, 0x0131, e.software)
    && HasText(dir, 0x0132, e.dateTime, 20)
    && HasShort(dir, 0x0213, e.ycbcrPositioning)
  }

  ghost predicate ExposureSays(dir: seq<Field>, e: Attributes) {
    && HasRationals(dir, 0x829A, RATIONAL, [e.exposureTime])
    && HasRationals(dir, 0x829D, RATIONAL, [e.fnumber])
    && HasShort(dir, 0x8822, e.exposureProgram)
    && HasShort(dir, 0x8827, e.isoSpeedRating)
    && HasBytes(dir, 0x9000, UNDEFINED, e.exifVersion)
    && HasText(dir, 0x9003, e.dateTime, 20)
    && HasText(dir, 0x9004, e.dateTime, 20)
  }

  ghost predicate LensSays(dir: seq<Field>, e: Attributes) {
    && HasBytes(dir, 0x9101, UNDEFINED, [1, 2, 3, 0])
    && HasRationals(dir, 0x9201, SRATIONAL, [e.shutterSpeed])
    && HasRationals(dir, 0x9202, RATIONAL, [e.aperture])
    && HasRationals(dir, 0x9203, SRATIONAL, [e.brightness])
    && HasRationals(dir, 0x9204, SRATIONAL, [e.exposureBias])
    && HasRationals(dir, 0x9205, RATIONAL, [e.maxAperture])
    && HasShort(dir, 0x9207, e.meteringMode)
    && HasShort(dir, 0x9209, e.flash)
    && HasRationals(dir, 0x920A, RATIONAL, [e.focalLength])
    && HasBytes(dir, 0xA000, UNDEFINED, [0x30, 0x31, 0x30, 0x30])
  }

  ghost predicate NotesSay(dir: seq<Field>, e: Attributes) {
    && HasOptionalBytes(dir, 0x927C, e.makerNote)
    && HasOptionalBytes(dir, 0x9286, e.userComment)
    && HasText(dir, 0x9290, e.secTime, 5)
    && HasText(dir, 0x9291, e.secTime, 5)
    && HasText(dir, 0x9292, e.secTime, 5)
  }

  ghost predicate ImageSays(dir: seq<Field>, e: Attributes) {
    && HasShort(dir, 0xA001, e.colorSpace)
    && HasLong(dir, 0xA002, e.width)
    && HasLong(dir, 0xA003, e.height)
    && HasBytes(dir, 0xA301, UNDEFINED, [1, 0, 0, 0])
    && HasShort(dir, 0xA401, e.customRendered)
    && HasShort(dir, 0xA402, e.exposureMode)
    && HasShort(dir, 0xA403, e.whiteBalance)
  }

  ghost predicate SceneSays(dir: seq<Field>, e: Attributes) {
    && HasRationals(dir, 0xA404, RATIONAL, [e.digitalZoomRatio])
    && HasShort(dir, 0xA405, e.focalLengthIn35mm)
    && HasShort(dir, 0xA406, e.sceneCaptureType)
    && HasShort(dir, 0xA408, e.contrast)
    && HasShort(dir, 0xA409, e.saturation)
    && HasShort(dir, 0xA40A, e.sharpness)
    && HasOptionalText(dir, 0xA420, e.uniqueId)
  }

  ghost predicate ExifSays(dir: seq<Field>, e: Attributes) {
    ExposureSays(dir, e) && LensSays(dir, e) && NotesSay(dir, e) && ImageSays(dir, e) && SceneSays(dir, e)
  }

  /** "THM" or "R98". */
  ghost predicate InteropSays(dir: seq<Field>, e: Attributes) {
    && HasText(dir, 0x0001, if e.interoperabilityThm then [0x54, 0x48, 0x4D] else [0x52, 0x39, 0x38], 4)
    && HasBytes(dir, 0x0002, UNDEFINED, [0x30, 0x31, 0x30, 0x30])
  }

  ghost predicate PositionSays(dir: seq<Field>, e: Attributes) {
    && HasBytes(dir, 0x0000, BYTE, e.gpsVersionId)
    && HasText(dir, 0x0001, e.gpsLatitudeRef, 2)
    && HasRationals(dir, 0x0002, RATIONAL, e.gpsLatitude)
    && HasText(dir, 0x0003, e.gpsLongitudeRef, 2)
    && HasRationals(dir, 0x0004, RATIONAL, e.gpsLongitude)
  }

  /** The processing method is in ASCII, as the eight bytes in front of it say, and of 99 characters at most. */
  ghost predicate DetailSays(dir: seq<Field>, e: Attributes) {
    && HasBytes(dir, 0x0005, BYTE, [e.gpsAltitudeRef])
    && HasRationals(dir, 0x0006, RATIONAL, [e.gpsAltitude])
    && HasRationals(dir, 0x0007, RATIONAL, e.gpsTimestamp)
    && HasText(dir, 0x001D, e.gpsDateStamp, 11)
    && var chars := e.gpsProcessingMethod;
       if chars == [] then Find(dir, 0x001B) == None
       else HasBytes(dir, 0x001B, UNDEFINED, [0x41, 0x53, 0x43, 0x49, 0x49, 0, 0, 0] + chars[..Min(|chars|, 99)] + [0])
  }

  ghost predicate GpsSays(dir: seq<Field>, e: Attributes) {
    PositionSays(dir, e) && DetailSays(dir, e)
  }

  /** The thumbnail's stream starts at `offset` and has `length` bytes. */
  ghost predicate FirstSays(dir: seq<Field>, e: Attributes, offset: nat, length: nat) {
    && HasLong(dir, 0x0100, e.widthThumb)
    && HasLong(dir, 0x0101, e.heightThumb)
    && HasShort(dir, 0x0103, e.compressionScheme)
    && HasShort(dir, 0x0112, e.orientation)
    && HasLong(dir, 0x0201, offset)
    && HasLong(dir, 0x0202, length)
  }

  /** IFD0 and the directories nested in it, none of which has a tag twice. */
  ghost predicate MainSays(dir: seq<Field>, e: Attributes) {
    && Unique(dir) && ZerothSays(dir, e)
    && match Nested(dir, 0x8769) {
         case None => false
         case Some(exif) =>
           && Unique(exif) && ExifSays(exif, e)
           && match Nested(exif, 0xA005) {
                case None => false
                case Some(interop) => Unique(interop) && InteropSays(interop, e)
              }
       }
    && match Nested(dir, 0x8825) {
         case None => !e.enableGps
         case Some(gps) => e.enableGps && Unique(gps) && GpsSays(gps, e)
       }
  }

  /** The whole segment: IFD1 is there exactly if there is a thumbnail. */
  ghost predicate Says(segment: Segment, e: Attributes, offset: nat, length: nat) {
    && MainSays(segment.zeroth.fields, e)
    && match segment.first {
         case None => !e.enableThumb
         case Some(first) => e.enableThumb && Unique(first.fields) && FirstSays(first.fields, e, offset, length)
       }
  }

  // ---------------------------------------------------------------- fields that are there are found

  lemma ShortFound(dir: seq<Field>, tag: u16, v: u16)
    requires Unique(dir) && Short(tag, v) in dir
    ensures HasShort(dir, tag, v)
  {
    FindIt(dir, Short(tag, v));
    assert ShortBytes([v]) == Le16(v);
  }

  lemma LongFound(dir: seq<Field>, tag: u16, v: u32)
    requires Unique(dir) && Long(tag, v) in dir
    ensures HasLong(dir, tag, v)
  {
    FindIt(dir, Long(tag, v));
    SplitLe32(v);
  }

  lemma RationalFound(dir: seq<Field>, tag: u16, typ: FieldType, rs: seq<Rational>)
    requires Unique(dir) && Value(tag, typ, RationalBytes(rs)) in dir
    ensures HasRationals(dir, tag, typ, rs)
  {
    hide RationalBytes, GetLe32;
    FindIt(dir, Value(tag, typ, RationalBytes(rs)));
    forall i | 0 <= i < |rs|
      ensures rs[i] == Rational(GetLe32(RationalBytes(rs), 8 * i), GetLe32(RationalBytes(rs), 8 * i + 4))
    {
      RationalAt(rs, i);
    }
  }

  lemma {:induction false} RationalAt(rs: seq<Rational>, i: nat)
    requires i < |rs|
    ensures rs[i] == Rational(GetLe32(RationalBytes(rs), 8 * i), GetLe32(RationalBytes(rs), 8 * i + 4))
  {
    hide GetLe32, Le32;
    var first, rest := Le32(rs[0].num) + Le32(rs[0].den), RationalBytes(rs[1..]);
    if i == 0 {
      NumberInFront(rs[0].num, Le32(rs[0].den) + rest);
      NumberInFront(rs[0].den, rest);
      NumberBehind(Le32(rs[0].num), Le32(rs[0].den) + rest, 0);
      assert first + rest == Le32(rs[0].num) + (Le32(rs[0].den) + rest);
    } else {
      RationalAt(rs[1..], i - 1);
      NumberBehind(first, rest, 8 * (i - 1));
      NumberBehind(first, rest, 8 * (i - 1) + 4);
    }
  }

  lemma NumberInFront(v: u32, s: seq<byte>)
    ensures GetLe32(Le32(v) + s, 0) == v
  {
    SplitLe32(v);
  }

  lemma NumberBehind(a: seq<byte>, b: seq<byte>, at: nat)
    requires at + 4 <= |b|
    ensures GetLe32(a + b, |a| + at) == GetLe32(b, at)
  {
  }

  lemma BytesFound(dir: seq<Field>, tag: u16, typ: FieldType, bytes: seq<byte>)
    requires Unique(dir) && Value(tag, typ, bytes) in dir
    ensures HasBytes(dir, tag, typ, bytes)
  {
    FindIt(dir, Value(tag, typ, bytes));
  }

  lemma {:induction false} CharsEnd(s: seq<byte>, t: seq<byte>)
    requires t != [] && t[0] == 0
    ensures Chars(s + t) == Chars(s)
  {
    if s == [] {
      assert s + t == t;
    } else {
      assert (s + t)[1..] == s[1..] + t;
      CharsEnd(s[1..], t);
    }
  }

  lemma TextFound(dir: seq<Field>, tag: u16, text: seq<byte>, count: nat)
    requires count > 0 && Unique(dir) && Text(tag, text, count) in dir
    ensures HasText(dir, tag, text, count)
  {
    var data := CString(text, count);
    FindIt(dir, Text(tag, text, count));
    if |text| < count {
      CharsEnd(text, data[|text|..]);
      assert text + data[|text|..] == data && text[..Min(|text|, count - 1)] == text;
    } else {
      CharsEnd(text[..count - 1], [0]);
    }
  }

  lemma TerminatedFound(dir: seq<Field>, tag: u16, text: seq<byte>, count: nat)
    requires 0 < count <= |text| && Unique(dir) && Value(tag, ASCII, Terminated(text, count)) in dir
    ensures HasText(dir, tag, text, count)
  {
    FindIt(dir, Value(tag, ASCII, Terminated(text, count)));
    CharsEnd(text[..count - 1], [0]);
  }

  lemma OptionalTextFound(dir: seq<Field>, tag: u16, text: seq<byte>)
    requires Unique(dir) && Contains(dir, OptionalText(tag, text))
    requires text == [] ==> forall f :: f in dir ==> f.tag != tag
    ensures HasOptionalText(dir, tag, text)
  {
    if text == [] {
      FindNone(dir, tag);
    } else {
      FindIt(dir, OptionalText(tag, text)[0]);
      CharsEnd(text, [0]);
      assert text[..Min(|text|, |text|)] == text;
    }
  }

  lemma OptionalBytesFound(dir: seq<Field>, tag: u16, bytes: seq<byte>)
    requires Unique(dir) && Contains(dir, OptionalUndef(tag, bytes))
    requires bytes == [] ==> forall f :: f in dir ==> f.tag != tag
    ensures HasOptionalBytes(dir, tag, bytes)
  {
    if bytes == [] {
      FindNone(dir, tag);
    } else {
      FindIt(dir, OptionalUndef(tag, bytes)[0]);
    }
  }

  // ---------------------------------------------------------------- tags

  ghost function Tags(dir: seq<Field>): set<u16> {
    set f | f in dir :: f.tag
  }

  lemma TagsConcat(a: seq<Field>, b: seq<Field>)
    ensures Tags(a + b) == Tags(a) + Tags(b)
    ensures Unique(a) && Unique(b) && Tags(a) !! Tags(b) ==> Unique(a + b)
  {
    assert forall f :: f in a + b <==> f in a || f in b;
    forall f | f in a ensures f.tag in Tags(a) {}
    forall f | f in b ensures f.tag in Tags(b) {}
    if Unique(a) && Unique(b) && Tags(a) !! Tags(b) {
      forall i, j | 0 <= i < j < |a + b|
        ensures (a + b)[i].tag != (a + b)[j].tag
      {
        assert i < |a| <= j ==> a[i].tag in Tags(a) && b[j - |a|].tag in Tags(b);
      }
    }
  }

  /** The part of the Exif directory that a tag belongs to. */
  function Part(tag: u16): nat {
    if tag <= 0x9004 then 0
    else if tag <= 0x920A || tag == 0xA000 then 1
    else if tag <= 0x9292 then 2
    else if tag == 0xA005 then 5
    else if tag <= 0xA403 then 3
    else 4
  }

  ghost predicate InPart(dir: seq<Field>, n: nat) {
    forall t <- Tags(dir) :: Part(t) == n
  }

  ghost predicate InParts(dir: seq<Field>, n: nat) {
    forall t <- Tags(dir) :: Part(t) < n
  }

  function IfAny(tag: u16, s: seq<byte>): set<u16> {
    if s == [] then {} else {tag}
  }

  lemma OptionalTags(tag: u16, s: seq<byte>)
    ensures Tags(OptionalText(tag, s)) == Tags(OptionalUndef(tag, s)) == IfAny(tag, s)
    ensures Unique(OptionalText(tag, s)) && Unique(OptionalUndef(tag, s))
  {
    if s != [] {
      SingleTag(OptionalText(tag, s)[0]);
      SingleTag(OptionalUndef(tag, s)[0]);
    }
  }

  lemma SingleTag(f: Field)
    ensures Tags([f]) == {f.tag} && Unique([f])
  {
    assert f in [f];
  }

  lemma ExposureTags(e: Attributes)
    ensures Unique(ExifExposure(e)) && Tags(ExifExposure(e)) == {0x829A, 0x829D, 0x8822, 0x8827, 0x9000, 0x9003, 0x9004}
  {
    hide RationalBytes, ShortBytes, CString;
    TagsAre(ExifExposure(e), [0x829A, 0x829D, 0x8822, 0x8827, 0x9000, 0x9003, 0x9004]);
  }

  lemma TagsAre(dir: seq<Field>, tags: seq<u16>)
    requires |dir| == |tags| && forall i :: 0 <= i < |dir| ==> dir[i].tag == tags[i]
    ensures Tags(dir) == set t | t in tags
    ensures (forall i, j :: 0 <= i < j < |tags| ==> tags[i] != tags[j]) ==> Unique(dir)
  {
    forall t | t in tags
      ensures t in Tags(dir)
    {
      var i :| 0 <= i < |tags| && tags[i] == t;
      assert dir[i] in dir;
    }
    forall f | f in dir
      ensures f.tag in tags
    {
      var i :| 0 <= i < |dir| && dir[i] == f;
      assert tags[i] in tags;
    }
  }

  lemma LensTags(e: Attributes)
    ensures Unique(ExifLens(e)) && InPart(ExifLens(e), 1)
  {
    hide RationalBytes, ShortBytes;
    var tags := [0x9201, 0x9202, 0x9203, 0x9204, 0x9205, 0x9207, 0x9209, 0xA000, 0x9101, 0x920A];
    assert forall i :: 0 <= i < |tags| ==> Part(tags[i]) == 1;
    TagsAre(ExifLens(e), tags);
  }

  lemma NotesTags(e: Attributes)
    ensures Unique(ExifNotes(e))
    ensures Tags(ExifNotes(e)) == {0x9290, 0x9291, 0x9292} + IfAny(0x927C, e.makerNote) + IfAny(0x9286, e.userComment)
  {
    hide CString, OptionalUndef, Unique, Tags;
    var a := [Text(0x9290, e.secTime, SUBSECTIME_LENGTH), Text(0x9291, e.secTime, SUBSECTIME_LENGTH),
              Text(0x9292, e.secTime, SUBSECTIME_LENGTH)];
    var b, c := OptionalUndef(0x927C, e.makerNote), OptionalUndef(0x9286, e.userComment);
    TagsAre(a, [0x9290, 0x9291, 0x9292]);
    OptionalTags(0x927C, e.makerNote);
    OptionalTags(0x9286, e.userComment);
    TagsConcat(a, b);
    TagsConcat(a + b, c);
  }

  lemma ImageTags(e: Attributes)
    ensures Unique(ExifImage(e)) && Tags(ExifImage(e)) == {0xA001, 0xA002, 0xA003, 0xA301, 0xA401, 0xA402, 0xA403}
  {
    hide ShortBytes, Le32;
    TagsAre(ExifImage(e), [0xA001, 0xA002, 0xA003, 0xA301, 0xA401, 0xA402, 0xA403]);
  }

  lemma SceneTags(e: Attributes)
    ensures Unique(ExifScene(e))
    ensures Tags(ExifScene(e)) == {0xA404, 0xA405, 0xA406, 0xA408, 0xA409, 0xA40A} + IfAny(0xA420, e.uniqueId)
  {
    hide RationalBytes, ShortBytes, OptionalText, Unique, Tags;
    var a := [Rationals(0xA404, [e.digitalZoomRatio]), Short(0xA405, e.focalLengthIn35mm),
              Short(0xA406, e.sceneCaptureType), Short(0xA408, e.contrast), Short(0xA409, e.saturation),
              Short(0xA40A, e.sharpness)];
    TagsAre(a, [0xA404, 0xA405, 0xA406, 0xA408, 0xA409, 0xA40A]);
    OptionalTags(0xA420, e.uniqueId);
    TagsConcat(a, OptionalText(0xA420, e.uniqueId));
  }

  /** One more part. */
  lemma PartsConcat(a: seq<Field>, b: seq<Field>, n: nat)
    requires Unique(a) && Unique(b) && InParts(a, n) && InPart(b, n)
    ensures Unique(a + b) && InParts(a + b, n + 1)
    ensures forall t :: t in Tags(a + b) && Part(t) == n ==> t in Tags(b)
    ensures forall t :: t in Tags(a + b) && Part(t) < n ==> t in Tags(a)
  {
    hide Unique, Tags, Part;
    TagsConcat(a, b);
  }

  lemma PartsOfExif(e: Attributes)
    ensures InPart(ExifExposure(e), 0) && InPart(ExifLens(e), 1) && InPart(ExifNotes(e), 2)
    ensures InPart(ExifImage(e), 3) && InPart(ExifScene(e), 4)
  {
    hide Tags, ExifExposure, ExifLens, ExifNotes, ExifImage, ExifScene;
    ExposureTags(e);
    LensTags(e);
    NotesTags(e);
    ImageTags(e);
    SceneTags(e);
  }

  /** The tags of optional fields, whose absence has to be seen. */
  lemma ExifTags(e: Attributes)
    ensures Unique(ExifFields(e))
    ensures e.makerNote == [] ==> 0x927C !in Tags(ExifFields(e))
    ensures e.userComment == [] ==> 0x9286 !in Tags(ExifFields(e))
    ensures e.uniqueId == [] ==> 0xA420 !in Tags(ExifFields(e))
  {
    hide ExifExposure, ExifLens, ExifNotes, ExifImage, ExifScene, InteropFields, Unique, Tags;
    var a, b, c, d, f := ExifExposure(e), ExifLens(e), ExifNotes(e), ExifImage(e), ExifScene(e);
    var sub := SubDir(INTEROPERABILITY_POINTER, InteropFields(e));
    PartsOfExif(e);
    GroupsUnique(e);
    SingleTag(sub);
    PartsConcat(a, b, 1);
    PartsConcat(a + b, c, 2);
    PartsConcat(a + b + c, d, 3);
    PartsConcat(a + b + c + d, f, 4);
    PartsConcat(a + b + c + d + f, [sub], 5);
  }

  lemma GroupsUnique(e: Attributes)
    ensures Unique(ExifExposure(e)) && Unique(ExifLens(e)) && Unique(ExifNotes(e)) && Unique(ExifImage(e)) && Unique(ExifScene(e))
    ensures e.makerNote == [] ==> 0x927C !in Tags(ExifNotes(e))
    ensures e.userComment == [] ==> 0x9286 !in Tags(ExifNotes(e))
    ensures e.uniqueId == [] ==> 0xA420 !in Tags(ExifScene(e))
  {
    hide Tags, Unique, ExifExposure, ExifLens, ExifNotes, ExifImage, ExifScene;
    ExposureTags(e);
    LensTags(e);
    NotesTags(e);
    ImageTags(e);
    SceneTags(e);
  }

  lemma ZerothTags(e: Attributes)
    ensures Unique(ZerothFields(e))
    ensures e.maker == [] ==> 0x010F !in Tags(ZerothFields(e))
    ensures e.model == [] ==> 0x0110 !in Tags(ZerothFields(e))
    ensures e.software == [] ==> 0x0131 !in Tags(ZerothFields(e))
    ensures !e.enableGps ==> 0x8825 !in Tags(ZerothFields(e))
  {
    hide ZerothHead, ZerothTexts, ExifFields, GpsFields, Unique, Tags;
    var a, b := ZerothHead(e), ZerothTexts(e);
    var sub, gps := SubDir(EXIF_IFD_POINTER, ExifFields(e)), SubDir(GPS_IFD_POINTER, GpsFields(e));
    ZerothHeadTags(e);
    ZerothTextsTags(e);
    SingleTag(sub);
    SingleTag(gps);
    TagsConcat(a, b);
    TagsConcat(a + b, [sub]);
    TagsConcat(a + b + [sub], [gps]);
    assert a + b + [sub] + [] == a + b + [sub];
  }

  lemma ZerothHeadTags(e: Attributes)
    ensures Unique(ZerothHead(e)) && Tags(ZerothHead(e)) == {0x0112, 0x0213, 0x011A, 0x011B, 0x0128}
  {
    hide RationalBytes, ShortBytes;
    TagsAre(ZerothHead(e), [0x0112, 0x0213, 0x011A, 0x011B, 0x0128]);
  }

  lemma ZerothTextsTags(e: Attributes)
    ensures Unique(ZerothTexts(e))
    ensures Tags(ZerothTexts(e)) == IfAny(0x010F, e.maker) + IfAny(0x0110, e.model) + IfAny(0x0131, e.software) + {0x0132}
  {
    hide CString, OptionalText, Unique, Tags;
    var a, b, c := OptionalText(0x010F, e.maker), OptionalText(0x0110, e.model), OptionalText(0x0131, e.software);
    var d := Text(0x0132, e.dateTime, DATETIME_LENGTH);
    OptionalTags(0x010F, e.maker);
    OptionalTags(0x0110, e.model);
    OptionalTags(0x0131, e.software);
    SingleTag(d);
    TagsConcat(a, b);
    TagsConcat(a + b, c);
    TagsConcat(a + b + c, [d]);
  }

  lemma GpsTags(e: Attributes)
    ensures Unique(GpsFields(e))
    ensures e.gpsProcessingMethod == [] ==> 0x001B !in Tags(GpsFields(e))
  {
    hide GpsPosition, GpsDetail, Unique, Tags;
    GpsPositionTags(e);
    GpsDetailTags(e);
    TagsConcat(GpsPosition(e), GpsDetail(e));
  }

  lemma GpsPositionTags(e: Attributes)
    ensures Unique(GpsPosition(e)) && Tags(GpsPosition(e)) == {0, 1, 2, 3, 4}
  {
    hide RationalBytes, Terminated;
    TagsAre(GpsPosition(e), [0, 1, 2, 3, 4]);
  }

  lemma GpsDetailTags(e: Attributes)
    ensures Unique(GpsDetail(e)) && Tags(GpsDetail(e)) == {0x0005, 0x0006, 0x001D, 0x0007} + IfAny(0x001B, e.gpsProcessingMethod)
  {
    hide RationalBytes, CString, ProcessingMethod, Unique, Tags;
    var a := [Value(0x0005, BYTE, [e.gpsAltitudeRef]), Rationals(0x0006, [e.gpsAltitude]),
              Text(0x001D, e.gpsDateStamp, GPSDATESTAMP_LENGTH), Rationals(0x0007, e.gpsTimestamp)];
    TagsAre(a, [0x0005, 0x0006, 0x001D, 0x0007]);
    if e.gpsProcessingMethod == [] {
      assert a + [] == a;
    } else {
      var m := Undef(0x001B, ASCII_PREFIX + ProcessingMethod(e) + [0]);
      SingleTag(m);
      TagsConcat(a, [m]);
    }
  }

  // ---------------------------------------------------------------- what was written is what is said

  lemma ExposureIsSaid(dir: seq<Field>, e: Attributes)
    requires Unique(dir) && Contains(dir, ExifExposure(e))
    ensures ExposureSays(dir, e)
  {
    hide Unique, RationalBytes, ShortBytes, CString, HasRationals, HasShort, HasText, HasBytes;
    RationalFound(dir, 0x829A, RATIONAL, [e.exposureTime]);
    RationalFound(dir, 0x829D, RATIONAL, [e.fnumber]);
    ShortFound(dir, 0x8822, e.exposureProgram);
    ShortFound(dir, 0x8827, e.isoSpeedRating);
    BytesFound(dir, 0x9000, UNDEFINED, e.exifVersion);
    TextFound(dir, 0x9003, e.dateTime, 20);
    TextFound(dir, 0x9004, e.dateTime, 20);
  }

  lemma LensIsSaid(dir: seq<Field>, e: Attributes)
    requires Unique(dir) && Contains(dir, ExifLens(e))
    ensures LensSays(dir, e)
  {
    hide Unique, RationalBytes, ShortBytes, HasRationals, HasShort, HasBytes;
    BytesFound(dir, 0x9101, UNDEFINED, [1, 2, 3, 0]);
    RationalFound(dir, 0x9201, SRATIONAL, [e.shutterSpeed]);
    RationalFound(dir, 0x9202, RATIONAL, [e.aperture]);
    RationalFound(dir, 0x9203, SRATIONAL, [e.brightness]);
    RationalFound(dir, 0x9204, SRATIONAL, [e.exposureBias]);
    RationalFound(dir, 0x9205, RATIONAL, [e.maxAperture]);
    ShortFound(dir, 0x9207, e.meteringMode);
    ShortFound(dir, 0x9209, e.flash);
    RationalFound(dir, 0x920A, RATIONAL, [e.focalLength]);
    BytesFound(dir, 0xA000, UNDEFINED, [0x30, 0x31, 0x30, 0x30]);
  }

  lemma NotesAreSaid(dir: seq<Field>, e: Attributes)
    requires Unique(dir) && Contains(dir, ExifNotes(e))
    requires e.makerNote == [] ==> 0x927C !in Tags(dir)
    requires e.userComment == [] ==> 0x9286 !in Tags(dir)
    ensures NotesSay(dir, e)
  {
    hide Unique, CString, OptionalUndef, HasText, HasOptionalBytes;
    OptionalBytesFound(dir, 0x927C, e.makerNote);
    OptionalBytesFound(dir, 0x9286, e.userComment);
    TextFound(dir, 0x9290, e.secTime, 5);
    TextFound(dir, 0x9291, e.secTime, 5);
    TextFound(dir, 0x9292, e.secTime, 5);
  }

  lemma ImageIsSaid(dir: seq<Field>, e: Attributes)
    requires Unique(dir) && Contains(dir, ExifImage(e))
    ensures ImageSays(dir, e)
  {
    hide Unique, ShortBytes, Le32, HasShort, HasLong, HasBytes;
    ShortFound(dir, 0xA001, e.colorSpace);
    LongFound(dir, 0xA002, e.width);
    LongFound(dir, 0xA003, e.height);
    BytesFound(dir, 0xA301, UNDEFINED, [1, 0, 0, 0]);
    ShortFound(dir, 0xA401, e.customRendered);
    ShortFound(dir, 0xA402, e.exposureMode);
    ShortFound(dir, 0xA403, e.whiteBalance);
  }

  lemma SceneIsSaid(dir: seq<Field>, e: Attributes)
    requires Unique(dir) && Contains(dir, ExifScene(e))
    requires e.uniqueId == [] ==> 0xA420 !in Tags(dir)
    ensures SceneSays(dir, e)
  {
    hide Unique, RationalBytes, ShortBytes, OptionalText, HasRationals, HasShort, HasOptionalText;
    RationalFound(dir, 0xA404, RATIONAL, [e.digitalZoomRatio]);
    ShortFound(dir, 0xA405, e.focalLengthIn35mm);
    ShortFound(dir, 0xA406, e.sceneCaptureType);
    ShortFound(dir, 0xA408, e.contrast);
    ShortFound(dir, 0xA409, e.saturation);
    ShortFound(dir, 0xA40A, e.sharpness);
    OptionalTextFound(dir, 0xA420, e.uniqueId);
  }

  lemma ExifIsSaid(e: Attributes)
    ensures Unique(ExifFields(e)) && ExifSays(ExifFields(e), e) && Nested(ExifFields(e), 0xA005) == Some(InteropFields(e))
  {
    hide ExifExposure, ExifLens, ExifNotes, ExifImage, ExifScene, InteropFields, Unique, Tags;
    hide ExposureSays, LensSays, NotesSay, ImageSays, SceneSays;
    var dir := ExifFields(e);
    ExifTags(e);
    ExposureIsSaid(dir, e);
    LensIsSaid(dir, e);
    NotesAreSaid(dir, e);
    ImageIsSaid(dir, e);
    SceneIsSaid(dir, e);
    FindIt(dir, SubDir(0xA005, InteropFields(e)));
  }

  lemma InteropIsSaid(e: Attributes)
    ensures Unique(InteropFields(e)) && InteropSays(InteropFields(e), e)
  {
    hide HasText, HasBytes;
    var dir := InteropFields(e);
    TagsAre(dir, [1, 2]);
    var index: seq<byte> := if e.interoperabilityThm then [0x54, 0x48, 0x4D, 0] else [0x52, 0x39, 0x38, 0];
    assert Terminated(index, 4) == index;
    TerminatedFound(dir, 0x0001, index, 4);
    ShorterText(dir, 0x0001, index, 3, 4);
    assert index[..3] == if e.interoperabilityThm then [0x54, 0x48, 0x4D] else [0x52, 0x39, 0x38];
    BytesFound(dir, 0x0002, UNDEFINED, [0x30, 0x31, 0x30, 0x30]);
  }

  /** What is behind the characters that count does not matter. */
  lemma ShorterText(dir: seq<Field>, tag: u16, text: seq<byte>, n: nat, count: nat)
    requires HasText(dir, tag, text, count) && n < |text| && n < count && Chars(text[..n]) == Chars(text[..Min(|text|, count - 1)])
    ensures HasText(dir, tag, text[..n], count)
  {
    assert text[..n][..Min(n, count - 1)] == text[..n];
  }

  lemma GpsIsSaid(e: Attributes)
    ensures Unique(GpsFields(e)) && GpsSays(GpsFields(e), e)
  {
    hide GpsPosition, GpsDetail, Unique, Tags, PositionSays, DetailSays;
    GpsTags(e);
    PositionIsSaid(GpsFields(e), e);
    DetailIsSaid(GpsFields(e), e);
  }

  lemma PositionIsSaid(dir: seq<Field>, e: Attributes)
    requires Unique(dir) && Contains(dir, GpsPosition(e))
    ensures PositionSays(dir, e)
  {
    hide Unique, RationalBytes, Terminated, HasRationals, HasText, HasBytes;
    BytesFound(dir, 0x0000, BYTE, e.gpsVersionId);
    TerminatedFound(dir, 0x0001, e.gpsLatitudeRef, 2);
    RationalFound(dir, 0x0002, RATIONAL, e.gpsLatitude);
    TerminatedFound(dir, 0x0003, e.gpsLongitudeRef, 2);
    RationalFound(dir, 0x0004, RATIONAL, e.gpsLongitude);
  }

  lemma DetailIsSaid(dir: seq<Field>, e: Attributes)
    requires Unique(dir) && Contains(dir, GpsDetail(e))
    requires e.gpsProcessingMethod == [] ==> 0x001B !in Tags(dir)
    ensures DetailSays(dir, e)
  {
    hide Unique, RationalBytes, CString, HasRationals, HasText, HasBytes;
    BytesFound(dir, 0x0005, BYTE, [e.gpsAltitudeRef]);
    RationalFound(dir, 0x0006, RATIONAL, [e.gpsAltitude]);
    RationalFound(dir, 0x0007, RATIONAL, e.gpsTimestamp);
    TextFound(dir, 0x001D, e.gpsDateStamp, 11);
    if e.gpsProcessingMethod == [] {
      FindNone(dir, 0x001B);
    } else {
      BytesFound(dir, 0x001B, UNDEFINED, ASCII_PREFIX + ProcessingMethod(e) + [0]);
    }
  }

  lemma ZerothIsSaid(e: Attributes)
    ensures
      var dir := ZerothFields(e);
      && Unique(dir) && ZerothSays(dir, e) && Nested(dir, 0x8769) == Some(ExifFields(e))
      && Nested(dir, 0x8825) == if e.enableGps then Some(GpsFields(e)) else None
  {
    hide ZerothHead, ZerothTexts, ExifFields, GpsFields, Unique, ZerothSays;
    var dir := ZerothFields(e);
    ZerothTags(e);
    HeadAndTextsAreSaid(dir, e);
    FindIt(dir, SubDir(0x8769, ExifFields(e)));
    if e.enableGps {
      FindIt(dir, SubDir(0x8825, GpsFields(e)));
    } else {
      FindNone(dir, 0x8825);
    }
  }

  lemma HeadAndTextsAreSaid(dir: seq<Field>, e: Attributes)
    requires Unique(dir) && Contains(dir, ZerothHead(e)) && Contains(dir, ZerothTexts(e))
    requires e.maker == [] ==> 0x010F !in Tags(dir)
    requires e.model == [] ==> 0x0110 !in Tags(dir)
    requires e.software == [] ==> 0x0131 !in Tags(dir)
    ensures ZerothSays(dir, e)
  {
    hide Unique, RationalBytes, ShortBytes, CString, OptionalText, HasRationals, HasShort, HasText, HasOptionalText;
    OptionalTextFound(dir, 0x010F, e.maker);
    OptionalTextFound(dir, 0x0110, e.model);
    ShortFound(dir, 0x0112, e.orientation);
    RationalFound(dir, 0x011A, RATIONAL, [e.xResolution]);
    RationalFound(dir, 0x011B, RATIONAL, [e.yResolution]);
    ShortFound(dir, 0x0128, e.resolutionUnit);
    OptionalTextFound(dir, 0x0131, e.software);
    TextFound(dir, 0x0132, e.dateTime, 20);
    ShortFound(dir, 0x0213, e.ycbcrPositioning);
  }

  lemma FirstTags(e: Attributes, offset: nat, length: nat)
    ensures Unique(FirstFields(e, offset, length))
  {
    hide ShortBytes, Le32;
    TagsAre(FirstFields(e, offset, length), [0x0100, 0x0101, 0x0103, 0x0112, 0x0201, 0x0202]);
  }

  lemma FirstIsSaid(e: Attributes, offset: u32, length: u32)
    ensures Unique(FirstFields(e, offset, length)) && FirstSays(FirstFields(e, offset, length), e, offset, length)
  {
    hide ShortBytes, Le32, HasLong, HasShort, Unique;
    var dir := FirstFields(e, offset, length);
    FirstTags(e, offset, length);
    LongFound(dir, 0x0100, e.widthThumb);
    LongFound(dir, 0x0101, e.heightThumb);
    ShortFound(dir, 0x0103, e.compressionScheme);
    ShortFound(dir, 0x0112, e.orientation);
    LongFound(dir, 0x0201, offset);
    LongFound(dir, 0x0202, length);
  }

  /** The fields of IFD0 say all attributes, whatever they are. */
  lemma MainIsSaid(e: Attributes)
    ensures MainSays(ZerothFields(e), e)
  {
    hide ZerothFields, ExifFields, GpsFields, InteropFields, Unique, ZerothSays, ExifSays, GpsSays, InteropSays;
    ZerothIsSaid(e);
    ExifIsSaid(e);
    InteropIsSaid(e);
    GpsIsSaid(e);
  }

  /** The marker of APP1, and behind its length "Exif", two zeros and the little-endian TIFF header. */
  ghost predicate HeaderAt(mem: seq<byte>, at: nat) {
    && at + 18 <= |mem| && mem[at..at + 2] == [0xFF, 0xE1]
    && mem[at + 4..at + 10] == [0x45, 0x78, 0x69, 0x66, 0, 0] && mem[at + 10..at + 18] == [0x49, 0x49, 0x2A, 0, 8, 0, 0, 0]
  }

  lemma HeaderRead(mem: seq<byte>, at: nat)
    requires ReadExif(mem, at).Some?
    ensures HeaderAt(mem, at)
  {
    hide ReadDir;
    var head := mem[at + 4..at + 18];
    assert head == EXIF_IDENTIFIER + TIFF_HEADER;
    assert mem[at + 4..at + 10] == head[..6] && mem[at + 10..at + 18] == head[6..];
  }

  /**
   Whoever reads the segment finds every attribute that was written, under its tag and decoded from its bytes, and the
   place and the length of the thumbnail.
   */
  lemma AttributesBack(mem: seq<byte>, at: nat, e: Attributes, length: nat, thumbLength: nat)
    requires App1Length(e) <= MAX_SEGMENT_SIZE && thumbLength < 0x1_0000_0000
    requires Matches(mem, at, App1Image(e, length, thumbLength))
    ensures
      var r := ReadExif(mem, at);
      && r.Some? && r.value.length == length % 0x1_0000 && Says(r.value, e, App1Length(e) - 8, thumbLength)
      && HeaderAt(mem, at)
  {
    hide Matches, ReadExif, App1Image, ZerothFields, FirstFields, MainSays, FirstSays, Unique, Extents, HeaderAt;
    ReadExifBack(mem, at, e, length, thumbLength);
    HeaderRead(mem, at);
    MainIsSaid(e);
    if e.enableThumb {
      FirstIsSaid(e, FirstOffset(e) + 78, thumbLength);
    }
  }
}
