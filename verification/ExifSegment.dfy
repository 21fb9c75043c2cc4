/** Reading the emitted APP1 segment back, and updating it in place. */
module ExifSegment {
  import opened Bytes
  import opened Tiff
  import opened IfdWriters
  import opened Exif
  import opened ExifWriter
  import opened AppMarkers

  // ---------------------------------------------------------------- reading back

  datatype Segment = Segment(length: u16, zeroth: Parsed, first: Option<Parsed>)

  /** An APP1 reader after section 4.5.2 of Exif 2.2: it follows the offsets stored in the bytes. */
  function ReadExif(mem: seq<byte>, at: nat): Option<Segment> {
    var tiff := at + TIFF_BASE;
    if tiff + |TIFF_HEADER| > |mem| then None
    else if mem[at..at + 2] != [0xFF, 0xE1] || mem[at + 4..tiff + |TIFF_HEADER|] != EXIF_IDENTIFIER + TIFF_HEADER then None
    else
      match ReadDir(mem, tiff, GetLe32(mem, tiff + 4), ZerothIfd)
      case None => None
      case Some(zeroth) =>
        var length := GetBe16(mem, at + MARKER_SIZE);
        if zeroth.next == 0 then Some(Segment(length, zeroth, None)) else
        match ReadDir(mem, tiff, zeroth.next, FirstIfd)
        case None => None
        case Some(first) => Some(Segment(length, zeroth, Some(first)))
  }

  ghost predicate AllWellFormed(dir: seq<Field>, kind: Kind) {
    forall f :: f in dir ==> WellFormedField(f, kind)
  }

  lemma ConcatWellFormed(a: seq<Field>, b: seq<Field>, kind: Kind)
    requires AllWellFormed(a, kind) && AllWellFormed(b, kind)
    ensures AllWellFormed(a + b, kind)
  {
  }

  lemma OptionalsWellFormed(tag: u16, s: seq<byte>, kind: Kind)
    requires SubKind(kind, tag).None? && |s| < 0xFFFF
    ensures AllWellFormed(OptionalText(tag, s), kind) && AllWellFormed(OptionalUndef(tag, s), kind)
  {
  }

  lemma InteropWellFormed(e: Attributes)
    ensures WellFormed(InteropFields(e), InteropIfd)
  {
  }

  lemma GpsWellFormed(e: Attributes)
    ensures WellFormed(GpsFields(e), GpsIfd)
  {
    hide RationalBytes, CString, Terminated, ProcessingMethod, GpsPosition, GpsDetail;
    assert AllWellFormed(GpsPosition(e), GpsIfd) by { GpsPositionWellFormed(e); }
    assert AllWellFormed(GpsDetail(e), GpsIfd) by { GpsDetailWellFormed(e); }
    FieldCounts(e);
    ConcatWellFormed(GpsPosition(e), GpsDetail(e), GpsIfd);
  }

  lemma GpsPositionWellFormed(e: Attributes)
    ensures AllWellFormed(GpsPosition(e), GpsIfd)
  {
    hide RationalBytes, Terminated;
  }

  lemma GpsDetailWellFormed(e: Attributes)
    ensures AllWellFormed(GpsDetail(e), GpsIfd)
  {
    hide RationalBytes, CString;
  }

  lemma ExposureWellFormed(e: Attributes)
    ensures AllWellFormed(ExifExposure(e), ExifIfd)
  {
    hide RationalBytes, ShortBytes, CString;
  }

  lemma LensWellFormed(e: Attributes)
    ensures AllWellFormed(ExifLens(e), ExifIfd)
  {
    hide RationalBytes, ShortBytes;
  }

  lemma NotesWellFormed(e: Attributes)
    requires |e.makerNote| < 0xFFFF && |e.userComment| < 0xFFFF
    ensures AllWellFormed(ExifNotes(e), ExifIfd)
  {
    hide CString, OptionalUndef;
    var a := [Text(0x9290, e.secTime, SUBSECTIME_LENGTH), Text(0x9291, e.secTime, SUBSECTIME_LENGTH),
              Text(0x9292, e.secTime, SUBSECTIME_LENGTH)];
    OptionalsWellFormed(0x927C, e.makerNote, ExifIfd);
    OptionalsWellFormed(0x9286, e.userComment, ExifIfd);
    assert AllWellFormed(a, ExifIfd);
    ConcatWellFormed(a, OptionalUndef(0x927C, e.makerNote), ExifIfd);
    ConcatWellFormed(a + OptionalUndef(0x927C, e.makerNote), OptionalUndef(0x9286, e.userComment), ExifIfd);
  }

  lemma ImageWellFormed(e: Attributes)
    ensures AllWellFormed(ExifImage(e), ExifIfd)
  {
    hide ShortBytes, Le32;
  }

  lemma SceneWellFormed(e: Attributes)
    requires |e.uniqueId| < 0xFFFF
    ensures AllWellFormed(ExifScene(e), ExifIfd)
  {
    hide RationalBytes, ShortBytes, OptionalText;
    var a := [Rationals(0xA404, [e.digitalZoomRatio]), Short(0xA405, e.focalLengthIn35mm),
              Short(0xA406, e.sceneCaptureType), Short(0xA408, e.contrast), Short(0xA409, e.saturation),
              Short(0xA40A, e.sharpness)];
    assert AllWellFormed(a, ExifIfd);
    OptionalsWellFormed(0xA420, e.uniqueId, ExifIfd);
    ConcatWellFormed(a, OptionalText(0xA420, e.uniqueId), ExifIfd);
  }

  /** Text and blob lengths are bounded by the segment that holds them. */
  lemma LengthsBounded(e: Attributes)
    requires App1Length(e) <= MAX_SEGMENT_SIZE
    ensures |e.maker| < 0xFFFF && |e.model| < 0xFFFF && |e.software| < 0xFFFF && |e.uniqueId| < 0xFFFF
    ensures |e.makerNote| < 0xFFFF && |e.userComment| < 0xFFFF
  {
    hide ZerothFields, ExifFields, GpsFields, App1Length;
    App1LengthIs(e);
  }

  lemma ExifWellFormed(e: Attributes)
    requires App1Length(e) <= MAX_SEGMENT_SIZE
    ensures WellFormed(ExifFields(e), ExifIfd)
  {
    hide ExifExposure, ExifLens, ExifNotes, ExifImage, ExifScene, InteropFields, AllWellFormed, App1Length, WellFormed;
    LengthsBounded(e);
    ExposureWellFormed(e);
    LensWellFormed(e);
    NotesWellFormed(e);
    ImageWellFormed(e);
    SceneWellFormed(e);
    InteropWellFormed(e);
    var a, b, c, d, f := ExifExposure(e), ExifLens(e), ExifNotes(e), ExifImage(e), ExifScene(e);
    ConcatWellFormed(a, b, ExifIfd);
    ConcatWellFormed(a + b, c, ExifIfd);
    ConcatWellFormed(a + b + c, d, ExifIfd);
    ConcatWellFormed(a + b + c + d, f, ExifIfd);
    var sub := SubDir(INTEROPERABILITY_POINTER, InteropFields(e));
    SingleWellFormed(sub, ExifIfd);
    ConcatWellFormed(ExifScalars(e), [sub], ExifIfd);
    FieldCounts(e);
    WellFormedIs(ExifFields(e), ExifIfd);
  }

  lemma SingleWellFormed(f: Field, kind: Kind)
    requires WellFormedField(f, kind)
    ensures AllWellFormed([f], kind)
  {
  }

  lemma WellFormedIs(dir: seq<Field>, kind: Kind)
    ensures WellFormed(dir, kind) == (|dir| < 0x1_0000 && AllWellFormed(dir, kind))
  {
  }

  lemma ZerothTextsWellFormed(e: Attributes)
    requires App1Length(e) <= MAX_SEGMENT_SIZE
    ensures AllWellFormed(ZerothTexts(e), ZerothIfd)
  {
    hide OptionalText, CString, App1Length;
    LengthsBounded(e);
    var a, b, c := OptionalText(0x010F, e.maker), OptionalText(0x0110, e.model), OptionalText(0x0131, e.software);
    OptionalsWellFormed(0x010F, e.maker, ZerothIfd);
    OptionalsWellFormed(0x0110, e.model, ZerothIfd);
    OptionalsWellFormed(0x0131, e.software, ZerothIfd);
    ConcatWellFormed(a, b, ZerothIfd);
    ConcatWellFormed(a + b, c, ZerothIfd);
    SingleWellFormed(Text(0x0132, e.dateTime, DATETIME_LENGTH), ZerothIfd);
    ConcatWellFormed(a + b + c, [Text(0x0132, e.dateTime, DATETIME_LENGTH)], ZerothIfd);
  }

  lemma ZerothHeadWellFormed(e: Attributes)
    ensures AllWellFormed(ZerothHead(e), ZerothIfd)
  {
    hide RationalBytes, ShortBytes;
  }

  lemma ZerothWellFormed(e: Attributes)
    requires App1Length(e) <= MAX_SEGMENT_SIZE
    ensures WellFormed(ZerothFields(e), ZerothIfd)
  {
    hide ZerothHead, ZerothTexts, ExifFields, GpsFields, AllWellFormed, App1Length, WellFormed;
    ZerothHeadWellFormed(e);
    ZerothTextsWellFormed(e);
    ExifWellFormed(e);
    GpsWellFormed(e);
    var a, b := ZerothHead(e), ZerothTexts(e);
    var sub, gps := SubDir(EXIF_IFD_POINTER, ExifFields(e)), SubDir(GPS_IFD_POINTER, GpsFields(e));
    SingleWellFormed(sub, ZerothIfd);
    SingleWellFormed(gps, ZerothIfd);
    ConcatWellFormed(a, b, ZerothIfd);
    ConcatWellFormed(a + b, [sub], ZerothIfd);
    if e.enableGps {
      ConcatWellFormed(a + b + [sub], [gps], ZerothIfd);
    } else {
      assert a + b + [sub] + [] == a + b + [sub];
    }
    FieldCounts(e);
    WellFormedIs(ZerothFields(e), ZerothIfd);
  }

  lemma FirstWellFormed(e: Attributes, offset: nat, length: nat)
    ensures WellFormed(FirstFields(e, offset, length), FirstIfd)
  {
    hide ShortBytes, Le32;
  }

  /** What `ReadExif` finds in a segment written for `e`. */
  ghost function Reading(e: Attributes, length: nat, thumbLength: nat): Segment {
    var first := FirstFields(e, FirstOffset(e) + 78, thumbLength);
    if e.enableThumb then
      Segment(U16(length), Parsed(ZerothFields(e), U32(FirstOffset(e)), Extents(|TIFF_HEADER|, ZerothFields(e))),
              Some(Parsed(first, 0, Extents(FirstOffset(e), first))))
    else
      Segment(U16(length), Parsed(ZerothFields(e), 0, Extents(|TIFF_HEADER|, ZerothFields(e))), None)
  }

  lemma HeadMatches(mem: seq<byte>, at: nat, length: u16)
    requires Matches(mem, at, Lit([0xFF, 0xE1]) + Lit(Be16(length)) + Lit(EXIF_IDENTIFIER + TIFF_HEADER))
    ensures at + TIFF_BASE + |TIFF_HEADER| <= |mem|
    ensures mem[at..at + 2] == [0xFF, 0xE1] && GetBe16(mem, at + 2) == length
    ensures mem[at + 4..at + TIFF_BASE + |TIFF_HEADER|] == EXIF_IDENTIFIER + TIFF_HEADER
    ensures GetLe32(mem, at + TIFF_BASE + 4) == |TIFF_HEADER|
  {
    hide Matches;
    var a, b, c := Lit([0xFF, 0xE1]), Lit(Be16(length)), Lit(EXIF_IDENTIFIER + TIFF_HEADER);
    MatchesConcat(mem, at, a + b, c);
    MatchesConcat(mem, at, a, b);
    MatchesLit(mem, at, [0xFF, 0xE1]);
    MatchesLit(mem, at + 2, Be16(length));
    MatchesLit(mem, at + 4, EXIF_IDENTIFIER + TIFF_HEADER);
    assert mem[at + 2] == mem[at + 2..at + 4][0] && mem[at + 3] == mem[at + 2..at + 4][1];
    var s := mem[at + 4..at + TIFF_BASE + |TIFF_HEADER|];
    assert s[10] == 8 && s[11] == 0 && s[12] == 0 && s[13] == 0;
  }

  /** Every field written is read back, by following offsets from the TIFF header of the segment. */
  lemma ReadExifBack(mem: seq<byte>, at: nat, e: Attributes, length: nat, thumbLength: nat)
    requires App1Length(e) <= MAX_SEGMENT_SIZE
    requires Matches(mem, at, App1Image(e, length, thumbLength))
    ensures ReadExif(mem, at) == Some(Reading(e, length, thumbLength))
  {
    hide Matches, ZerothFields, DirImage, ReadDir, Extents, WellFormed;
    hide FirstFields;
    var head := Lit([0xFF, 0xE1]) + Lit(Be16(U16(length))) + Lit(EXIF_IDENTIFIER + TIFF_HEADER);
    var next := if e.enableThumb then FirstOffset(e) else 0;
    var dir, tiff := DirImage(|TIFF_HEADER|, ZerothFields(e), next), at + TIFF_BASE;
    MatchesConcat(mem, at, head + dir, FirstImage(e, thumbLength));
    MatchesConcat(mem, at, head, dir);
    HeadMatches(mem, at, U16(length));
    ZerothWellFormed(e);
    ReadBack(mem, tiff, |TIFF_HEADER|, ZerothFields(e), next, ZerothIfd);
    if e.enableThumb {
      var first := FirstFields(e, FirstOffset(e) + 78, thumbLength);
      FirstSize(e, FirstOffset(e) + 78, thumbLength);
      FirstWellFormed(e, FirstOffset(e) + 78, thumbLength);
      ReadBack(mem, tiff, FirstOffset(e), first, 0, FirstIfd);
    }
  }

  /** The extents a reader follows tile the segment behind the TIFF header: disjoint, and nothing is left over. */
  lemma ExtentsOfSegment(e: Attributes, length: nat, thumbLength: nat)
    ensures
      var r := Reading(e, length, thumbLength);
      var xs := r.zeroth.extents + if r.first.Some? then r.first.value.extents else [];
      Tile(xs, |TIFF_HEADER|, App1Length(e) - 8)
      && (forall i :: 0 <= i < |xs| ==> |TIFF_HEADER| <= xs[i].start && xs[i].start + xs[i].len <= App1Length(e) - 8)
      && (forall i, j :: 0 <= i < j < |xs| ==> xs[i].start + xs[i].len <= xs[j].start)
  {
    hide Tile, Extents, ZerothFields, FirstFields, DirSize;
    var r := Reading(e, length, thumbLength);
    ExtentsTile(|TIFF_HEADER|, ZerothFields(e));
    if e.enableThumb {
      var first := FirstFields(e, FirstOffset(e) + 78, thumbLength);
      FirstSize(e, FirstOffset(e) + 78, thumbLength);
      ExtentsTile(FirstOffset(e), first);
      TileConcat(r.zeroth.extents, r.first.value.extents, |TIFF_HEADER|, FirstOffset(e), App1Length(e) - 8);
      TileDisjoint(r.zeroth.extents + r.first.value.extents, |TIFF_HEADER|, App1Length(e) - 8);
    } else {
      assert r.zeroth.extents + [] == r.zeroth.extents;
      TileDisjoint(r.zeroth.extents, |TIFF_HEADER|, App1Length(e) - 8);
    }
  }
}
