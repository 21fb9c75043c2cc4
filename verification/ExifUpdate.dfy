/** Rewriting the APP1 segment of a finished stream in place (`UpdateExif`). */
module ExifUpdate {
  import opened Bytes
  import opened Tiff
  import opened IfdWriters
  import opened Exif
  import opened ExifWriter
  import opened AppMarkers
  import opened JpegParser
  import opened ExifSegment
  import opened ExifReader

  /** Two fields take the same room, and nested directories do field by field. */
  ghost predicate SameField(f: Field, g: Field) {
    match (f, g)
    case (Value(_, _, d), Value(_, _, d')) => |d| == |d'|
    case (SubDir(_, d), SubDir(_, d')) => SameShape(d, d')
    case _ => false
  }

  ghost predicate SameShape(a: seq<Field>, b: seq<Field>) {
    |a| == |b| && (a == [] || (SameField(a[0], b[0]) && SameShape(a[1..], b[1..])))
  }

  lemma {:induction false} SameShapeConcat(a: seq<Field>, b: seq<Field>, c: seq<Field>, d: seq<Field>)
    requires SameShape(a, c) && SameShape(b, d)
    ensures SameShape(a + b, c + d)
  {
    hide SameField;
    if a == [] {
      assert a + b == b && c + d == d;
    } else {
      assert (a + b)[1..] == a[1..] + b && (c + d)[1..] == c[1..] + d;
      SameShapeConcat(a[1..], b, c[1..], d);
    }
  }

  /** The writers store to the same positions for directories of the same shape. */
  lemma {:induction false} SameFieldMask(f: Field, g: Field, voff: nat)
    requires SameField(f, g)
    ensures FieldSize(f) == FieldSize(g)
    ensures SameMask(EntryImage(f, voff), EntryImage(g, voff)) && SameMask(ValueImage(f, voff), ValueImage(g, voff))
    decreases f, 1
  {
    hide TagTypeCount, DirImage;
    if f.SubDir? {
      SameDirMask(f.dir, g.dir, voff, 0, 0);
    }
  }

  lemma {:induction false} SameShapeMask(a: seq<Field>, b: seq<Field>, voff: nat)
    requires SameShape(a, b)
    ensures ValuesSize(a) == ValuesSize(b)
    ensures SameMask(Entries(a, voff), Entries(b, voff)) && SameMask(Values(a, voff), Values(b, voff))
    decreases a, 0
  {
    hide SameMask, SameField, EntryImage, ValueImage, FieldSize;
    if a == [] {
      EmptyMask();
    } else {
      var voff' := voff + FieldSize(a[0]);
      SameFieldMask(a[0], b[0], voff);
      SameShapeMask(a[1..], b[1..], voff');
      SameMaskConcat(EntryImage(a[0], voff), Entries(a[1..], voff'), EntryImage(b[0], voff), Entries(b[1..], voff'));
      SameMaskConcat(ValueImage(a[0], voff), Values(a[1..], voff'), ValueImage(b[0], voff), Values(b[1..], voff'));
    }
  }

  lemma EmptyMask()
    ensures SameMask([], [])
  {
  }

  lemma LitMask(s: seq<byte>, t: seq<byte>)
    requires |s| == |t|
    ensures SameMask(Lit(s), Lit(t))
  {
  }

  lemma {:induction false} SameDirMask(a: seq<Field>, b: seq<Field>, off: nat, next: nat, next': nat)
    requires SameShape(a, b)
    ensures DirSize(a) == DirSize(b) && SameMask(DirImage(off, a, next), DirImage(off, b, next'))
    decreases a, 1
  {
    hide SameMask, SameShape, Entries, Values, ValuesSize, Lit;
    var voff := off + HeadSize(|a|);
    SameShapeLength(a, b);
    SameShapeMask(a, b, voff);
    LitMask(Le16(U16(|a|)), Le16(U16(|b|)));
    LitMask(Le32(U32(next)), Le32(U32(next')));
    SameMaskConcat(CountImage(|a|), Entries(a, voff), CountImage(|b|), Entries(b, voff));
    SameMaskConcat(CountImage(|a|) + Entries(a, voff), OffsetImage(next), CountImage(|b|) + Entries(b, voff), OffsetImage(next'));
    SameMaskConcat(CountImage(|a|) + Entries(a, voff) + OffsetImage(next), Values(a, voff),
                   CountImage(|b|) + Entries(b, voff) + OffsetImage(next'), Values(b, voff));
  }

  lemma SameShapeLength(a: seq<Field>, b: seq<Field>)
    requires SameShape(a, b)
    ensures |a| == |b|
  {
  }

  /** `e'` has texts, blobs and options of the same lengths as `e`. */
  ghost predicate SameLayout(e: Attributes, e': Attributes) {
    && |e.maker| == |e'.maker| && |e.model| == |e'.model| && |e.software| == |e'.software|
    && |e.uniqueId| == |e'.uniqueId| && |e.makerNote| == |e'.makerNote| && |e.userComment| == |e'.userComment|
    && e.enableGps == e'.enableGps && |e.gpsProcessingMethod| == |e'.gpsProcessingMethod|
    && e.enableThumb == e'.enableThumb
  }

  lemma {:induction false} SameFields(a: seq<Field>, b: seq<Field>)
    requires |a| == |b| && forall i :: 0 <= i < |a| ==> SameField(a[i], b[i])
    ensures SameShape(a, b)
  {
    hide SameField;
    if a != [] {
      SameFields(a[1..], b[1..]);
    }
  }

  lemma SingleShape(tag: u16, a: seq<Field>, b: seq<Field>)
    requires SameShape(a, b)
    ensures SameShape([SubDir(tag, a)], [SubDir(tag, b)])
  {
    SameFields([SubDir(tag, a)], [SubDir(tag, b)]);
  }

  lemma ZerothHeadShape(e: Attributes, e': Attributes)
    ensures SameShape(ZerothHead(e), ZerothHead(e'))
  {
    hide ShortBytes, RationalBytes, SameShape;
    SameFields(ZerothHead(e), ZerothHead(e'));
  }

  lemma OptionalShape(tag: u16, s: seq<byte>, t: seq<byte>)
    requires |s| == |t|
    ensures SameShape(OptionalText(tag, s), OptionalText(tag, t))
    ensures SameShape(OptionalUndef(tag, s), OptionalUndef(tag, t))
  {
    SameFields(OptionalText(tag, s), OptionalText(tag, t));
    SameFields(OptionalUndef(tag, s), OptionalUndef(tag, t));
  }

  lemma ZerothTextsShape(e: Attributes, e': Attributes)
    requires SameLayout(e, e')
    ensures SameShape(ZerothTexts(e), ZerothTexts(e'))
  {
    hide OptionalText, CString, SameShape;
    var a, b, c := OptionalText(0x010F, e.maker), OptionalText(0x0110, e.model), OptionalText(0x0131, e.software);
    var a', b', c' := OptionalText(0x010F, e'.maker), OptionalText(0x0110, e'.model), OptionalText(0x0131, e'.software);
    OptionalShape(0x010F, e.maker, e'.maker);
    OptionalShape(0x0110, e.model, e'.model);
    OptionalShape(0x0131, e.software, e'.software);
    SameShapeConcat(a, b, a', b');
    SameShapeConcat(a + b, c, a' + b', c');
    var d, d' := [Text(0x0132, e.dateTime, DATETIME_LENGTH)], [Text(0x0132, e'.dateTime, DATETIME_LENGTH)];
    SameFields(d, d');
    SameShapeConcat(a + b + c, d, a' + b' + c', d');
  }

  lemma ExifPartsShape(e: Attributes, e': Attributes)
    ensures SameShape(ExifExposure(e), ExifExposure(e'))
    ensures SameShape(ExifLens(e), ExifLens(e'))
    ensures SameShape(ExifImage(e), ExifImage(e'))
  {
    hide ShortBytes, RationalBytes, Le32, CString, SameShape;
    SameFields(ExifExposure(e), ExifExposure(e'));
    SameFields(ExifLens(e), ExifLens(e'));
    SameFields(ExifImage(e), ExifImage(e'));
  }

  lemma ExifNotesShape(e: Attributes, e': Attributes)
    requires SameLayout(e, e')
    ensures SameShape(ExifNotes(e), ExifNotes(e'))
  {
    hide CString, OptionalUndef, SameShape;
    var a := [Text(0x9290, e.secTime, SUBSECTIME_LENGTH), Text(0x9291, e.secTime, SUBSECTIME_LENGTH),
              Text(0x9292, e.secTime, SUBSECTIME_LENGTH)];
    var a' := [Text(0x9290, e'.secTime, SUBSECTIME_LENGTH), Text(0x9291, e'.secTime, SUBSECTIME_LENGTH),
               Text(0x9292, e'.secTime, SUBSECTIME_LENGTH)];
    SameFields(a, a');
    var b, b' := OptionalUndef(0x927C, e.makerNote), OptionalUndef(0x927C, e'.makerNote);
    var c, c' := OptionalUndef(0x9286, e.userComment), OptionalUndef(0x9286, e'.userComment);
    OptionalShape(0x927C, e.makerNote, e'.makerNote);
    OptionalShape(0x9286, e.userComment, e'.userComment);
    SameShapeConcat(a, b, a', b');
    SameShapeConcat(a + b, c, a' + b', c');
  }

  lemma ExifSceneShape(e: Attributes, e': Attributes)
    requires SameLayout(e, e')
    ensures SameShape(ExifScene(e), ExifScene(e'))
  {
    hide ShortBytes, RationalBytes, OptionalText, SameShape;
    var a := [Rationals(0xA404, [e.digitalZoomRatio]), Short(0xA405, e.focalLengthIn35mm),
              Short(0xA406, e.sceneCaptureType), Short(0xA408, e.contrast), Short(0xA409, e.saturation),
              Short(0xA40A, e.sharpness)];
    var a' := [Rationals(0xA404, [e'.digitalZoomRatio]), Short(0xA405, e'.focalLengthIn35mm),
               Short(0xA406, e'.sceneCaptureType), Short(0xA408, e'.contrast), Short(0xA409, e'.saturation),
               Short(0xA40A, e'.sharpness)];
    SameFields(a, a');
    OptionalShape(0xA420, e.uniqueId, e'.uniqueId);
    SameShapeConcat(a, OptionalText(0xA420, e.uniqueId), a', OptionalText(0xA420, e'.uniqueId));
  }

  lemma ExifShape(e: Attributes, e': Attributes)
    requires SameLayout(e, e')
    ensures SameShape(ExifFields(e), ExifFields(e'))
  {
    hide ExifExposure, ExifLens, ExifNotes, ExifImage, ExifScene, InteropFields, SameShape, SameLayout;
    var a, b, c, d, f := ExifExposure(e), ExifLens(e), ExifNotes(e), ExifImage(e), ExifScene(e);
    var a', b', c', d', f' := ExifExposure(e'), ExifLens(e'), ExifNotes(e'), ExifImage(e'), ExifScene(e');
    ExifPartsShape(e, e');
    ExifNotesShape(e, e');
    ExifSceneShape(e, e');
    SameShapeConcat(a, b, a', b');
    SameShapeConcat(a + b, c, a' + b', c');
    SameShapeConcat(a + b + c, d, a' + b' + c', d');
    SameShapeConcat(a + b + c + d, f, a' + b' + c' + d', f');
    InteropShape(e, e');
    SingleShape(INTEROPERABILITY_POINTER, InteropFields(e), InteropFields(e'));
    SameShapeConcat(ExifScalars(e), [SubDir(INTEROPERABILITY_POINTER, InteropFields(e))],
                    ExifScalars(e'), [SubDir(INTEROPERABILITY_POINTER, InteropFields(e'))]);
  }

  lemma InteropShape(e: Attributes, e': Attributes)
    ensures SameShape(InteropFields(e), InteropFields(e'))
  {
    SameFields(InteropFields(e), InteropFields(e'));
  }

  lemma GpsShape(e: Attributes, e': Attributes)
    requires SameLayout(e, e')
    ensures SameShape(GpsFields(e), GpsFields(e'))
  {
    hide RationalBytes, CString, Terminated, SameShape;
    SameFields(GpsPosition(e), GpsPosition(e'));
    SameFields(GpsDetail(e), GpsDetail(e'));
    SameShapeConcat(GpsPosition(e), GpsDetail(e), GpsPosition(e'), GpsDetail(e'));
  }

  lemma ZerothShape(e: Attributes, e': Attributes)
    requires SameLayout(e, e')
    ensures SameShape(ZerothFields(e), ZerothFields(e'))
  {
    hide ZerothHead, ZerothTexts, ExifFields, GpsFields, SameShape;
    var a, b, c := ZerothHead(e), ZerothTexts(e), [SubDir(EXIF_IFD_POINTER, ExifFields(e))];
    var a', b', c' := ZerothHead(e'), ZerothTexts(e'), [SubDir(EXIF_IFD_POINTER, ExifFields(e'))];
    ZerothHeadShape(e, e');
    ZerothTextsShape(e, e');
    ExifShape(e, e');
    GpsShape(e, e');
    SingleShape(EXIF_IFD_POINTER, ExifFields(e), ExifFields(e'));
    SingleShape(GPS_IFD_POINTER, GpsFields(e), GpsFields(e'));
    SameShapeConcat(a, b, a', b');
    SameShapeConcat(a + b, c, a' + b', c');
    if e.enableGps {
      SameShapeConcat(a + b + c, [SubDir(GPS_IFD_POINTER, GpsFields(e))],
                      a' + b' + c', [SubDir(GPS_IFD_POINTER, GpsFields(e'))]);
    } else {
      assert a + b + c + [] == a + b + c && a' + b' + c' + [] == a' + b' + c';
    }
  }

  // ---------------------------------------------------------------- update commutes with writing

  /** A segment of `e'` that keeps the length, the next pointer and the thumbnail directory of `e`. */
  ghost function UpdatedImage(e: Attributes, e': Attributes, length: nat, thumbLength: nat): Image {
    Lit([0xFF, 0xE1]) + Lit(Be16(U16(length))) + Lit(EXIF_IDENTIFIER + TIFF_HEADER)
    + DirImage(|TIFF_HEADER|, ZerothFields(e'), if e.enableThumb then FirstOffset(e) else 0)
    + FirstImage(e, thumbLength)
  }

  lemma OverlayParts(n: Image, e: Image, v: Image, e0: Image, o: Image, v0: Image)
    requires SameMask(e, e0) && SameMask(v, v0)
    ensures Overlay(n + e + Blank(|o|) + v, n + e0 + o + v0) == n + e + o + v
  {
    hide Overlay, SameMask, Blank;
    SelfMask(n);
    OverlayWhole(n, n);
    OverlayWhole(e, e0);
    OverlayWhole(v, v0);
    OverlayWhole([], o);
    SameMaskLength(e, e0);
    OverlayConcat(n, e, n, e0);
    OverlayConcat(n + e, Blank(|o|), n + e0, o);
    SameMaskLength(v, v0);
    OverlayConcat(n + e + Blank(|o|), v, n + e0 + o, v0);
  }

  lemma SameMaskLength(a: Image, b: Image)
    requires SameMask(a, b)
    ensures |a| == |b|
  {
  }

  /** Writing the fields of a directory over one of the same shape leaves its next pointer. */
  lemma OverlayDirectory(a: seq<Field>, b: seq<Field>, off: nat, next: nat)
    requires SameShape(a, b)
    ensures DirSize(a) == DirSize(b)
    ensures Overlay(Partial(off, |b|, b), DirImage(off, a, next)) == DirImage(off, b, next)
  {
    hide SameShape, Entries, Values, Lit, Overlay, SameMask, Blank, CountImage, OffsetImage, Partial, DirImage, DirSize;
    var voff := off + HeadSize(|a|);
    SameShapeLength(a, b);
    SameShapeMask(a, b, voff);
    SameMaskSymmetric(Entries(a, voff), Entries(b, voff));
    SameMaskSymmetric(Values(a, voff), Values(b, voff));
    OverlayParts(CountImage(|a|), Entries(b, voff), Values(b, voff), Entries(a, voff), OffsetImage(next), Values(a, voff));
    DirectoryParts(a, off, next);
    DirectoryParts(b, off, next);
    SameMaskLength(Values(a, voff), Values(b, voff));
  }

  lemma DirectoryParts(dir: seq<Field>, off: nat, next: nat)
    ensures
      var n, e, v := CountImage(|dir|), Entries(dir, off + HeadSize(|dir|)), Values(dir, off + HeadSize(|dir|));
      && Partial(off, |dir|, dir) == n + e + Blank(|OffsetImage(next)|) + v
      && DirImage(off, dir, next) == n + e + OffsetImage(next) + v
      && DirSize(dir) == HeadSize(|dir|) + |v|
  {
    hide Entries, Values, Blank, CountImage;
  }

  lemma SameMaskSymmetric(a: Image, b: Image)
    requires SameMask(a, b)
    ensures SameMask(b, a)
  {
  }

  /**
   In-place update commutes with writing: a segment written for `e` and then updated to `e'` is
   what writing `e'` leaves, except for the length, IFD0's next pointer and IFD1.
   */
  lemma UpdateAfterWrite(mem: seq<byte>, at: nat, e: Attributes, e': Attributes, length: nat, thumbLength: nat)
    requires SameLayout(e, e') && at + MARKER_SIZE + App1Length(e) <= |mem|
    ensures |UpdateImage(e')| <= |App1Image(e, length, thumbLength)| == |UpdatedImage(e, e', length, thumbLength)|
    ensures Stamp(Stamp(mem, at, App1Image(e, length, thumbLength)), at, UpdateImage(e'))
            == Stamp(mem, at, UpdatedImage(e, e', length, thumbLength))
  {
    hide ZerothFields, SameLayout, SameShape, Stamp, DirImage, Partial, FirstImage, Lit, Overlay, Blank, DirSize, SameMask;
    var m, l, ids := Lit([0xFF, 0xE1]), Lit(Be16(U16(length))), Lit(EXIF_IDENTIFIER + TIFF_HEADER);
    var next := if e.enableThumb then FirstOffset(e) else 0;
    var a, b := ZerothFields(e), ZerothFields(e');
    var dir, part, first := DirImage(|TIFF_HEADER|, a, next), Partial(|TIFF_HEADER|, |b|, b), FirstImage(e, thumbLength);
    ZerothShape(e, e');
    PartialLength(b);
    OverlayDirectory(a, b, |TIFF_HEADER|, next);
    SelfMask(m);
    SelfMask(ids);
    OverlayWhole(m, m);
    OverlayWhole(ids, ids);
    OverlayWhole([], l);
    OverlayWhole([], first);
    OverlayConcat(m, Blank(LENFIELD_SIZE), m, l);
    OverlayConcat(m + Blank(LENFIELD_SIZE), ids, m + l, ids);
    OverlayConcat(m + Blank(LENFIELD_SIZE) + ids, part, m + l + ids, dir);
    OverlayConcat(m + Blank(LENFIELD_SIZE) + ids + part, [], m + l + ids + dir, first);
    assert UpdateImage(e') + [] == UpdateImage(e');
    StampOverlay(mem, at, App1Image(e, length, thumbLength), UpdateImage(e'));
  }

  lemma SelfMask(a: Image)
    ensures SameMask(a, a)
  {
  }

  lemma PartialLength(b: seq<Field>)
    ensures |Partial(|TIFF_HEADER|, |b|, b)| == DirSize(b)
  {
  }

  lemma LeInjective(v: u32, w: u32, x: u16, y: u16)
    ensures Le32(v) == Le32(w) ==> v == w
    ensures ShortBytes([x]) == ShortBytes([y]) ==> x == y
  {
    SplitLe32(v);
    SplitLe32(w);
    assert Le32(v) == Le32(w) ==> Le32(v)[0] == Le32(w)[0] && Le32(v)[1] == Le32(w)[1]
                                  && Le32(v)[2] == Le32(w)[2] && Le32(v)[3] == Le32(w)[3];
    assert ShortBytes([x])[0] == x % 0x100 && ShortBytes([x])[1] == x / 0x100;
    assert ShortBytes([y])[0] == y % 0x100 && ShortBytes([y])[1] == y / 0x100;
  }

  /** The attributes that IFD1 repeats. */
  ghost predicate SameFirst(e: Attributes, e': Attributes) {
    && e.widthThumb == e'.widthThumb && e.heightThumb == e'.heightThumb
    && e.compressionScheme == e'.compressionScheme && e.orientation == e'.orientation
  }

  lemma FirstFieldsInjective(e: Attributes, e': Attributes, offset: nat, length: nat)
    requires FirstFields(e, offset, length) == FirstFields(e', offset, length)
    ensures SameFirst(e, e')
  {
    hide Le32, ShortBytes;
    var a, b := FirstFields(e, offset, length), FirstFields(e', offset, length);
    assert a[0] == b[0] && a[1] == b[1] && a[2] == b[2] && a[3] == b[3];
    LeInjective(e.widthThumb, e'.widthThumb, e.compressionScheme, e'.compressionScheme);
    LeInjective(e.heightThumb, e'.heightThumb, e.orientation, e'.orientation);
  }

  lemma SameFirstOffset(e: Attributes, e': Attributes)
    requires SameLayout(e, e')
    ensures FirstOffset(e) == FirstOffset(e') && App1Length(e) == App1Length(e')
  {
    hide SameLayout, SameShape, SameMask, DirSize, ZerothFields;
    ZerothShape(e, e');
    SameDirMask(ZerothFields(e), ZerothFields(e'), 0, 0, 0);
    SameThumb(e, e');
  }

  lemma SameThumb(e: Attributes, e': Attributes)
    requires SameLayout(e, e')
    ensures e.enableThumb == e'.enableThumb
  {
  }

  /** IFD1 of an image, read back from any buffer that matches it. */
  lemma FirstReadBack(mem: seq<byte>, at: nat, e: Attributes, zeroth: seq<Field>, length: nat, thumbLength: nat)
    requires e.enableThumb && App1Length(e) <= MAX_SEGMENT_SIZE && DirSize(zeroth) == DirSize(ZerothFields(e))
    requires Matches(mem, at, Lit([0xFF, 0xE1]) + Lit(Be16(U16(length))) + Lit(EXIF_IDENTIFIER + TIFF_HEADER)
                              + DirImage(|TIFF_HEADER|, zeroth, FirstOffset(e)) + FirstImage(e, thumbLength))
    ensures ReadDir(mem, at + TIFF_BASE, FirstOffset(e), FirstIfd)
            == Some(Parsed(FirstFields(e, FirstOffset(e) + 78, thumbLength), 0,
                           Extents(FirstOffset(e), FirstFields(e, FirstOffset(e) + 78, thumbLength))))
  {
    hide Matches, ZerothFields, DirImage, ReadDir, Extents, WellFormed, FirstFields, DirSize;
    var first := FirstFields(e, FirstOffset(e) + 78, thumbLength);
    MatchesConcat(mem, at, Lit([0xFF, 0xE1]) + Lit(Be16(U16(length))) + Lit(EXIF_IDENTIFIER + TIFF_HEADER)
                           + DirImage(|TIFF_HEADER|, zeroth, FirstOffset(e)), FirstImage(e, thumbLength));
    FirstSize(e, FirstOffset(e) + 78, thumbLength);
    FirstWellFormed(e, FirstOffset(e) + 78, thumbLength);
    ReadBack(mem, at + TIFF_BASE, FirstOffset(e), first, 0, FirstIfd);
  }

  /**
   Updating to `e'` after writing `e` leaves exactly what writing `e'` with the same lengths leaves
   if and only if there is no thumbnail or the attributes repeated in IFD1 have not changed.
   */
  lemma UpdateIsWrite(mem: seq<byte>, at: nat, e: Attributes, e': Attributes, length: nat, thumbLength: nat)
    requires SameLayout(e, e') && at + MARKER_SIZE + App1Length(e) <= |mem| && App1Length(e) <= MAX_SEGMENT_SIZE
    ensures |UpdateImage(e')| <= |App1Image(e, length, thumbLength)| == |App1Image(e', length, thumbLength)|
    ensures Stamp(Stamp(mem, at, App1Image(e, length, thumbLength)), at, UpdateImage(e'))
            == Stamp(mem, at, App1Image(e', length, thumbLength))
            <==> (e.enableThumb ==> SameFirst(e, e'))
  {
    hide ZerothFields, SameLayout, SameShape, Stamp, DirImage, Lit, DirSize, Matches, FirstFields, ReadDir, SameFirst, UpdateImage, Extents;
    UpdateAfterWrite(mem, at, e, e', length, thumbLength);
    SameFirstOffset(e, e');
    SameThumb(e, e');
    var after, written := Stamp(mem, at, UpdatedImage(e, e', length, thumbLength)), Stamp(mem, at, App1Image(e', length, thumbLength));
    if e.enableThumb && SameFirst(e, e') {
      SameFirstFields(e, e', FirstOffset(e) + 78, thumbLength);
    }
    if e.enableThumb && after == written {
      StampMatches(mem, at, UpdatedImage(e, e', length, thumbLength));
      StampMatches(mem, at, App1Image(e', length, thumbLength));
      FirstReadBack(after, at, e, ZerothFields(e'), length, thumbLength);
      FirstReadBack(written, at, e', ZerothFields(e'), length, thumbLength);
      FirstFieldsInjective(e, e', FirstOffset(e) + 78, thumbLength);
    }
  }

  /** A reader of an updated segment finds the new attributes, but the old length, and what IFD1 said of the old ones. */
  lemma UpdateIsRead(mem: seq<byte>, at: nat, e: Attributes, e': Attributes, length: nat, thumbLength: nat)
    requires SameLayout(e, e') && at + MARKER_SIZE + App1Length(e) <= |mem| && App1Length(e) <= MAX_SEGMENT_SIZE
    requires thumbLength < 0x1_0000_0000
    ensures |UpdateImage(e')| <= |App1Image(e, length, thumbLength)|
    ensures
      var r := ReadExif(Stamp(Stamp(mem, at, App1Image(e, length, thumbLength)), at, UpdateImage(e')), at);
      && r.Some? && r.value.length == length % 0x1_0000 && MainSays(r.value.zeroth.fields, e')
      && match r.value.first {
           case None => !e.enableThumb
           case Some(first) => e.enableThumb && Unique(first.fields) && FirstSays(first.fields, e, App1Length(e) - 8, thumbLength)
         }
  {
    hide ZerothFields, SameLayout, Stamp, DirImage, Matches, FirstFields, ReadDir, UpdateImage, Extents, MainSays, FirstSays, Unique;
    hide App1Image, WellFormed, DirSize;
    UpdateAfterWrite(mem, at, e, e', length, thumbLength);
    SameFirstOffset(e, e');
    var after := Stamp(mem, at, UpdatedImage(e, e', length, thumbLength));
    StampMatches(mem, at, UpdatedImage(e, e', length, thumbLength));
    var head := Lit([0xFF, 0xE1]) + Lit(Be16(U16(length))) + Lit(EXIF_IDENTIFIER + TIFF_HEADER);
    var next := if e.enableThumb then FirstOffset(e) else 0;
    var dir := DirImage(|TIFF_HEADER|, ZerothFields(e'), next);
    MatchesConcat(after, at, head + dir, FirstImage(e, thumbLength));
    MatchesConcat(after, at, head, dir);
    HeadMatches(after, at, U16(length));
    ZerothWellFormed(e');
    ReadBack(after, at + TIFF_BASE, |TIFF_HEADER|, ZerothFields(e'), next, ZerothIfd);
    MainIsSaid(e');
    if e.enableThumb {
      FirstReadBack(after, at, e, ZerothFields(e'), length, thumbLength);
      FirstIsSaid(e, FirstOffset(e) + 78, thumbLength);
    }
  }

  /** Say only the thumbnail's compression scheme has changed: the update does not store it. */
  lemma ChangedSchemeIsNotStored(mem: seq<byte>, at: nat, e: Attributes, scheme: u16, length: nat, thumbLength: nat)
    requires e.enableThumb && scheme != e.compressionScheme
    requires at + MARKER_SIZE + App1Length(e) <= |mem| && App1Length(e) <= MAX_SEGMENT_SIZE
    ensures SameLayout(e, e.(compressionScheme := scheme))
    ensures |UpdateImage(e.(compressionScheme := scheme))| <= |App1Image(e, length, thumbLength)|
            == |App1Image(e.(compressionScheme := scheme), length, thumbLength)|
    ensures Stamp(Stamp(mem, at, App1Image(e, length, thumbLength)), at, UpdateImage(e.(compressionScheme := scheme)))
            != Stamp(mem, at, App1Image(e.(compressionScheme := scheme), length, thumbLength))
  {
    hide UpdateImage, App1Image, Stamp, App1Length;
    UpdateIsWrite(mem, at, e, e.(compressionScheme := scheme), length, thumbLength);
  }

  lemma SameFirstFields(e: Attributes, e': Attributes, offset: nat, length: nat)
    requires SameFirst(e, e')
    ensures FirstFields(e, offset, length) == FirstFields(e', offset, length)
  {
  }

  // ---------------------------------------------------------------- updates that outgrow their segment

  /** The values of a directory end with a stored byte. */
  lemma {:induction false} ValuesEndStored(dir: seq<Field>, voff: nat)
    ensures var v := Values(dir, voff); v == [] || v[|v| - 1].Put?
    decreases dir, 0
  {
    if dir != [] {
      ValuesEndStored(dir[1..], voff + FieldSize(dir[0]));
      if dir[0].SubDir? {
        DirEndsStored(voff, dir[0].dir, 0);
      }
    }
  }

  lemma {:induction false} DirEndsStored(off: nat, dir: seq<Field>, next: nat)
    ensures var d := DirImage(off, dir, next); d[|d| - 1].Put?
    decreases dir, 1
  {
    hide Entries, Values, ValuesSize, CountImage, DirSize;
    ValuesEndStored(dir, off + HeadSize(|dir|));
    assert OffsetImage(next)[3].Put?;
  }

  lemma PartialEndsStored(off: nat, dir: seq<Field>)
    requires dir != [] && dir[|dir| - 1].SubDir?
    ensures var img := Partial(off, |dir|, dir); img[|img| - 1].Put?
  {
    hide Entries, Values, ValuesSize, CountImage, Blank, EntryImage;
    var voff, last := off + HeadSize(|dir|), |dir| - 1;
    assert dir == dir[..last] + [dir[last]];
    OneMore(dir[..last], dir[last], voff);
    ValuesEndStored(dir, voff);
  }

  lemma UpdateEndsStored(e: Attributes)
    ensures var img := UpdateImage(e); img[|img| - 1].Put?
  {
    hide ZerothHead, ZerothTexts, ExifFields, GpsFields, Partial;
    PartialEndsStored(|TIFF_HEADER|, ZerothFields(e));
  }

  /** An update stores bytes behind its segment if and only if it is longer than the segment announces. */
  lemma BehindIffLonger(e: Attributes, end: nat)
    requires end >= MARKER_SIZE
    ensures StoresBehind(UpdateImage(e), MARKER_SIZE, end) <==> MARKER_SIZE + |UpdateImage(e)| > end
  {
    hide UpdateImage;
    UpdateEndsStored(e);
    var img := UpdateImage(e);
    if MARKER_SIZE + |img| > end {
      assert img[|img| - 1].Put? && MARKER_SIZE + (|img| - 1) >= end;
    }
  }

  /** What starts like an update: the marker, and a length that it leaves alone. */
  lemma UpdateStarts(mem: seq<byte>, e: Attributes)
    requires MARKER_SIZE + |UpdateImage(e)| <= |mem|
    ensures var r := Stamp(mem, MARKER_SIZE, UpdateImage(e));
            |mem| >= 6 && r[..2] == mem[..2] && r[2] == 0xFF && r[3] == 0xE1 && GetBe16(r, 4) == GetBe16(mem, 4)
  {
    hide Partial, ZerothFields;
  }

  /** An update that stays inside its segment leaves what follows, and with it the parser's verdict. */
  lemma UpdateInside(mem: seq<byte>, n: nat, e: Attributes)
    requires 6 <= n <= |mem| && MARKER_SIZE + |UpdateImage(e)| <= |mem| && mem[2] == 0xFF && mem[3] == 0xE1
    requires !Outgrows(mem, e)
    ensures SameFrame(Stamp(mem, MARKER_SIZE, UpdateImage(e)), mem, n)
    ensures var r := Stamp(mem, MARKER_SIZE, UpdateImage(e));
            4 + GetBe16(mem, 4) <= |mem| ==> r[4 + GetBe16(mem, 4)..] == mem[4 + GetBe16(mem, 4)..]
  {
    hide UpdateImage, Stamp, FrameAt;
    BehindIffLonger(e, 4 + GetBe16(mem, 4));
    UpdateStarts(mem, e);
    var r, end := Stamp(mem, MARKER_SIZE, UpdateImage(e)), 4 + GetBe16(mem, 4);
    assert r[0] == r[..2][0] == mem[..2][0] && r[1] == r[..2][1] == mem[..2][1];
    if end <= |mem| {
      StampKeeps(mem, MARKER_SIZE, UpdateImage(e), end);
    }
    if end <= n {
      assert r[..n][end..] == r[end..][..n - end] && mem[..n][end..] == mem[end..][..n - end];
      ScanMoved(r[..n], end, mem[..n], end);
    }
  }

  lemma StampKeeps(mem: seq<byte>, at: nat, img: Image, end: nat)
    requires at + |img| <= end <= |mem|
    ensures Stamp(mem, at, img)[end..] == mem[end..]
  {
  }

  /** The parser's verdict on the first `n` bytes is the same. */
  ghost predicate SameFrame(a: seq<byte>, b: seq<byte>, n: nat) {
    n <= |a| && n <= |b| && Verdict(a[..n]) == Verdict(b[..n])
  }

  /** The update stores bytes behind the segment. */
  ghost predicate Outgrows(mem: seq<byte>, e: Attributes)
    requires |mem| >= 6
  {
    StoresBehind(UpdateImage(e), MARKER_SIZE, 4 + GetBe16(mem, 4))
  }

  /** An APP1 segment without contents, and a baseline frame of 640 by 480 right behind it. */
  const EMPTY_APP1: seq<byte> := [
    0xFF, 0xD8, 0xFF, 0xE1, 0, 2,
    0xFF, 0xC0, 0, 17, 8, 1, 0xE0, 2, 0x80, 3, 1, 0x22, 0, 2, 0x11, 1, 3, 0x11, 1]

  /** Whatever the attributes are, an update of that stream overwrites the frame's marker. */
  lemma OverwritesFrame(e: Attributes)
    ensures
      var mem := EMPTY_APP1 + seq(|UpdateImage(e)|, _ => 0);
      Outgrows(mem, e) && Verdict(mem) == (true, Frame(3, 640, 480, 2, 2)) && !Verdict(Stamp(mem, MARKER_SIZE, UpdateImage(e))).0
  {
    hide UpdateImage, Stamp, Verdict, StoresBehind, GetBe16;
    var mem := EMPTY_APP1 + seq(|UpdateImage(e)|, _ => 0);
    EmptyApp1IsAccepted(mem);
    BehindIffLonger(e, 6);
    IdentifierFollows(mem, e);
    UpdateStarts(mem, e);
    var after := Stamp(mem, MARKER_SIZE, UpdateImage(e));
    assert after[0] == after[..2][0] == mem[..2][0] && after[1] == after[..2][1] == mem[..2][1];
    NoSegmentAt6(after);
  }

  lemma EmptyApp1IsAccepted(mem: seq<byte>)
    requires EMPTY_APP1 <= mem
    ensures Verdict(mem) == (true, Frame(3, 640, 480, 2, 2)) && GetBe16(mem, 4) == 2
  {
    assert forall i :: 0 <= i < |EMPTY_APP1| ==> mem[i] == EMPTY_APP1[i];
    assert Skippable(mem, 2) && Next(mem, 2) == 6;
    assert !Skippable(mem, 6);
    assert Scan(mem, 6) == FrameAt(mem, 8);
  }

  lemma IdentifierFollows(mem: seq<byte>, e: Attributes)
    requires MARKER_SIZE + |UpdateImage(e)| <= |mem|
    ensures |UpdateImage(e)| > 4 && Stamp(mem, MARKER_SIZE, UpdateImage(e))[6] == EXIF_IDENTIFIER[0]
  {
    hide Partial, ZerothFields;
    assert UpdateImage(e)[4] == Put(EXIF_IDENTIFIER[0]);
  }

  lemma NoSegmentAt6(s: seq<byte>)
    requires |s| > 6 && s[2] == 0xFF && s[3] == 0xE1 && GetBe16(s, 4) == 2 && s[6] != 0xFF
    ensures !Verdict(s).0
  {
    hide FrameAt;
    if Skippable(s, 2) {
      assert Scan(s, 2) == Scan(s, 6);
    }
  }

  method UpdateExif(jpeg: array<byte>, jpeglen: nat, exif: Option<Attributes>) returns (ok: bool)
    requires jpeglen <= jpeg.Length < 0x8000_0000
    requires exif.Some? ==> Acceptable(exif, None) && MARKER_SIZE + |UpdateImage(exif.value)| <= jpeg.Length
    modifies jpeg
    ensures ok <==> exif.None? || (jpeglen >= 6 && old(jpeg[0]) == 0xFF && old(jpeg[1]) == 0xD8
                                   && old(jpeg[2]) == 0xFF && old(jpeg[3]) == 0xE1 && GetBe16(old(jpeg[..]), 4) <= jpeglen)
    ensures jpeg[..] == if ok && exif.Some? then Stamp(old(jpeg[..]), MARKER_SIZE, UpdateImage(exif.value)) else old(jpeg[..])
    ensures !(ok && exif.Some? && Outgrows(old(jpeg[..]), exif.value)) ==>
              SameFrame(jpeg[..], old(jpeg[..]), jpeglen)
  {
    hide Stamp, UpdateImage, Acceptable, Verdict, Outgrows;
    if exif.None? {
      return true;
    }
    if jpeglen < MARKER_SIZE * 2 + LENFIELD_SIZE {
      return false;
    }
    if jpeg[0] != 0xFF || jpeg[1] != 0xD8 {
      return false;
    }
    if jpeg[2] != 0xFF || jpeg[3] != 0xE1 {
      return false;
    }
    if jpeglen < GetBe16(jpeg[..], 4) {
      return false;
    }
    var writer := new AppMarkerWriter(jpeg, 0);
    writer.PrepareAppWriter(MARKER_SIZE, exif, None);
    writer.Update();
    if !Outgrows(old(jpeg[..]), exif.value) {
      UpdateInside(old(jpeg[..]), jpeglen, exif.value);
    }
    return true;
  }
}
