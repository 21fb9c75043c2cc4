/** The two numbers of an APP1 segment that are patched after it has been written. */
module App1Patch {
  import opened Bytes
  import opened Tiff
  import opened IfdWriters
  import opened Exif
  import opened ExifWriter
  import opened AppMarkers

  lemma App1Parts(mem: seq<byte>, at: nat, e: Attributes, length: nat, thumbLength: nat)
    ensures
      var dir := DirImage(|TIFF_HEADER|, ZerothFields(e), if e.enableThumb then FirstOffset(e) else 0);
      Matches(mem, at, App1Image(e, length, thumbLength)) <==>
        Matches(mem, at, Lit([0xFF, 0xE1])) && Matches(mem, at + 2, Lit(Be16(U16(length))))
        && Matches(mem, at + 4, Lit(EXIF_IDENTIFIER + TIFF_HEADER)) && Matches(mem, at + TIFF_BASE + |TIFF_HEADER|, dir)
        && Matches(mem, at + TIFF_BASE + FirstOffset(e), FirstImage(e, thumbLength))
  {
    hide Matches, ZerothFields, DirImage, DirSize, Lit, FirstImage;
    var m, l, ids := Lit([0xFF, 0xE1]), Lit(Be16(U16(length))), Lit(EXIF_IDENTIFIER + TIFF_HEADER);
    var dir := DirImage(|TIFF_HEADER|, ZerothFields(e), if e.enableThumb then FirstOffset(e) else 0);
    MatchesConcat(mem, at, m + l + ids + dir, FirstImage(e, thumbLength));
    MatchesConcat(mem, at, m + l + ids, dir);
    MatchesConcat(mem, at, m + l, ids);
    MatchesConcat(mem, at, m, l);
  }

  /** `UpdateApp1Size`: the segment now announces another length. */
  lemma LengthPatched(mem: seq<byte>, at: nat, e: Attributes, length: nat, length': nat, thumbLength: nat)
    requires Matches(mem, at, App1Image(e, length, thumbLength))
    ensures at + 4 <= |mem|
    ensures Matches(Stamp(mem, at + MARKER_SIZE, Lit(Be16(U16(length')))), at, App1Image(e, length', thumbLength))
  {
    hide Matches, ZerothFields, DirImage, DirSize, Lit, FirstImage, Stamp, Be16, App1Image;
    var s := Be16(U16(length'));
    var dir := DirImage(|TIFF_HEADER|, ZerothFields(e), if e.enableThumb then FirstOffset(e) else 0);
    App1Parts(mem, at, e, length, thumbLength);
    Fits(mem, at + 2, Lit(Be16(U16(length))));
    var mem' := Stamp(mem, at + MARKER_SIZE, Lit(s));
    MatchesApart(mem, at, Lit([0xFF, 0xE1]), at + MARKER_SIZE, s);
    MatchesStamped(mem, at + MARKER_SIZE, s);
    MatchesApart(mem, at + 4, Lit(EXIF_IDENTIFIER + TIFF_HEADER), at + MARKER_SIZE, s);
    MatchesApart(mem, at + TIFF_BASE + |TIFF_HEADER|, dir, at + MARKER_SIZE, s);
    MatchesApart(mem, at + TIFF_BASE + FirstOffset(e), FirstImage(e, thumbLength), at + MARKER_SIZE, s);
    App1Parts(mem', at, e, length', thumbLength);
  }

  lemma Fits(mem: seq<byte>, at: nat, img: Image)
    requires Matches(mem, at, img)
    ensures at + |img| <= |mem|
  {
  }

  const PLACEHOLDER := FIELDCOUNT_SIZE + 12 * 5 + 8  // from the start of IFD1

  /** IFD1 up to the value field of its last entry. */
  ghost function FirstFront(e: Attributes): (img: Image)
    ensures |img| == PLACEHOLDER
  {
    CountImage(6) + Entries(FirstFields(e, FirstOffset(e) + 78, 0)[..5], FirstOffset(e) + HeadSize(6))
    + Lit(TagTypeCount(0x0202, LONG, 1))
  }

  lemma FirstImageSplit(e: Attributes, thumbLength: nat)
    requires e.enableThumb
    ensures FirstImage(e, thumbLength) == FirstFront(e) + Lit(Le32(U32(thumbLength))) + OffsetImage(0)
  {
    hide Le32, TagTypeCount, ZerothFields, ShortBytes, Entries, Values, FirstFields, Lit;
    var off, voff := FirstOffset(e), FirstOffset(e) + HeadSize(6);
    var fields := FirstFields(e, off + 78, thumbLength);
    FirstFieldsSplit(e, off + 78, 0);
    var front, last := FirstFields(e, off + 78, 0)[..5], Long(0x0202, U32(thumbLength));
    FirstFieldsSplit(e, off + 78, thumbLength);
    FirstSize(e, off + 78, thumbLength);
    EntriesConcat(front, [last], voff);
    LastEntry(last, voff + ValuesSize(front), thumbLength);
    assert Values(fields, voff) == [];
    Regroup(CountImage(6), Entries(front, voff), Lit(TagTypeCount(0x0202, LONG, 1)), Lit(Le32(U32(thumbLength))), OffsetImage(0));
  }

  lemma Regroup(a: Image, b: Image, c: Image, d: Image, f: Image)
    ensures a + (b + (c + d)) + f + [] == a + b + c + d + f
  {
  }

  lemma FirstFieldsSplit(e: Attributes, offset: nat, thumbLength: nat)
    ensures |FirstFields(e, offset, thumbLength)| == 6
    ensures FirstFields(e, offset, thumbLength) == FirstFields(e, offset, 0)[..5] + [Long(0x0202, U32(thumbLength))]
  {
  }

  lemma LastEntry(f: Field, voff: nat, thumbLength: nat)
    requires f == Long(0x0202, U32(thumbLength))
    ensures Entries([f], voff) == Lit(TagTypeCount(0x0202, LONG, 1)) + Lit(Le32(U32(thumbLength)))
  {
    hide Le32, TagTypeCount, Lit;
    assert EntryImage(f, voff) == Lit(TagTypeCount(0x0202, LONG, 1)) + Lit(Le32(U32(thumbLength))) + Blank(0);
  }

  /** `Finalize`: IFD1 now records the thumbnail's length. */
  lemma ThumbLengthPatched(mem: seq<byte>, at: nat, e: Attributes, length: nat, thumbLength: nat, thumbLength': nat)
    requires e.enableThumb && Matches(mem, at, App1Image(e, length, thumbLength))
    ensures at + TIFF_BASE + FirstOffset(e) + PLACEHOLDER + 4 <= |mem|
    ensures Matches(Stamp(mem, at + TIFF_BASE + FirstOffset(e) + PLACEHOLDER, Lit(Le32(U32(thumbLength')))),
                    at, App1Image(e, length, thumbLength'))
  {
    hide Matches, ZerothFields, DirImage, DirSize, Lit, FirstImage, Stamp, Le32, App1Image, FirstFront;
    var first, s := at + TIFF_BASE + FirstOffset(e), Le32(U32(thumbLength'));
    var dir := DirImage(|TIFF_HEADER|, ZerothFields(e), FirstOffset(e));
    App1Parts(mem, at, e, length, thumbLength);
    FirstImageSplit(e, thumbLength);
    FirstImageSplit(e, thumbLength');
    Fits(mem, first, FirstImage(e, thumbLength));
    var mem' := Stamp(mem, first + PLACEHOLDER, Lit(s));
    MatchesApart(mem, at, Lit([0xFF, 0xE1]), first + PLACEHOLDER, s);
    MatchesApart(mem, at + 2, Lit(Be16(U16(length))), first + PLACEHOLDER, s);
    MatchesApart(mem, at + 4, Lit(EXIF_IDENTIFIER + TIFF_HEADER), first + PLACEHOLDER, s);
    MatchesApart(mem, at + TIFF_BASE + |TIFF_HEADER|, dir, first + PLACEHOLDER, s);
    MatchesReplaced(mem, first, FirstFront(e), Le32(U32(thumbLength)), s, OffsetImage(0));
    App1Parts(mem', at, e, length, thumbLength');
  }
}
