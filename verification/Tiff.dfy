/**
 The TIFF 6.0 image file directory (section 2), as nested fields: the layout the writer
 gives it, and a reader that follows the offsets stored in the bytes.
 */
module Tiff {
  import opened Bytes

  datatype Option<+T> = None | Some(value: T)

  datatype FieldType = BYTE | ASCII | SHORT | LONG | RATIONAL | UNDEFINED | SRATIONAL {
    function Code(): u16 {
      match this
      case BYTE => 1
      case ASCII => 2
      case SHORT => 3
      case LONG => 4
      case RATIONAL => 5
      case UNDEFINED => 7
      case SRATIONAL => 10
    }

    function Size(): (n: nat)
      ensures n > 0
    {
      match this
      case BYTE | ASCII | UNDEFINED => 1
      case SHORT => 2
      case LONG => 4
      case RATIONAL | SRATIONAL => 8
    }
  }

  function FromCode(code: u16): Option<FieldType> {
    if code == 1 then Some(BYTE)
    else if code == 2 then Some(ASCII)
    else if code == 3 then Some(SHORT)
    else if code == 4 then Some(LONG)
    else if code == 5 then Some(RATIONAL)
    else if code == 7 then Some(UNDEFINED)
    else if code == 10 then Some(SRATIONAL)
    else None
  }

  /** A directory field: a value of `|data| / typ.Size()` components, or a pointer to a nested directory. */
  datatype Field =
    | Value(tag: u16, typ: FieldType, data: seq<byte>)
    | SubDir(tag: u16, dir: seq<Field>)

  const FIELDCOUNT_SIZE := 2
  const FIELD_SIZE := 12
  const NEXTIFDOFFSET_SIZE := 4
  const VALOFF_SIZE := 4

  // ---------------------------------------------------------------- layout

  /** What a field takes outside its 12-byte directory entry. */
  function FieldSize(f: Field): nat {
    match f
    case Value(_, _, data) => if |data| > VALOFF_SIZE then |data| else 0
    case SubDir(_, dir) => DirSize(dir)
  }

  function ValuesSize(dir: seq<Field>): nat
    decreases dir, 0
  {
    if dir == [] then 0 else FieldSize(dir[0]) + ValuesSize(dir[1..])
  }

  function HeadSize(n: nat): nat {
    FIELDCOUNT_SIZE + 12 * n + NEXTIFDOFFSET_SIZE
  }

  function DirSize(dir: seq<Field>): nat
    decreases dir, 1
  {
    HeadSize(|dir|) + ValuesSize(dir)
  }

  function TagTypeCount(tag: u16, typ: FieldType, count: int): (s: seq<byte>)
    ensures |s| == 8
  {
    Le16(tag) + Le16(typ.Code()) + Le32(U32(count))
  }

  /** The directory entry of a field whose out-of-line part, if any, lies at offset `voff`. */
  ghost function EntryImage(f: Field, voff: nat): (img: Image)
    ensures |img| == FIELD_SIZE
  {
    match f
    case Value(tag, typ, data) =>
      if |data| > VALOFF_SIZE then Lit(TagTypeCount(tag, typ, |data| / typ.Size()) + Le32(U32(voff)))
      else Lit(TagTypeCount(tag, typ, |data| / typ.Size())) + Lit(data) + Blank(VALOFF_SIZE - |data|)
    case SubDir(tag, _) =>
      Lit(TagTypeCount(tag, LONG, 1) + Le32(U32(voff)))
  }

  ghost function Entries(dir: seq<Field>, voff: nat): (img: Image)
    ensures |img| == 12 * |dir|
  {
    if dir == [] then [] else EntryImage(dir[0], voff) + Entries(dir[1..], voff + FieldSize(dir[0]))
  }

  ghost function ValueImage(f: Field, voff: nat): (img: Image)
    ensures |img| == FieldSize(f)
  {
    match f
    case Value(_, _, data) => if |data| > VALOFF_SIZE then Lit(data) else []
    case SubDir(_, dir) => DirImage(voff, dir, 0)
  }

  ghost function Values(dir: seq<Field>, voff: nat): (img: Image)
    ensures |img| == ValuesSize(dir)
    decreases dir, 0
  {
    if dir == [] then [] else ValueImage(dir[0], voff) + Values(dir[1..], voff + FieldSize(dir[0]))
  }

  ghost function CountImage(n: nat): (img: Image)
    ensures |img| == FIELDCOUNT_SIZE
  {
    Lit(Le16(U16(n)))
  }

  ghost function OffsetImage(off: nat): (img: Image)
    ensures |img| == 4
  {
    Lit(Le32(U32(off)))
  }

  /** A whole directory at offset `off`: count, entries, next-directory offset, then the values in order. */
  ghost function DirImage(off: nat, dir: seq<Field>, next: nat): (img: Image)
    ensures |img| == DirSize(dir)
    decreases dir, 1
  {
    CountImage(|dir|) + Entries(dir, off + HeadSize(|dir|)) + OffsetImage(next) + Values(dir, off + HeadSize(|dir|))
  }

  lemma {:induction false} ValuesSizeConcat(a: seq<Field>, b: seq<Field>)
    ensures ValuesSize(a + b) == ValuesSize(a) + ValuesSize(b)
  {
    if a == [] {
      assert a + b == b;
    } else {
      assert (a + b)[1..] == a[1..] + b;
      ValuesSizeConcat(a[1..], b);
    }
  }

  lemma {:induction false} EntriesConcat(a: seq<Field>, b: seq<Field>, voff: nat)
    ensures Entries(a + b, voff) == Entries(a, voff) + Entries(b, voff + ValuesSize(a))
  {
    hide EntryImage;
    if a == [] {
      assert a + b == b;
    } else {
      assert (a + b)[1..] == a[1..] + b;
      var voff' := voff + FieldSize(a[0]);
      EntriesConcat(a[1..], b, voff');
      ConcatAssoc(EntryImage(a[0], voff), Entries(a[1..], voff'), Entries(b, voff + ValuesSize(a)));
    }
  }

  lemma {:induction false} ValuesConcat(a: seq<Field>, b: seq<Field>, voff: nat)
    ensures Values(a + b, voff) == Values(a, voff) + Values(b, voff + ValuesSize(a))
  {
    hide ValueImage;
    if a == [] {
      assert a + b == b;
    } else {
      assert (a + b)[1..] == a[1..] + b;
      var voff' := voff + FieldSize(a[0]);
      ValuesConcat(a[1..], b, voff');
      ConcatAssoc(ValueImage(a[0], voff), Values(a[1..], voff'), Values(b, voff + ValuesSize(a)));
    }
  }

  // ---------------------------------------------------------------- extents

  /** A range of offsets from the TIFF header that one directory or one out-of-line value occupies. */
  datatype Extent = Extent(start: nat, len: nat)

  ghost function FieldExtents(f: Field, voff: nat): seq<Extent> {
    match f
    case Value(_, _, data) => if |data| > VALOFF_SIZE then [Extent(voff, |data|)] else []
    case SubDir(_, dir) => Extents(voff, dir)
  }

  ghost function ValueExtents(dir: seq<Field>, voff: nat): seq<Extent>
    decreases dir, 0
  {
    if dir == [] then [] else FieldExtents(dir[0], voff) + ValueExtents(dir[1..], voff + FieldSize(dir[0]))
  }

  ghost function Extents(off: nat, dir: seq<Field>): seq<Extent>
    decreases dir, 1
  {
    [Extent(off, HeadSize(|dir|))] + ValueExtents(dir, off + HeadSize(|dir|))
  }

  /** The extents follow one another without gap or overlap from `lo` up to `hi`. */
  ghost predicate Tile(xs: seq<Extent>, lo: nat, hi: nat) {
    if xs == [] then lo == hi else xs[0].start == lo && Tile(xs[1..], lo + xs[0].len, hi)
  }

  lemma {:induction false} TileConcat(a: seq<Extent>, b: seq<Extent>, lo: nat, mid: nat, hi: nat)
    requires Tile(a, lo, mid) && Tile(b, mid, hi)
    ensures Tile(a + b, lo, hi)
  {
    if a == [] {
      assert a + b == b;
    } else {
      assert (a + b)[1..] == a[1..] + b;
      TileConcat(a[1..], b, lo + a[0].len, mid, hi);
    }
  }

  /** Tiles are inside the tiled range and pairwise disjoint. */
  lemma {:induction false} TileDisjoint(xs: seq<Extent>, lo: nat, hi: nat)
    requires Tile(xs, lo, hi)
    ensures lo <= hi
    ensures forall i :: 0 <= i < |xs| ==> lo <= xs[i].start && xs[i].start + xs[i].len <= hi
    ensures forall i, j :: 0 <= i < j < |xs| ==> xs[i].start + xs[i].len <= xs[j].start
  {
    if xs != [] {
      TileDisjoint(xs[1..], lo + xs[0].len, hi);
      assert forall i :: 1 <= i < |xs| ==> xs[i] == xs[1..][i - 1];
    }
  }

  lemma {:induction false} ValueExtentsTile(dir: seq<Field>, voff: nat)
    ensures Tile(ValueExtents(dir, voff), voff, voff + ValuesSize(dir))
    decreases dir, 0
  {
    if dir != [] {
      var f := dir[0];
      var mid := voff + FieldSize(f);
      match f {
        case Value(_, _, data) =>
          assert Tile(FieldExtents(f, voff), voff, mid);
        case SubDir(_, sub) =>
          ExtentsTile(voff, sub);
      }
      ValueExtentsTile(dir[1..], mid);
      TileConcat(FieldExtents(f, voff), ValueExtents(dir[1..], mid), voff, mid, voff + ValuesSize(dir));
    }
  }

  /** Directories and out-of-line values, nested ones included, tile the space of the outermost directory. */
  lemma {:induction false} ExtentsTile(off: nat, dir: seq<Field>)
    ensures Tile(Extents(off, dir), off, off + DirSize(dir))
    decreases dir, 1
  {
    ValueExtentsTile(dir, off + HeadSize(|dir|));
    assert Extents(off, dir)[1..] == ValueExtents(dir, off + HeadSize(|dir|));
  }

  // ---------------------------------------------------------------- reader

  /** Which directory is being read: it decides which tags are pointers (section 4.6.3 of Exif 2.2). */
  datatype Kind = ZerothIfd | ExifIfd | InteropIfd | GpsIfd | FirstIfd {
    function Depth(): nat {
      match this
      case ZerothIfd => 2
      case ExifIfd => 1
      case _ => 0
    }
  }

  const EXIF_IFD_POINTER: u16 := 0x8769
  const GPS_IFD_POINTER: u16 := 0x8825
  const INTEROPERABILITY_POINTER: u16 := 0xA005

  function SubKind(kind: Kind, tag: u16): Option<Kind> {
    if kind == ZerothIfd && tag == EXIF_IFD_POINTER then Some(ExifIfd)
    else if kind == ZerothIfd && tag == GPS_IFD_POINTER then Some(GpsIfd)
    else if kind == ExifIfd && tag == INTEROPERABILITY_POINTER then Some(InteropIfd)
    else None
  }

  datatype Parsed = Parsed(fields: seq<Field>, next: u32, extents: seq<Extent>)

  /** Reads the directory at `base + off` of `mem`, following every stored offset from `base`. */
  function ReadDir(mem: seq<byte>, base: nat, off: nat, kind: Kind): Option<Parsed>
    decreases kind.Depth(), 2, 0
  {
    if base + off + FIELDCOUNT_SIZE > |mem| then None else
    var n := GetLe16(mem, base + off);
    if base + off + HeadSize(n) > |mem| then None else
    match ReadEntries(mem, base, base + off + FIELDCOUNT_SIZE, n, kind)
    case None => None
    case Some((fields, extents)) =>
      Some(Parsed(fields, GetLe32(mem, base + off + FIELDCOUNT_SIZE + 12 * n),
                  [Extent(off, HeadSize(n))] + extents))
  }

  function ReadEntries(mem: seq<byte>, base: nat, pos: nat, n: nat, kind: Kind): Option<(seq<Field>, seq<Extent>)>
    requires pos + 12 * n <= |mem|
    decreases kind.Depth(), 1, n
  {
    if n == 0 then Some(([], [])) else
    match ReadEntry(mem, base, pos, kind)
    case None => None
    case Some((f, x)) =>
      match ReadEntries(mem, base, pos + FIELD_SIZE, n - 1, kind)
      case None => None
      case Some((fs, xs)) => Some(([f] + fs, x + xs))
  }

  function ReadEntry(mem: seq<byte>, base: nat, pos: nat, kind: Kind): Option<(Field, seq<Extent>)>
    requires pos + FIELD_SIZE <= |mem|
    decreases kind.Depth(), 0, 0
  {
    var tag := GetLe16(mem, pos);
    var count := GetLe32(mem, pos + 4);
    var off := GetLe32(mem, pos + 8);
    match FromCode(GetLe16(mem, pos + 2))
    case None => None
    case Some(typ) =>
      match SubKind(kind, tag)
      case Some(sub) =>
        if typ != LONG || count != 1 then None else
        (match ReadDir(mem, base, off, sub)
         case None => None
         case Some(p) => Some((SubDir(tag, p.fields), p.extents)))
      case None =>
        var len := count * typ.Size();
        if len <= VALOFF_SIZE then Some((Value(tag, typ, mem[pos + 8..pos + 8 + len]), []))
        else if base + off + len > |mem| then None
        else Some((Value(tag, typ, mem[base + off..base + off + len]), [Extent(off, len)]))
  }

  /** Every tag is used as its directory's kind demands, and values are whole components of their type. */
  ghost predicate WellFormed(dir: seq<Field>, kind: Kind)
    decreases dir
  {
    |dir| < 0x1_0000 && forall f :: f in dir ==> WellFormedField(f, kind)
  }

  ghost predicate WellFormedField(f: Field, kind: Kind) {
    match f
    case Value(tag, typ, data) =>
      SubKind(kind, tag).None? && |data| % typ.Size() == 0 && |data| < 0x1_0000_0000
    case SubDir(tag, dir) =>
      SubKind(kind, tag).Some? && WellFormed(dir, SubKind(kind, tag).value)
  }

  lemma Le16At(mem: seq<byte>, at: nat, v: u16)
    requires Matches(mem, at, Lit(Le16(v)))
    ensures GetLe16(mem, at) == v
  {
    var img := Lit(Le16(v));
    assert img[0].Put? && img[1].Put?;
  }

  lemma SplitLe32(v: u32)
    ensures v == v % 0x100 + 0x100 * (v / 0x100 % 0x100) + 0x1_0000 * (v / 0x1_0000 % 0x100) + 0x100_0000 * (v / 0x100_0000)
  {
  }

  lemma Le32At(mem: seq<byte>, at: nat, v: u32)
    requires Matches(mem, at, Lit(Le32(v)))
    ensures GetLe32(mem, at) == v
  {
    SplitLe32(v);
    var img := Lit(Le32(v));
    assert img[0].Put? && img[1].Put? && img[2].Put? && img[3].Put?;
  }

  lemma TagTypeCountAt(mem: seq<byte>, at: nat, tag: u16, typ: FieldType, count: nat)
    requires Matches(mem, at, Lit(TagTypeCount(tag, typ, count)))
    requires count < 0x1_0000_0000
    ensures GetLe16(mem, at) == tag && FromCode(GetLe16(mem, at + 2)) == Some(typ) && GetLe32(mem, at + 4) == count
  {
    hide Matches, Le16, Le32, GetLe16, GetLe32;
    var a, b, c := Le16(tag), Le16(typ.Code()), Le32(count);
    LitConcat(a + b, c);
    LitConcat(a, b);
    MatchesConcat(mem, at, Lit(a) + Lit(b), Lit(c));
    MatchesConcat(mem, at, Lit(a), Lit(b));
    Le32At(mem, at + 4, count);
    Le16At(mem, at, tag);
    Le16At(mem, at + 2, typ.Code());
  }

  lemma WholeComponents(typ: FieldType, len: nat)
    requires len % typ.Size() == 0
    ensures len / typ.Size() * typ.Size() == len && len / typ.Size() <= len
  {
    match typ
    case SHORT | LONG | RATIONAL | SRATIONAL =>
    case _ =>
  }

  lemma ReadBackValue(mem: seq<byte>, base: nat, pos: nat, tag: u16, typ: FieldType, data: seq<byte>, voff: nat, kind: Kind)
    requires SubKind(kind, tag).None? && |data| % typ.Size() == 0 && |data| < 0x1_0000_0000
    requires Matches(mem, pos, EntryImage(Value(tag, typ, data), voff))
    requires |data| > VALOFF_SIZE ==> voff < 0x1_0000_0000 && Matches(mem, base + voff, Lit(data))
    ensures ReadEntry(mem, base, pos, kind) ==
            Some((Value(tag, typ, data), FieldExtents(Value(tag, typ, data), voff)))
  {
    hide Matches, TagTypeCount, GetLe16, GetLe32, FromCode, FieldType.Size, FieldType.Code, Le32, Lit;
    WholeComponents(typ, |data|);
    var count := |data| / typ.Size();
    var head := TagTypeCount(tag, typ, count);
    if |data| > VALOFF_SIZE {
      LitConcat(head, Le32(U32(voff)));
      MatchesConcat(mem, pos, Lit(head), Lit(Le32(U32(voff))));
      TagTypeCountAt(mem, pos, tag, typ, count);
      Le32At(mem, pos + 8, U32(voff));
      MatchesLit(mem, base + voff, data);
    } else {
      var blank := Blank(VALOFF_SIZE - |data|);
      MatchesConcat(mem, pos, Lit(head) + Lit(data), blank);
      MatchesConcat(mem, pos, Lit(head), Lit(data));
      TagTypeCountAt(mem, pos, tag, typ, count);
      MatchesLit(mem, pos + 8, data);
    }
  }

  lemma {:induction false} ReadBackEntry(mem: seq<byte>, base: nat, pos: nat, f: Field, voff: nat, kind: Kind)
    requires WellFormedField(f, kind)
    requires Matches(mem, pos, EntryImage(f, voff))
    requires Matches(mem, base + voff, ValueImage(f, voff))
    requires voff + FieldSize(f) < 0x1_0000_0000
    ensures ReadEntry(mem, base, pos, kind) == Some((f, FieldExtents(f, voff)))
    decreases f, 2
  {
    hide Matches, ReadDir, DirImage, Lit, GetLe16, GetLe32, TagTypeCount, Le32, Extents, FieldType.Size;
    match f {
      case Value(tag, typ, data) =>
        ReadBackValue(mem, base, pos, tag, typ, data, voff, kind);
      case SubDir(tag, dir) =>
        var head := TagTypeCount(tag, LONG, 1);
        LitConcat(head, Le32(U32(voff)));
        MatchesConcat(mem, pos, Lit(head), Lit(Le32(U32(voff))));
        Le32At(mem, pos + 8, U32(voff));
        TagTypeCountAt(mem, pos, tag, LONG, 1);
        ReadBack(mem, base, voff, dir, 0, SubKind(kind, tag).value);
    }
  }

  lemma {:induction false} ReadBackEntries(mem: seq<byte>, base: nat, pos: nat, dir: seq<Field>, voff: nat, kind: Kind)
    requires forall f :: f in dir ==> WellFormedField(f, kind)
    requires Matches(mem, pos, Entries(dir, voff))
    requires Matches(mem, base + voff, Values(dir, voff))
    requires voff + ValuesSize(dir) < 0x1_0000_0000
    ensures ReadEntries(mem, base, pos, |dir|, kind) == Some((dir, ValueExtents(dir, voff)))
    decreases dir, 0
  {
    hide Matches, EntryImage, ValueImage, FieldExtents, ReadEntry, WellFormedField;
    if dir != [] {
      var f, rest, voff' := dir[0], dir[1..], voff + FieldSize(dir[0]);
      MatchesConcat(mem, pos, EntryImage(f, voff), Entries(rest, voff'));
      MatchesConcat(mem, base + voff, ValueImage(f, voff), Values(rest, voff'));
      ReadBackEntry(mem, base, pos, f, voff, kind);
      ReadBackEntries(mem, base, pos + FIELD_SIZE, rest, voff', kind);
      assert [f] + rest == dir;
    }
  }

  /** Following the offsets in the bytes of a directory image recovers every field, and only its own extents. */
  lemma {:induction false} ReadBack(mem: seq<byte>, base: nat, off: nat, dir: seq<Field>, next: nat, kind: Kind)
    requires WellFormed(dir, kind)
    requires Matches(mem, base + off, DirImage(off, dir, next))
    requires off + DirSize(dir) < 0x1_0000_0000
    ensures ReadDir(mem, base, off, kind) == Some(Parsed(dir, U32(next), Extents(off, dir)))
    decreases dir, 1
  {
    hide Matches, Entries, Values, ValueExtents, ReadEntries, WellFormedField;
    var n := |dir|;
    var voff := off + HeadSize(n);
    var at := base + off;
    MatchesConcat(mem, at, CountImage(n) + Entries(dir, voff) + OffsetImage(next), Values(dir, voff));
    MatchesConcat(mem, at, CountImage(n) + Entries(dir, voff), OffsetImage(next));
    MatchesConcat(mem, at, CountImage(n), Entries(dir, voff));
    Le16At(mem, at, n);
    Le32At(mem, at + FIELDCOUNT_SIZE + 12 * n, U32(next));
    ReadBackEntries(mem, base, at + FIELDCOUNT_SIZE, dir, voff, kind);
  }
}
