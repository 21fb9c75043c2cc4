/** `CIFDWriter`: fills one image file directory of a JPEG buffer through two advancing cursors. */
module IfdWriters {
  import opened Bytes
  import opened Tiff

  /** `rational_t` and `srational_t` as the 32-bit patterns that are copied out. */
  datatype Rational = Rational(num: u32, den: u32)

  function RationalBytes(rs: seq<Rational>): (s: seq<byte>)
    ensures |s| == 8 * |rs|
  {
    if rs == [] then [] else Le32(rs[0].num) + Le32(rs[0].den) + RationalBytes(rs[1..])
  }

  function ShortBytes(vs: seq<u16>): (s: seq<byte>)
    ensures |s| == 2 * |vs|
  {
    if vs == [] then [] else Le16(vs[0]) + ShortBytes(vs[1..])
  }

  /** What `strncpy` followed by the terminator leaves of a C string in `count` bytes. */
  function CString(s: seq<byte>, count: nat): (r: seq<byte>)
    requires count > 0
    ensures |r| == count
  {
    if |s| < count then s + seq(count - |s|, _ => 0) else s[..count - 1] + [0]
  }

  /** `count` bytes of a character array, with the last one made a terminator. */
  function Terminated(s: seq<byte>, count: nat): (r: seq<byte>)
    requires 0 < count <= |s|
    ensures |r| == count
  {
    s[..count - 1] + [0]
  }

  /** A directory at `off` for `total` fields, of which `done` are written. */
  ghost function Partial(off: nat, total: nat, done: seq<Field>): (img: Image)
    requires |done| <= total
    ensures |img| == HeadSize(total) + ValuesSize(done)
  {
    CountImage(total) + Entries(done, off + HeadSize(total))
    + Blank(12 * (total - |done|) + NEXTIFDOFFSET_SIZE) + Values(done, off + HeadSize(total))
  }

  /** One more field: one more entry, and its value after the values so far. */
  lemma OneMore(done: seq<Field>, f: Field, v0: nat)
    ensures ValuesSize(done + [f]) == ValuesSize(done) + FieldSize(f)
    ensures Entries(done + [f], v0) == Entries(done, v0) + EntryImage(f, v0 + ValuesSize(done))
    ensures Values(done + [f], v0) == Values(done, v0) + ValueImage(f, v0 + ValuesSize(done))
  {
    hide EntryImage, ValueImage, FieldSize;
    ValuesSizeConcat(done, [f]);
    EntriesConcat(done, [f], v0);
    ValuesConcat(done, [f], v0);
  }

  lemma PartialGrows(off: nat, total: nat, done: seq<Field>, f: Field)
    requires |done| < total
    ensures
      var v0 := off + HeadSize(total);
      var voff := v0 + ValuesSize(done);
      Partial(off, total, done + [f])
      == CountImage(total) + (Entries(done, v0) + EntryImage(f, voff))
         + Blank(12 * (total - |done|) + NEXTIFDOFFSET_SIZE - FIELD_SIZE) + (Values(done, v0) + ValueImage(f, voff))
  {
    hide EntryImage, ValueImage, FieldSize, ValuesSize, Entries, Values, Blank, CountImage, DirImage;
    var v0 := off + HeadSize(total);
    OneMore(done, f, v0);
  }

  lemma PartialFill(mem: seq<byte>, at: nat, off: nat, total: nat, done: seq<Field>, e: Image, v: Image, grown: Image)
    requires |done| < total && |e| == FIELD_SIZE
    requires at + HeadSize(total) + ValuesSize(done) + |v| <= |mem|
    requires grown == CountImage(total) + (Entries(done, off + HeadSize(total)) + e)
                      + Blank(12 * (total - |done|) + NEXTIFDOFFSET_SIZE - FIELD_SIZE)
                      + (Values(done, off + HeadSize(total)) + v)
    ensures Stamp(Stamp(Stamp(mem, at, Partial(off, total, done)), at + FIELDCOUNT_SIZE + 12 * |done|, e),
                  at + HeadSize(total) + ValuesSize(done), v)
            == Stamp(mem, at, grown)
  {
    hide ValuesSize, Entries, Values, Stamp, Blank, CountImage;
    var v0 := off + HeadSize(total);
    FillAndAppend(mem, at, CountImage(total), Entries(done, v0), e,
                  12 * (total - |done|) + NEXTIFDOFFSET_SIZE, Values(done, v0), v);
  }

  /** Writing one more field's entry and value extends the partial directory by that field. */
  lemma PartialStep(mem: seq<byte>, at: nat, off: nat, total: nat, done: seq<Field>, f: Field)
    requires |done| < total
    requires at + HeadSize(total) + ValuesSize(done) + FieldSize(f) <= |mem|
    ensures ValuesSize(done + [f]) == ValuesSize(done) + FieldSize(f)
    ensures
      var voff := off + HeadSize(total) + ValuesSize(done);
      Stamp(Stamp(Stamp(mem, at, Partial(off, total, done)), at + FIELDCOUNT_SIZE + 12 * |done|, EntryImage(f, voff)),
            at + HeadSize(total) + ValuesSize(done), ValueImage(f, voff))
      == Stamp(mem, at, Partial(off, total, done + [f]))
  {
    hide EntryImage, ValueImage, FieldSize, ValuesSize, Entries, Values, Stamp, Blank, CountImage, Partial;
    var voff := off + HeadSize(total) + ValuesSize(done);
    OneMore(done, f, voff);
    PartialGrows(off, total, done, f);
    PartialFill(mem, at, off, total, done, EntryImage(f, voff), ValueImage(f, voff), Partial(off, total, done + [f]));
  }

  lemma PartialFinish(mem: seq<byte>, at: nat, off: nat, dir: seq<Field>, next: nat)
    requires at + DirSize(dir) <= |mem|
    ensures Stamp(Stamp(mem, at, Partial(off, |dir|, dir)), at + FIELDCOUNT_SIZE + 12 * |dir|, OffsetImage(next))
            == Stamp(mem, at, DirImage(off, dir, next))
  {
    hide Entries, Values, ValuesSize, Stamp, Lit, Blank, CountImage, OffsetImage;
    var v0 := off + HeadSize(|dir|);
    var a, c := CountImage(|dir|) + Entries(dir, v0), Values(dir, v0);
    assert Partial(off, |dir|, dir) == a + Blank(NEXTIFDOFFSET_SIZE) + c;
    StampFill(mem, at, a, OffsetImage(next), NEXTIFDOFFSET_SIZE, c);
    assert a + OffsetImage(next) + Blank(0) == a + OffsetImage(next);
  }

  class IfdWriter {
    const buf: array<byte>
    const base: nat  // the TIFF header, from which offsets count
    var ifd: nat     // where the next directory entry goes
    var value: nat   // where the next out-of-line value goes
    var tags: nat    // entries still to be written

    ghost const start: nat
    ghost const total: nat
    ghost const init: seq<byte>
    ghost var done: seq<Field>

    ghost predicate Layout()
      reads this
    {
      && base <= start
      && |done| + tags == total < 0x1_0000
      && |init| == buf.Length < 0x8000_0000
      && value == start + HeadSize(total) + ValuesSize(done) <= buf.Length
    }

    /** The buffer as it was at construction, with the fields `done` written. */
    ghost function Contents(): (s: seq<byte>)
      requires Layout()
      reads this
      ensures |s| == buf.Length
    {
      Stamp(init, start, Partial(start - base, total, done))
    }

    ghost predicate Valid()
      reads this, buf
    {
      && Layout()
      && ifd == start + FIELDCOUNT_SIZE + 12 * |done|
      && buf[..] == Contents()
    }

    constructor (buf: array<byte>, offsetBase: nat, ifdBase: nat, tagCount: u16)
      requires offsetBase <= ifdBase && ifdBase + HeadSize(tagCount) <= buf.Length < 0x8000_0000
      modifies buf
      ensures Valid() && this.buf == buf && base == offsetBase && start == ifdBase && total == tagCount
      ensures done == [] && init == old(buf[..]) && tags == tagCount && value == ifdBase + HeadSize(tagCount)
    {
      this.buf := buf;
      base := offsetBase;
      ifd := ifdBase + FIELDCOUNT_SIZE;
      value := ifdBase + FIELDCOUNT_SIZE + 12 * tagCount + NEXTIFDOFFSET_SIZE;
      tags := tagCount;
      start := ifdBase;
      total := tagCount;
      init := buf[..];
      done := [];
      new;
      Store(buf, ifdBase, Le16(U16(tagCount)));
      StampBlank(init, start, CountImage(total), 12 * total + NEXTIFDOFFSET_SIZE);
      assert Partial(start - base, total, done) == CountImage(total) + Blank(12 * total + NEXTIFDOFFSET_SIZE);
    }

    function Offset(p: nat): u32
      requires base <= p
      reads this
    {
      U32(p - base)
    }

    /** The entry's first eight bytes are stored, and the cursor stands on its value-or-offset bytes. */
    ghost predicate Opened(tag: u16, typ: FieldType, count: nat)
      reads this, buf
    {
      && |done| + 1 + tags == total < 0x1_0000
      && base <= start
      && |init| == buf.Length < 0x8000_0000
      && value == start + HeadSize(total) + ValuesSize(done) <= buf.Length
      && ifd == start + FIELDCOUNT_SIZE + 12 * |done| + 8
      && buf[..] == Stamp(Stamp(init, start, Partial(start - base, total, done)), ifd - 8, Lit(TagTypeCount(tag, typ, count)))
    }

    method WriteTagTypeCount(tag: u16, typ: FieldType, count: u32)
      requires Valid() && tags > 0
      modifies this`ifd, this`tags, buf
      ensures Opened(tag, typ, count) && tags == old(tags) - 1
    {
      Store(buf, ifd, TagTypeCount(tag, typ, count));
      ifd := ifd + 8;
      tags := tags - 1;
    }

    /** The value goes into the entry itself; the rest of the four bytes is skipped. */
    method StoreInline(ghost tag: u16, ghost typ: FieldType, data: seq<byte>)
      requires Opened(tag, typ, |data| / typ.Size()) && |data| <= VALOFF_SIZE
      modifies this`ifd, this`done, buf
      ensures Valid() && done == old(done) + [Value(tag, typ, data)]
      ensures value == old(value) + FieldSize(Value(tag, typ, data))
    {
      hide Partial, TagTypeCount, Stamp, Lit, Blank;
      ghost var f := Value(tag, typ, data);
      ghost var mem := Stamp(init, start, Partial(start - base, total, done));
      ghost var head := Lit(TagTypeCount(tag, typ, |data| / typ.Size()));
      ghost var slot := ifd - 8;
      Store(buf, ifd, data);
      ifd := ifd + VALOFF_SIZE;
      StampConcat(mem, slot, head, Lit(data));
      StampBlank(mem, slot, head + Lit(data), VALOFF_SIZE - |data|);
      PartialStep(init, start, start - base, total, done, f);
      StampEmpty(buf[..], value);
      done := done + [f];
    }

    /** The entry gets the offset of the value cursor, and the value goes there. */
    method StoreAway(ghost tag: u16, ghost typ: FieldType, data: seq<byte>)
      requires Opened(tag, typ, |data| / typ.Size()) && |data| > VALOFF_SIZE && value + |data| <= buf.Length
      modifies this`ifd, this`value, this`done, buf
      ensures Valid() && done == old(done) + [Value(tag, typ, data)]
      ensures value == old(value) + FieldSize(Value(tag, typ, data))
    {
      hide Partial, TagTypeCount, Stamp, Lit, Blank;
      ghost var f := Value(tag, typ, data);
      ghost var mem := Stamp(init, start, Partial(start - base, total, done));
      ghost var head := TagTypeCount(tag, typ, |data| / typ.Size());
      ghost var slot := ifd - 8;
      var offset := Le32(Offset(value));
      Store(buf, ifd, offset);
      ifd := ifd + 4;
      Store(buf, value, data);
      value := value + |data|;
      StampConcat(mem, slot, Lit(head), Lit(offset));
      LitConcat(head, offset);
      PartialStep(init, start, start - base, total, done, f);
      done := done + [f];
    }

    /** The value's first `count` components, in the entry if they fit there. */
    method WriteByte(tag: u16, count: u32, bytes: seq<byte>)
      requires |bytes| == count
      requires Valid() && tags > 0 && value + FieldSize(Value(tag, BYTE, bytes)) <= buf.Length
      modifies this`ifd, this`value, this`tags, this`done, buf
      ensures Valid() && done == old(done) + [Value(tag, BYTE, bytes)] && tags == old(tags) - 1
      ensures value == old(value) + FieldSize(Value(tag, BYTE, bytes))
    {
      hide Partial, TagTypeCount, Stamp, Lit;
      var data := bytes;
      WriteTagTypeCount(tag, BYTE, count);
      if count > VALOFF_SIZE {
        StoreAway(tag, BYTE, data);
      } else {
        StoreInline(tag, BYTE, data);
      }
    }

    method WriteShort(tag: u16, count: u32, shorts: seq<u16>)
      requires |shorts| == count
      requires Valid() && tags > 0 && value + FieldSize(Value(tag, SHORT, ShortBytes(shorts))) <= buf.Length
      modifies this`ifd, this`value, this`tags, this`done, buf
      ensures Valid() && done == old(done) + [Value(tag, SHORT, ShortBytes(shorts))] && tags == old(tags) - 1
      ensures value == old(value) + FieldSize(Value(tag, SHORT, ShortBytes(shorts)))
    {
      hide Partial, TagTypeCount, Stamp, Lit;
      var data := ShortBytes(shorts);
      WriteTagTypeCount(tag, SHORT, count);
      if count > VALOFF_SIZE / 2 {
        StoreAway(tag, SHORT, data);
      } else {
        StoreInline(tag, SHORT, data);
      }
    }

    method WriteLong(tag: u16, count: u32, long: u32)
      requires count == 1
      requires Valid() && tags > 0 && value + FieldSize(Value(tag, LONG, Le32(long))) <= buf.Length
      modifies this`ifd, this`value, this`tags, this`done, buf
      ensures Valid() && done == old(done) + [Value(tag, LONG, Le32(long))] && tags == old(tags) - 1
      ensures value == old(value) + FieldSize(Value(tag, LONG, Le32(long)))
    {
      hide Partial, TagTypeCount, Stamp, Lit;
      var data := Le32(long);
      WriteTagTypeCount(tag, LONG, count);
      StoreInline(tag, LONG, data);
    }

    method WriteASCII(tag: u16, count: u32, chars: seq<byte>)
      requires 0 < count <= |chars|
      requires Valid() && tags > 0 && value + FieldSize(Value(tag, ASCII, Terminated(chars, count))) <= buf.Length
      modifies this`ifd, this`value, this`tags, this`done, buf
      ensures Valid() && done == old(done) + [Value(tag, ASCII, Terminated(chars, count))] && tags == old(tags) - 1
      ensures value == old(value) + FieldSize(Value(tag, ASCII, Terminated(chars, count)))
    {
      hide Partial, TagTypeCount, Stamp, Lit;
      var data := Terminated(chars, count);
      WriteTagTypeCount(tag, ASCII, count);
      if count > VALOFF_SIZE {
        StoreAway(tag, ASCII, data);
      } else {
        StoreInline(tag, ASCII, data);
      }
    }

    method WriteCString(tag: u16, count: u32, chars: seq<byte>)
      requires 0 < count
      requires Valid() && tags > 0 && value + FieldSize(Value(tag, ASCII, CString(chars, count))) <= buf.Length
      modifies this`ifd, this`value, this`tags, this`done, buf
      ensures Valid() && done == old(done) + [Value(tag, ASCII, CString(chars, count))] && tags == old(tags) - 1
      ensures value == old(value) + FieldSize(Value(tag, ASCII, CString(chars, count)))
    {
      hide Partial, TagTypeCount, Stamp, Lit;
      var data := CString(chars, count);
      WriteTagTypeCount(tag, ASCII, count);
      if count > VALOFF_SIZE {
        StoreAway(tag, ASCII, data);
      } else {
        StoreInline(tag, ASCII, data);
      }
    }

    method WriteRational(tag: u16, count: u32, rationals: seq<Rational>)
      requires 0 < |rationals| == count
      requires Valid() && tags > 0 && value + FieldSize(Value(tag, RATIONAL, RationalBytes(rationals))) <= buf.Length
      modifies this`ifd, this`value, this`tags, this`done, buf
      ensures Valid() && done == old(done) + [Value(tag, RATIONAL, RationalBytes(rationals))] && tags == old(tags) - 1
      ensures value == old(value) + FieldSize(Value(tag, RATIONAL, RationalBytes(rationals)))
    {
      hide Partial, TagTypeCount, Stamp, Lit;
      var data := RationalBytes(rationals);
      WriteTagTypeCount(tag, RATIONAL, count);
      StoreAway(tag, RATIONAL, data);
    }

    method WriteSRational(tag: u16, count: u32, rationals: seq<Rational>)
      requires 0 < |rationals| == count
      requires Valid() && tags > 0 && value + FieldSize(Value(tag, SRATIONAL, RationalBytes(rationals))) <= buf.Length
      modifies this`ifd, this`value, this`tags, this`done, buf
      ensures Valid() && done == old(done) + [Value(tag, SRATIONAL, RationalBytes(rationals))] && tags == old(tags) - 1
      ensures value == old(value) + FieldSize(Value(tag, SRATIONAL, RationalBytes(rationals)))
    {
      hide Partial, TagTypeCount, Stamp, Lit;
      var data := RationalBytes(rationals);
      WriteTagTypeCount(tag, SRATIONAL, count);
      StoreAway(tag, SRATIONAL, data);
    }

    method WriteUndef(tag: u16, count: u32, bytes: seq<byte>)
      requires |bytes| == count
      requires Valid() && tags > 0 && value + FieldSize(Value(tag, UNDEFINED, bytes)) <= buf.Length
      modifies this`ifd, this`value, this`tags, this`done, buf
      ensures Valid() && done == old(done) + [Value(tag, UNDEFINED, bytes)] && tags == old(tags) - 1
      ensures value == old(value) + FieldSize(Value(tag, UNDEFINED, bytes))
    {
      hide Partial, TagTypeCount, Stamp, Lit;
      var data := bytes;
      WriteTagTypeCount(tag, UNDEFINED, count);
      if count > VALOFF_SIZE {
        StoreAway(tag, UNDEFINED, data);
      } else {
        StoreInline(tag, UNDEFINED, data);
      }
    }

    /** In `mem` the entry of a nested directory is stored; its place is the value cursor. */
    ghost predicate Awaits(tag: u16, mem: seq<byte>)
      reads this
    {
      && |done| + 1 + tags == total < 0x1_0000
      && base <= start
      && |init| == buf.Length < 0x8000_0000
      && value == start + HeadSize(total) + ValuesSize(done) <= buf.Length
      && ifd == start + FIELDCOUNT_SIZE + 12 * (|done| + 1)
      && mem == Stamp(Stamp(init, start, Partial(start - base, total, done)),
                      ifd - FIELD_SIZE, EntryImage(SubDir(tag, []), value - base))
    }

    method BeginSubIFD(tag: u16) returns (sub: nat)
      requires Valid() && tags > 0
      modifies this`ifd, this`tags, buf
      ensures Awaits(tag, buf[..]) && sub == value && tags == old(tags) - 1
    {
      hide Partial, TagTypeCount, Stamp, Lit, Le32;
      ghost var mem := buf[..];
      WriteTagTypeCount(tag, LONG, 1);
      var offset := Le32(Offset(value));
      Store(buf, ifd, offset);
      StampConcat(mem, ifd - 8, Lit(TagTypeCount(tag, LONG, 1)), Lit(offset));
      LitConcat(TagTypeCount(tag, LONG, 1), offset);
      ifd := ifd + 4;
      sub := value;
    }

    /** `dir` has been written at the value cursor since `BeginSubIFD`, when the buffer was `mem`. */
    method EndSubIFD(ghost tag: u16, ghost dir: seq<Field>, ghost mem: seq<byte>, end: nat)
      requires Awaits(tag, mem) && value + DirSize(dir) == end <= buf.Length
      requires buf[..] == Stamp(mem, value, DirImage(value - base, dir, 0))
      modifies this`value, this`done
      ensures Valid() && done == old(done) + [SubDir(tag, dir)] && value == end
    {
      hide Partial, TagTypeCount, Stamp, Lit, DirImage;
      PartialStep(init, start, start - base, total, done, SubDir(tag, dir));
      value := end;
      done := done + [SubDir(tag, dir)];
    }

    /** The next-directory offset completes the directory: every field announced has been written. */
    method Finish(last: bool)
      requires Valid() && tags == 0
      modifies this`ifd, buf
      ensures buf[..] == Stamp(init, start, DirImage(start - base, done, if last then 0 else value - base))
      ensures ifd == old(ifd) + 4
    {
      hide Partial, Stamp, Lit, DirImage;
      var offset := if last then 0 else Offset(value);
      Store(buf, ifd, Le32(offset));
      ifd := ifd + 4;
      PartialFinish(init, start, start - base, done, if last then 0 else value - base);
    }
  }
}
