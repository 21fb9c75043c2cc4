/** `UpdateDebugData`: replaces the payloads of the extra APPn segments in a finished stream. */
module DebugData {
  import opened Bytes
  import opened Tiff
  import opened Exif
  import opened ExifWriter
  import opened AppMarkers
  import opened App1Patch
  import opened JpegParser
  import opened CameraEncoder
  import opened EncodedStream

  /** Unlike the writer, the update takes APP10 for an extra segment, and never APP0. */
  predicate IsDebugMarker(marker: byte) {
    marker / 0x10 == 0xE && EXTRA_APPMARKER_MIN <= marker % 0x10 <= EXTRA_APPMARKER_LIMIT
  }

  /** The markers that the writer gives to extra segments, and the one behind them. */
  lemma DebugMarkers(marker: byte)
    ensures IsDebugMarker(marker) <==> 0xE1 <= marker <= 0xEA
    ensures IsDebugMarker(marker) <==> marker == 0xEA || exists info: AppInfo :: info.Valid() && marker == 0xE0 + info.appid
  {
    if 0xE1 <= marker < 0xEA {
      assert AppInfo(marker - 0xE0, [0]).Valid();
    }
  }

  /** Where the segment at `p` ends; a length of 0 counts as 1, and the stream's end is not passed. */
  function NextSegment(s: seq<byte>, p: nat): (q: nat)
    requires p + 4 <= |s|
    ensures p + 2 < q <= |s|
  {
    var seglen := if GetBe16(s, p + 2) == 0 then 1 else GetBe16(s, p + 2);
    p + 2 + Min(seglen, |s| - p - 2)
  }

  /** The segment at `p` takes the payload of `info`. */
  predicate Takes(s: seq<byte>, p: nat, info: AppInfo)
    requires p + 4 <= |s|
  {
    IsDebugMarker(s[p + 1]) && s[p + 1] % 0x10 == info.appid && GetBe16(s, p + 2) >= |info.data| + LENFIELD_SIZE
  }

  /**
   What the update demands of its callers, as far as it goes through the segments: one that it stores a payload in,
   with further payloads to come, does not extend beyond the stream.
   */
  ghost predicate SegmentsFit(s: seq<byte>, p: nat, infos: seq<AppInfo>)
    requires ValidExtra(infos)
    decreases |s| - p
  {
    if infos == [] || p + ExtraSize(infos) >= |s| || s[p] != 0xFF || s[p + 1] == 0xDA || s[p + 1] == 0xD9 then true
    else if !IsDebugMarker(s[p + 1]) then SegmentsFit(s, NextSegment(s, p), infos)
    else Takes(s, p, infos[0]) && |infos| > 1 ==>
      p + 2 + GetBe16(s, p + 2) <= |s| && SegmentsFit(s, NextSegment(s, p), infos[1..])
  }

  ghost predicate StreamFits(s: seq<byte>, extra: Option<seq<AppInfo>>) {
    extra.Some? && ValidExtra(extra.value) && StartsWithSoi(s) ==> SegmentsFit(s, MARKER_SIZE, extra.value)
  }

  /**
   The walk from `p` on, with `left` bytes still to go by its 64-bit count, examines and stores nothing but bytes of
   the stream: the two bytes of a marker, a length if it needs one, and the place of a payload.
   */
  ghost predicate WalksInside(s: seq<byte>, p: nat, left: nat, infos: seq<AppInfo>)
    decreases if p <= |s| then |s| - p else 0
  {
    if infos == [] || left <= ExtraSize(infos) then true
    else if p >= |s| then false
    else if s[p] != 0xFF then true
    else if p + 1 >= |s| then false
    else if s[p + 1] == 0xDA || s[p + 1] == 0xD9 then true
    else if !IsDebugMarker(s[p + 1]) then
      p + 4 <= |s| &&
      var seglen := Min(if GetBe16(s, p + 2) == 0 then 1 else GetBe16(s, p + 2), U64(left - 2));
      WalksInside(s, p + 2 + seglen, U64(U64(left - 2) - seglen), infos)
    else if s[p + 1] % 0x10 != infos[0].appid then true
    else
      p + 4 <= |s| &&
      var seglen := GetBe16(s, p + 2);
      seglen >= |infos[0].data| + LENFIELD_SIZE ==>
        p + 4 + |infos[0].data| <= |s|
        && WalksInside(Stamp(s, p + 4, Lit(infos[0].data)), p + 2 + seglen, U64(U64(left - 2) - seglen), infos[1..])
  }

  /** The same for the whole update, which may be refused at the start. */
  ghost predicate UpdatesInside(s: seq<byte>, extra: Option<seq<AppInfo>>) {
    extra.None? ||
    var size := if ValidExtra(extra.value) then ExtraSize(extra.value) else 0;
    |s| < size + MARKER_SIZE || !StartsWithSoi(s) || size == 0 || WalksInside(s, MARKER_SIZE, U64(|s| - MARKER_SIZE), extra.value)
  }

  /** One step of the walk, as far as the count is right; a segment that extends beyond the stream makes it wrap around. */
  lemma WalkStep(s: seq<byte>, p: nat, infos: seq<AppInfo>)
    requires p <= |s| < 0x8000_0000_0000_0000 && infos != [] && ValidExtra(infos)
    requires p + ExtraSize(infos) < |s| && s[p] == 0xFF && s[p + 1] != 0xDA && s[p + 1] != 0xD9
    ensures p + 4 + |infos[0].data| <= |s|
    ensures WalksInside(s, p, |s| - p, infos)
            <==> if !IsDebugMarker(s[p + 1]) then WalksInside(s, NextSegment(s, p), |s| - NextSegment(s, p), infos)
                 else Takes(s, p, infos[0]) ==>
                   if p + 2 + GetBe16(s, p + 2) <= |s|
                   then WalksInside(Stamp(s, p + 4, Lit(infos[0].data)), NextSegment(s, p), |s| - NextSegment(s, p), infos[1..])
                   else |infos| == 1
  {
    hide Stamp, GetBe16, ExtraSize, WalksInside;
    SizeLeft(infos, 0);
    assert infos[0..] == infos;
    UnfoldWalk(s, p, |s| - p, infos);
    if IsDebugMarker(s[p + 1]) && Takes(s, p, infos[0]) && p + 2 + GetBe16(s, p + 2) > |s| {
      var q, left := p + 2 + GetBe16(s, p + 2), U64(|s| - p - 2 - GetBe16(s, p + 2));
      var t := Stamp(s, p + 4, Lit(infos[0].data));
      StampKeepsRest(s, p + 4, infos[0].data);
      SizeLeft(infos, 1);
      UnfoldWalk(t, q, left, infos[1..]);
    }
  }

  lemma UnfoldWalk(s: seq<byte>, p: nat, left: nat, infos: seq<AppInfo>)
    ensures infos == [] ==> WalksInside(s, p, left, infos)
    ensures infos != [] && left > ExtraSize(infos) && p >= |s| ==> !WalksInside(s, p, left, infos)
    ensures infos != [] && left > ExtraSize(infos) && p + 4 <= |s| && s[p] == 0xFF && s[p + 1] != 0xDA && s[p + 1] != 0xD9 ==>
              var len := GetBe16(s, p + 2);
              (WalksInside(s, p, left, infos)
               <==> if !IsDebugMarker(s[p + 1]) then
                      var seglen := Min(if len == 0 then 1 else len, U64(left - 2));
                      WalksInside(s, p + 2 + seglen, U64(U64(left - 2) - seglen), infos)
                    else Takes(s, p, infos[0]) ==>
                      p + 4 + |infos[0].data| <= |s|
                      && WalksInside(Stamp(s, p + 4, Lit(infos[0].data)), p + 2 + len, U64(U64(left - 2) - len), infos[1..]))
  {
    hide Stamp, ExtraSize, GetBe16;
  }

  /** The walk stays inside the stream if and only if the segments that it updates do, but for the last one. */
  lemma {:induction false} InsideIffFits(s: seq<byte>, p: nat, infos: seq<AppInfo>)
    requires ValidExtra(infos) && p <= |s| < 0x8000_0000_0000_0000
    ensures WalksInside(s, p, |s| - p, infos) <==> SegmentsFit(s, p, infos)
    decreases |s| - p
  {
    hide Stamp, ExtraSize, GetBe16, WalksInside;
    SizeLeft(infos, 0);
    assert infos[0..] == infos;
    if infos != [] && p + ExtraSize(infos) < |s| && s[p] == 0xFF && s[p + 1] != 0xDA && s[p + 1] != 0xD9 {
      WalkStep(s, p, infos);
      var next := NextSegment(s, p);
      if !IsDebugMarker(s[p + 1]) {
        InsideIffFits(s, next, infos);
      } else if Takes(s, p, infos[0]) && p + 2 + GetBe16(s, p + 2) <= |s| {
        StampKeepsRest(s, p + 4, infos[0].data);
        InsideIffFits(Stamp(s, p + 4, Lit(infos[0].data)), next, infos[1..]);
        SameFit(s, Stamp(s, p + 4, Lit(infos[0].data)), next, infos[1..]);
      }
    } else {
      WalkEnds(s, p, infos);
    }
  }

  lemma WalkEnds(s: seq<byte>, p: nat, infos: seq<AppInfo>)
    requires p <= |s|
    requires infos == [] || p + ExtraSize(infos) >= |s| || s[p] != 0xFF || s[p + 1] == 0xDA || s[p + 1] == 0xD9
    requires infos != [] && p + ExtraSize(infos) < |s| ==> p + 1 < |s|
    ensures WalksInside(s, p, |s| - p, infos)
  {
    hide ExtraSize;
  }

  lemma SameFit(s: seq<byte>, t: seq<byte>, p: nat, infos: seq<AppInfo>)
    requires ValidExtra(infos) && |s| == |t| && forall i :: p <= i < |s| ==> s[i] == t[i]
    ensures SegmentsFit(s, p, infos) <==> SegmentsFit(t, p, infos)
  {
    if SegmentsFit(s, p, infos) {
      SegmentsFitAfter(s, t, p, infos);
    }
    if SegmentsFit(t, p, infos) {
      SegmentsFitAfter(t, s, p, infos);
    }
  }

  lemma StampKeepsRest(s: seq<byte>, at: nat, data: seq<byte>)
    requires at + |data| <= |s|
    ensures var t := Stamp(s, at, Lit(data)); |t| == |s| && forall i :: at + |data| <= i < |s| ==> t[i] == s[i]
  {
  }

  lemma FitsIfShort(s: seq<byte>, infos: seq<AppInfo>)
    requires ValidExtra(infos)
    ensures infos == [] || |s| <= MARKER_SIZE + ExtraSize(infos) ==> SegmentsFit(s, MARKER_SIZE, infos)
  {
  }

  /** The update stays inside the stream exactly if its demand is met. */
  lemma InsideIffStreamFits(s: seq<byte>, extra: Option<seq<AppInfo>>)
    requires |s| < 0x8000_0000_0000_0000
    ensures UpdatesInside(s, extra) <==> StreamFits(s, extra)
  {
    hide WalksInside, SegmentsFit, ExtraSize;
    if extra.Some? && ValidExtra(extra.value) && StartsWithSoi(s) {
      FitsIfShort(s, extra.value);
      InsideIffFits(s, MARKER_SIZE, extra.value);
      SizeLeft(extra.value, 0);
      assert extra.value[0..] == extra.value;
    }
  }

  /** An APP1 segment that claims 65535 of the 13 bytes: the second payload would be looked for far behind the stream. */
  lemma LeftWraps()
    ensures
      var s: seq<byte> := [0xFF, 0xD8, 0xFF, 0xE1, 0xFF, 0xFF, 0, 0, 0, 0, 0, 0, 0];
      var infos := [AppInfo(1, [0x41]), AppInfo(1, [0x42])];
      && ValidExtra(infos) && Takes(s, 2, infos[0]) && !SegmentsFit(s, 2, infos)
      && U64(|s| - 4 - GetBe16(s, 4)) > ExtraSize(infos[1..]) > 0
  {
    var infos := [AppInfo(1, [0x41]), AppInfo(1, [0x42])];
    SizeLeft(infos, 0);
    SizeLeft(infos, 1);
    assert infos[0..] == infos && infos[2..] == [];
  }

  // ---------------------------------------------------------------- specification

  /** The stream after the segments from `p` on have been updated, and whether that succeeded. */
  ghost function Updated(s: seq<byte>, p: nat, infos: seq<AppInfo>): (r: (bool, seq<byte>))
    requires ValidExtra(infos) && p <= |s|
    ensures |r.1| == |s|
    decreases |s| - p
  {
    if infos == [] || |s| - p <= ExtraSize(infos) || s[p] != 0xFF then (true, s)
    else if s[p + 1] == 0xDA || s[p + 1] == 0xD9 then (false, s)
    else if !IsDebugMarker(s[p + 1]) then Updated(s, NextSegment(s, p), infos)
    else if s[p + 1] % 0x10 != infos[0].appid || GetBe16(s, p + 2) < |infos[0].data| + LENFIELD_SIZE then (false, s)
    else Updated(Stamp(s, p + 4, Lit(infos[0].data)), NextSegment(s, p), infos[1..])
  }

  ghost function DebugUpdated(s: seq<byte>, extra: Option<seq<AppInfo>>): (bool, seq<byte>) {
    match extra
    case None => (true, s)
    case Some(infos) =>
      var size := if ValidExtra(infos) then ExtraSize(infos) else 0;
      if |s| < size + MARKER_SIZE || !StartsWithSoi(s) then (false, s)
      else if ValidExtra(infos) then Updated(s, MARKER_SIZE, infos)
      else (true, s)
  }

  // ---------------------------------------------------------------- the update

  /** 0 if any of the segments is invalid. */
  method GetExtraAppSize(infos: seq<AppInfo>) returns (len: nat)
    ensures len == if ValidExtra(infos) then ExtraSize(infos) else 0
  {
    len := 0;
    for idx := 0 to |infos|
      invariant ValidExtra(infos[..idx]) && len == ExtraSize(infos[..idx])
    {
      if infos[idx].appid < EXTRA_APPMARKER_MIN || infos[idx].appid >= EXTRA_APPMARKER_LIMIT {
        return 0;
      }
      if |infos[idx].data| == 0 || |infos[idx].data| > MAX_SEGMENT_SIZE - LENFIELD_SIZE {
        return 0;
      }
      ExtrasStep(infos, idx, true);
      len := len + |infos[idx].data| + MARKER_SIZE + LENFIELD_SIZE;
    }
    assert infos[..|infos|] == infos;
  }

  /** Storing inside a segment does not change where later segments start. */
  lemma {:induction false} SegmentsFitAfter(s: seq<byte>, t: seq<byte>, p: nat, infos: seq<AppInfo>)
    requires ValidExtra(infos) && SegmentsFit(s, p, infos) && |s| == |t| && forall i :: p <= i < |s| ==> s[i] == t[i]
    ensures SegmentsFit(t, p, infos)
    decreases |s| - p
  {
    SizeLeft(infos, 0);
    assert infos[0..] == infos;
    if infos != [] && p + ExtraSize(infos) < |s| && s[p] == 0xFF && s[p + 1] != 0xDA && s[p + 1] != 0xD9 {
      if !IsDebugMarker(s[p + 1]) {
        SegmentsFitAfter(s, t, NextSegment(s, p), infos);
      } else if Takes(s, p, infos[0]) && |infos| > 1 {
        SegmentsFitAfter(s, t, NextSegment(s, p), infos[1..]);
      }
    }
  }

  method UpdateDebugData(stream: array<byte>, length: nat, extra: Option<seq<AppInfo>>) returns (ok: bool)
    requires length <= stream.Length && StreamFits(stream[..length], extra)
    modifies stream
    ensures (ok, stream[..length]) == DebugUpdated(old(stream[..length]), extra)
    ensures stream[length..] == old(stream[length..])
  {
    hide ExtraSize, Stamp;
    if extra.None? {
      return true;
    }
    var infos := extra.value;
    var validlen := GetExtraAppSize(infos);
    if length < validlen + MARKER_SIZE {
      return false;
    }
    if stream[0] != 0xFF || stream[1] != 0xD8 {
      return false;
    }
    ok := UpdateSegments(stream, length, infos, validlen);
  }

  /** What is left to be stored. */
  lemma SizeLeft(infos: seq<AppInfo>, idx: nat)
    requires idx <= |infos|
    ensures ExtraSize(infos[idx..]) == 0 <==> infos[idx..] == []
    ensures idx < |infos| ==>
              ExtraSize(infos[idx..]) == |infos[idx].data| + MARKER_SIZE + LENFIELD_SIZE + ExtraSize(infos[idx + 1..])
  {
    if idx < |infos| {
      assert infos[idx..][1..] == infos[idx + 1..];
    }
  }

  /** The effect of one segment. */
  lemma UpdatedStep(s: seq<byte>, p: nat, infos: seq<AppInfo>, idx: nat)
    requires ValidExtra(infos) && idx <= |infos| && p <= |s|
    ensures idx == |infos| || |s| - p <= ExtraSize(infos[idx..]) || s[p] != 0xFF ==>
              Updated(s, p, infos[idx..]) == (true, s)
    ensures idx < |infos| && |s| - p > ExtraSize(infos[idx..]) && s[p] == 0xFF ==>
              p + 4 + |infos[idx].data| < |s|
              && Updated(s, p, infos[idx..])
                 == if s[p + 1] == 0xDA || s[p + 1] == 0xD9 then (false, s)
                    else if !IsDebugMarker(s[p + 1]) then Updated(s, NextSegment(s, p), infos[idx..])
                    else if s[p + 1] % 0x10 != infos[idx].appid || GetBe16(s, p + 2) < |infos[idx].data| + LENFIELD_SIZE
                    then (false, s)
                    else Updated(Stamp(s, p + 4, Lit(infos[idx].data)), NextSegment(s, p), infos[idx + 1..])
  {
    hide Stamp;
    SizeLeft(infos, idx);
    if idx < |infos| {
      assert infos[idx..][1..] == infos[idx + 1..];
    }
  }

  /** What the segment at `p` has to meet. */
  lemma FitsStep(s: seq<byte>, p: nat, infos: seq<AppInfo>, idx: nat)
    requires ValidExtra(infos) && idx < |infos| && SegmentsFit(s, p, infos[idx..])
    requires p + ExtraSize(infos[idx..]) < |s| && s[p] == 0xFF && s[p + 1] != 0xDA && s[p + 1] != 0xD9
    ensures p + 4 <= |s|
    ensures !IsDebugMarker(s[p + 1]) ==> SegmentsFit(s, NextSegment(s, p), infos[idx..])
    ensures IsDebugMarker(s[p + 1]) && Takes(s, p, infos[idx]) && idx + 1 < |infos| ==>
              p + 2 + GetBe16(s, p + 2) <= |s| && SegmentsFit(s, NextSegment(s, p), infos[idx + 1..])
  {
    SizeLeft(infos, idx);
    assert infos[idx..][1..] == infos[idx + 1..];
  }

  method StorePayload(stream: array<byte>, length: nat, at: nat, data: seq<byte>)
    requires at + |data| <= length <= stream.Length
    modifies stream
    ensures stream[..length] == Stamp(old(stream[..length]), at, Lit(data))
    ensures stream[length..] == old(stream[length..])
    ensures forall i :: at + |data| <= i < stream.Length ==> stream[i] == old(stream[i])
  {
    Store(stream, at, data);
  }

  method UpdateSegments(stream: array<byte>, length: nat, infos: seq<AppInfo>, size: nat) returns (ok: bool)
    requires 2 <= length <= stream.Length
    requires ValidExtra(infos) ==> SegmentsFit(stream[..length], MARKER_SIZE, infos)
    requires size == if ValidExtra(infos) then ExtraSize(infos) else 0
    modifies stream
    ensures (ok, stream[..length])
            == if ValidExtra(infos) then Updated(old(stream[..length]), MARKER_SIZE, infos) else (true, old(stream[..length]))
    ensures stream[length..] == old(stream[length..])
  {
    hide Stamp, Updated, ExtraSize, GetBe16, AppInfo.Valid, SegmentsFit;
    var jpeg: nat, jpeglen, validlen, idx := 2, length - 2, size, 0;
    ghost var was, fine := stream[..length], ValidExtra(infos);
    assert infos[0..] == infos;
    SizeLeft(infos, 0);
    if fine {
      UpdatedStep(was, MARKER_SIZE, infos, 0);
    }
    while validlen > 0 && jpeglen > validlen && stream[jpeg] == 0xFF
      invariant 2 <= jpeg && idx <= |infos|
      invariant !fine ==> validlen == 0 && stream[..length] == was
      invariant fine ==> validlen == ExtraSize(infos[idx..])
      invariant validlen > 0 ==> jpeg + jpeglen == length && jpeglen >= 0 && SegmentsFit(stream[..length], jpeg, infos[idx..])
      invariant fine ==> Updated(was, MARKER_SIZE, infos)
                         == if validlen == 0 then (true, stream[..length]) else Updated(stream[..length], jpeg, infos[idx..])
      invariant stream[length..] == old(stream[length..])
      decreases jpeglen
    {
      SizeLeft(infos, idx);
      ghost var s, p := stream[..length], jpeg;
      UpdatedStep(s, p, infos, idx);
      var marker := stream[jpeg + 1];
      jpeg, jpeglen := jpeg + 2, jpeglen - 2;
      if marker == 0xDA || marker == 0xD9 {
        return false;
      }
      FitsStep(s, p, infos, idx);
      var seglen: nat := JpegStreamParser.GetLength(stream, jpeg);
      SameLength(stream[..], length, jpeg);
      var appid := marker % 0x10;
      if marker / 0x10 == 0xE && EXTRA_APPMARKER_MIN <= appid <= EXTRA_APPMARKER_LIMIT {
        if appid != infos[idx].appid {
          return false;
        }
        if seglen < |infos[idx].data| + LENFIELD_SIZE {
          return false;
        }
        StorePayload(stream, length, jpeg + LENFIELD_SIZE, infos[idx].data);
        validlen := validlen - (|infos[idx].data| + MARKER_SIZE + LENFIELD_SIZE);
        idx := idx + 1;
        SizeLeft(infos, idx);
        if idx < |infos| {
          SegmentsFitAfter(s, stream[..length], NextSegment(s, p), infos[idx..]);
        } else {
          UpdatedStep(stream[..length], NextSegment(s, p), infos, idx);
        }
      } else {
        if seglen == 0 {
          seglen := seglen + 1;
        }
        if jpeglen < seglen {
          seglen := jpeglen;
        }
      }
      jpeg, jpeglen := jpeg + seglen, jpeglen - seglen;
    }
    if fine && validlen > 0 {
      SizeLeft(infos, idx);
      UpdatedStep(stream[..length], jpeg, infos, idx);
    }
    return true;
  }

  lemma SameLength(s: seq<byte>, length: nat, at: nat)
    requires at + 2 <= length <= |s|
    ensures GetBe16(s[..length], at) == GetBe16(s, at)
  {
  }

  // ---------------------------------------------------------------- what an update keeps

  lemma FrameWithin(s: seq<byte>, t: seq<byte>, at: nat)
    requires at + 2 <= |s| && at + GetBe16(s, at) <= |s| && |t| == |s|
    requires forall i :: at <= i < at + 2 || at <= i < at + GetBe16(s, at) ==> t[i] == s[i]
    ensures at + GetBe16(t, at) <= |t| && FrameAt(t, at) == FrameAt(s, at)
  {
  }

  lemma UpdatedPrefix(s: seq<byte>, p: nat, infos: seq<AppInfo>)
    requires ValidExtra(infos) && p <= |s|
    ensures forall i :: 0 <= i < p ==> Updated(s, p, infos).1[i] == s[i]
    decreases |s| - p
  {
  }

  /** A segment of length 0 or 1 is followed by no marker. */
  lemma HeaderKept(s: seq<byte>, p: nat, infos: seq<AppInfo>)
    requires ValidExtra(infos) && infos != [] && p + 4 <= |s| && |s| - p > ExtraSize(infos)
    ensures forall i :: 0 <= i < p + 4 ==> Updated(s, NextSegment(s, p), infos).1[i] == s[i]
  {
    hide ValidExtra;
    UpdatedPrefix(s, NextSegment(s, p), infos);
    if NextSegment(s, p) < p + 4 {
      SizeLeft(infos, 0);
      assert infos[0..] == infos;
      assert s[p + 3] != 0xFF;
    }
  }

  /** Whatever the stream and the data: the frame that the parser finds stays the same. */
  lemma {:induction false} UpdateKeepsScan(s: seq<byte>, p: nat, infos: seq<AppInfo>)
    requires ValidExtra(infos) && p <= |s| && SegmentsFit(s, p, infos)
    ensures Scan(Updated(s, p, infos).1, p) == Scan(s, p)
    decreases |s| - p
  {
    hide Scan, Stamp, NextSegment, ValidExtra, ExtraSize, AppInfo.Valid, SegmentsFit;
    SizeLeft(infos, 0);
    assert infos[0..] == infos;
    UpdatedStep(s, p, infos, 0);
    if infos != [] && |s| - p > ExtraSize(infos) && s[p] == 0xFF && s[p + 1] != 0xDA && s[p + 1] != 0xD9 {
      var q := NextSegment(s, p);
      FitsStep(s, p, infos, 0);
      if !IsDebugMarker(s[p + 1]) {
        UpdateKeepsScan(s, q, infos);
        UpdatedPrefix(s, q, infos);
        HeaderKept(s, p, infos);
        SkipBoth(s, Updated(s, q, infos).1, p, q);
      } else if Takes(s, p, infos[0]) {
        if p + 2 + GetBe16(s, p + 2) <= |s| {
          if |infos| == 1 {
            NoneLeftFits(s, q, infos);
          }
          UpdateKeepsSegment(s, p, infos, q);
        } else {
          RejectedBoth(s, p, infos[0].data);
          SizeLeft(infos, 1);
          UpdatedStep(Stamp(s, p + 4, Lit(infos[0].data)), q, infos, 1);
        }
      }
    }
  }

  lemma NoneLeftFits(s: seq<byte>, q: nat, infos: seq<AppInfo>)
    requires ValidExtra(infos) && |infos| == 1
    ensures SegmentsFit(s, q, infos[1..])
  {
  }

  /** A segment that extends beyond the stream is rejected, whatever is stored in it. */
  lemma RejectedBoth(s: seq<byte>, p: nat, data: seq<byte>)
    requires p + 4 + |data| < |s| && s[p] == 0xFF && IsDebugMarker(s[p + 1]) && p + 2 + GetBe16(s, p + 2) > |s|
    ensures Scan(Stamp(s, p + 4, Lit(data)), p) == Scan(s, p)
  {
  }

  lemma {:induction false} UpdateKeepsSegment(s: seq<byte>, p: nat, infos: seq<AppInfo>, q: nat)
    requires ValidExtra(infos) && infos != [] && p + 4 + |infos[0].data| < |s| && p + 2 + GetBe16(s, p + 2) <= |s|
    requires SegmentsFit(s, q, infos[1..])
    requires s[p] == 0xFF && IsDebugMarker(s[p + 1]) && q == NextSegment(s, p)
    requires GetBe16(s, p + 2) >= |infos[0].data| + LENFIELD_SIZE
    ensures Scan(Updated(Stamp(s, p + 4, Lit(infos[0].data)), q, infos[1..]).1, p) == Scan(s, p)
    decreases |s| - p, 0
  {
    hide Scan, Updated, SegmentsFit;
    var t := Stamp(s, p + 4, Lit(infos[0].data));
    SegmentsFitAfter(s, t, q, infos[1..]);
    UpdateKeepsScan(t, q, infos[1..]);
    UpdatedPrefix(t, q, infos[1..]);
    assert s[q..] == t[q..];
    ScanMoved(s, q, t, q);
    Stepped(s, p);
    Stepped(Updated(t, q, infos[1..]).1, p);
  }

  lemma Stepped(s: seq<byte>, p: nat)
    requires p + 4 <= |s| && s[p] == 0xFF && IsDebugMarker(s[p + 1])
    requires 0 < GetBe16(s, p + 2) && p + 2 + GetBe16(s, p + 2) <= |s|
    ensures Scan(s, p) == Scan(s, NextSegment(s, p))
  {
    assert Skippable(s, p);
  }

  lemma SkipBoth(s: seq<byte>, t: seq<byte>, p: nat, q: nat)
    requires p + 4 <= |s| && |t| == |s| && q == NextSegment(s, p)
    requires forall i :: 0 <= i < q || 0 <= i < p + 4 ==> t[i] == s[i]
    requires Scan(t, q) == Scan(s, q)
    ensures Scan(t, p) == Scan(s, p)
  {
    hide FrameAt;
    if s[p] == 0xFF && s[p + 1] == 0xC0 && Next(s, p) <= |s| {
      FrameWithin(s, t, p + 2);
    }
  }

  lemma UpdateKeepsVerdict(s: seq<byte>, extra: Option<seq<AppInfo>>)
    requires StreamFits(s, extra)
    ensures Verdict(DebugUpdated(s, extra).1) == Verdict(s)
  {
    hide Scan, Updated, SegmentsFit;
    if extra.Some? && ValidExtra(extra.value) && StartsWithSoi(s) {
      UpdateKeepsScan(s, MARKER_SIZE, extra.value);
      UpdatedPrefix(s, MARKER_SIZE, extra.value);
    }
  }

  // ---------------------------------------------------------------- updating what was written

  ghost predicate SameSegments(a: seq<AppInfo>, b: seq<AppInfo>) {
    |a| == |b| && forall i :: 0 <= i < |a| ==> a[i].appid == b[i].appid && |a[i].data| == |b[i].data|
  }

  lemma {:induction false} SameSizes(a: seq<AppInfo>, b: seq<AppInfo>)
    requires SameSegments(a, b)
    ensures ExtraSize(a) == ExtraSize(b)
  {
    if a != [] {
      SameSizes(a[1..], b[1..]);
    }
  }

  /** Updating the first of the segments that `WriteAPPX` has written replaces just its payload. */
  lemma SegmentUpdated(s: seq<byte>, p: nat, a: AppInfo, b: AppInfo, reserveOnly: bool)
    requires a.Valid() && a.appid == b.appid && |a.data| == |b.data|
    requires Matches(s, p, ExtraImage(a, reserveOnly))
    ensures p + 4 + |a.data| <= |s| && s[p] == 0xFF && s[p + 1] == 0xE0 + a.appid
    ensures GetBe16(s, p + 2) == |a.data| + LENFIELD_SIZE && NextSegment(s, p) == p + 4 + |a.data|
    ensures Stamp(s, p + 4, Lit(b.data)) == Stamp(s, p, ExtraImage(b, false))
  {
    hide Stamp, Lit, Blank, Matches, Be16;
    var head, d := Lit([0xFF, 0xE0 + a.appid % 16]) + Lit(Be16(U16(|a.data| + LENFIELD_SIZE))), |a.data|;
    MatchesConcat(s, p, head, if reserveOnly then Blank(d) else Lit(a.data));
    HeadAt(s, p, 0xE0 + a.appid % 16, d + LENFIELD_SIZE);
    StampConcat(s, p, head, Lit(b.data));
    StampSame(s, p, head);
  }

  lemma HeadAt(s: seq<byte>, p: nat, marker: byte, length: u16)
    requires Matches(s, p, Lit([0xFF, marker]) + Lit(Be16(length)))
    ensures p + 4 <= |s| && s[p] == 0xFF && s[p + 1] == marker && GetBe16(s, p + 2) == length
  {
    LitConcat([0xFF, marker], Be16(length));
    MatchesLit(s, p, [0xFF, marker] + Be16(length));
    var h := s[p..p + 4];
    assert h[0] == s[p] && h[1] == s[p + 1] && h[2] == s[p + 2] && h[3] == s[p + 3];
  }

  lemma StampSame(s: seq<byte>, p: nat, img: Image)
    requires Matches(s, p, img)
    ensures Stamp(s, p, img) == s
  {
  }

  /**
   Wherever `WriteAPPX` has put segments, or reserved them, updating them with data of the same ids
   and sizes gives what writing that data would have given.
   */
  lemma {:induction false} SegmentsUpdated(s: seq<byte>, p: nat, a: seq<AppInfo>, b: seq<AppInfo>, reserveOnly: bool)
    requires ValidExtra(a) && ValidExtra(b) && SameSegments(a, b)
    requires Matches(s, p, ExtrasImage(a, reserveOnly)) && |s| > p + ExtraSize(a)
    ensures p + ExtraSize(b) <= |s| && Updated(s, p, b) == (true, Stamp(s, p, ExtrasImage(b, false)))
    decreases |a|
  {
    hide ExtraImage, Matches, Stamp, NextSegment, Updated;
    SameSizes(a, b);
    UpdatedStep(s, p, b, 0);
    assert b[0..] == b;
    if a == [] {
      NoExtras(false);
      StampEmpty(s, p);
    } else {
      var n := |a[0].data| + 4;
      MatchesConcat(s, p, ExtraImage(a[0], reserveOnly), ExtrasImage(a[1..], reserveOnly));
      SegmentUpdated(s, p, a[0], b[0], reserveOnly);
      var t := Stamp(s, p, ExtraImage(b[0], false));
      assert a[0].Valid();
      RestKept(s, p, b[0].data, p + n, ExtrasImage(a[1..], reserveOnly));
      SegmentsUpdated(t, p + n, a[1..], b[1..], reserveOnly);
      SameSizes(a[1..], b[1..]);
      StampConcat(s, p, ExtraImage(b[0], false), ExtrasImage(b[1..], false));
    }
  }

  /** Segments that `WriteAPPX` has put or reserved meet what their update demands. */
  lemma {:induction false} WrittenFits(s: seq<byte>, p: nat, a: seq<AppInfo>, b: seq<AppInfo>, reserveOnly: bool)
    requires ValidExtra(a) && ValidExtra(b) && SameSegments(a, b) && Matches(s, p, ExtrasImage(a, reserveOnly))
    ensures SegmentsFit(s, p, b)
    decreases |a|
  {
    hide ExtraImage, Matches, NextSegment, ExtraSize;
    if a != [] {
      MatchesConcat(s, p, ExtraImage(a[0], reserveOnly), ExtrasImage(a[1..], reserveOnly));
      assert a[0].Valid();
      SegmentUpdated(s, p, a[0], b[0], reserveOnly);
      WrittenFits(s, p + |a[0].data| + 4, a[1..], b[1..], reserveOnly);
    }
  }

  lemma RestKept(s: seq<byte>, p: nat, data: seq<byte>, at: nat, rest: Image)
    requires p + 4 + |data| == at && Matches(s, at, rest)
    ensures Matches(Stamp(s, p + 4, Lit(data)), at, rest)
  {
  }

  /** The segments as `Write` puts them behind SOI: APP1 if there is Exif, then the extra segments. */
  ghost predicate Written(s: seq<byte>, exif: Option<Attributes>, length: u16, thumbLength: nat, at: nat, d: seq<AppInfo>) {
    && StartsWithSoi(s) && Matches(s, at, ExtrasImage(d, false))
    && match exif
       case None => at == MARKER_SIZE
       case Some(e) =>
         App1Length(e) <= length && at == MARKER_SIZE + 2 + length && Matches(s, MARKER_SIZE, App1Image(e, length, thumbLength))
  }

  /** Updating with `b` succeeds and gives what writing `b` would have given. */
  ghost predicate Rewrites(s: seq<byte>, at: nat, b: seq<AppInfo>) {
    at + ExtraSize(b) <= |s| && DebugUpdated(s, Some(b)) == (true, Stamp(s, at, ExtrasImage(b, false)))
  }

  /** APP1 begins with its marker, its length and the letter E. */
  lemma App1Begins(s: seq<byte>, e: Attributes, length: u16, thumbLength: nat)
    requires Matches(s, MARKER_SIZE, App1Image(e, length, thumbLength))
    ensures |s| > 6 && s[2] == 0xFF && s[3] == 0xE1 && s[6] == 0x45 && GetBe16(s, 4) == length
  {
    hide Matches, DirImage, FirstImage, ZerothFields;
    App1Parts(s, MARKER_SIZE, e, length, thumbLength);
    MatchesConcat(s, 2, Lit([0xFF, 0xE1]), Lit(Be16(length)));
    HeadAt(s, 2, 0xE1, length);
    MatchesLit(s, 6, EXIF_IDENTIFIER + TIFF_HEADER);
    var h := s[6..6 + |EXIF_IDENTIFIER + TIFF_HEADER|];
    assert h[0] == s[6];
  }

  /** The update takes an Exif segment for the first extra one: it refuses, or it destroys the identifier. */
  lemma ExifIsMistaken(s: seq<byte>, e: Attributes, length: u16, thumbLength: nat, at: nat, b: seq<AppInfo>)
    requires at >= 7 && Matches(s, MARKER_SIZE, App1Image(e, length, thumbLength)) && StartsWithSoi(s)
    requires ValidExtra(b) && b != [] && |s| > MARKER_SIZE + ExtraSize(b) && b[0].data[0] != 0x45
    ensures !Rewrites(s, at, b)
  {
    hide Matches, App1Image, ExtrasImage;
    App1Begins(s, e, length, thumbLength);
    SizeLeft(b, 0);
    UpdatedStep(s, MARKER_SIZE, b, 0);
    assert b[0..] == b && b[0].Valid();
    if at + ExtraSize(b) <= |s| {
      Untouched(s, at, ExtrasImage(b, false));
    }
    if b[0].appid == 1 && length >= |b[0].data| + LENFIELD_SIZE {
      var t := Stamp(s, 6, Lit(b[0].data));
      UpdatedPrefix(t, NextSegment(s, 2), b[1..]);
      FirstStored(s, 6, b[0].data);
    }
  }

  lemma Untouched(s: seq<byte>, at: nat, img: Image)
    requires 7 <= at && at + |img| <= |s|
    ensures Stamp(s, at, img)[6] == s[6]
  {
  }

  lemma FirstStored(s: seq<byte>, p: nat, data: seq<byte>)
    requires p + |data| <= |s| && data != []
    ensures Stamp(s, p, Lit(data))[p] == data[0]
  {
  }

  /** Data of the same ids and sizes whose first byte is `c`. */
  ghost function WithFirst(d: seq<AppInfo>, c: byte): (r: seq<AppInfo>)
    requires d != [] && ValidExtra(d)
    ensures SameSegments(d, r) && ValidExtra(r) && r[0].data[0] == c
  {
    assert d[0].Valid();
    [AppInfo(d[0].appid, [c] + d[0].data[1..])] + d[1..]
  }

  /** With nothing behind the segments the update does not even start. */
  lemma NothingBehind(s: seq<byte>, d: seq<AppInfo>)
    requires Written(s, None, 0, 0, MARKER_SIZE, d) && ValidExtra(d) && d != [] && |s| == MARKER_SIZE + ExtraSize(d)
    ensures exists b :: ValidExtra(b) && SameSegments(d, b) && !Rewrites(s, MARKER_SIZE, b)
  {
    hide Matches, Stamp, ExtraImage, ExtrasImage;
    var b := WithFirst(d, if s[6] == 0 then 1 else 0);
    SameSizes(d, b);
    FirstReplaced(s, d, b);
    assert Updated(s, MARKER_SIZE, b) == (true, s);
  }

  /** Writing the segments again stores the first byte of the first payload. */
  lemma FirstReplaced(s: seq<byte>, d: seq<AppInfo>, b: seq<AppInfo>)
    requires ValidExtra(d) && ValidExtra(b) && d != [] && SameSegments(d, b)
    requires Matches(s, MARKER_SIZE, ExtrasImage(d, false)) && |s| == MARKER_SIZE + ExtraSize(d) == MARKER_SIZE + ExtraSize(b)
    ensures Stamp(s, MARKER_SIZE, ExtrasImage(b, false))[6] == b[0].data[0]
  {
    hide Matches, Stamp, ExtraImage;
    assert b[0].Valid() && d[0].Valid();
    MatchesConcat(s, 2, ExtraImage(d[0], false), ExtrasImage(d[1..], false));
    SegmentUpdated(s, 2, d[0], b[0], false);
    StampConcat(s, 2, ExtraImage(b[0], false), ExtrasImage(b[1..], false));
    FirstStored(s, 6, b[0].data);
    Untouched(Stamp(s, 6, Lit(b[0].data)), 6 + |b[0].data|, ExtrasImage(b[1..], false));
  }

  /**
   Updating a written stream is the same as writing the new data exactly if there is no Exif in it
   and something, such as the main image, follows the segments.
   */
  lemma UpdateIsWriteIffNoExif(s: seq<byte>, exif: Option<Attributes>, length: u16, thumbLength: nat, at: nat,
                               d: seq<AppInfo>)
    requires Written(s, exif, length, thumbLength, at, d) && ValidExtra(d) && d != []
    ensures (forall b :: ValidExtra(b) && SameSegments(d, b) ==> Rewrites(s, at, b))
            <==> exif.None? && |s| > at + ExtraSize(d)
  {
    hide Matches, Stamp, ExtrasImage, App1Image, Updated, ExtraSize;
    if exif.None? {
      if |s| > at + ExtraSize(d) {
        forall b | ValidExtra(b) && SameSegments(d, b)
          ensures Rewrites(s, at, b)
        {
          SameSizes(d, b);
          SegmentsUpdated(s, at, d, b, false);
        }
      } else {
        Fits(s, at, ExtrasImage(d, false));
        NothingBehind(s, d);
      }
    } else {
      var b := WithFirst(d, 0);
      SameSizes(d, b);
      Fits(s, at, ExtrasImage(d, false));
      App1Begins(s, exif.value, length, thumbLength);
      Fits(s, MARKER_SIZE, App1Image(exif.value, length, thumbLength));
      ExifIsMistaken(s, exif.value, length, thumbLength, at, b);
      assert !Rewrites(s, at, b);
    }
  }

  /** A stream of SOI, an Exif segment of four bytes, and EOI: an update of APP1 writes into the identifier. */
  lemma MistakenExample()
    ensures
      var s: seq<byte> := [0xFF, 0xD8, 0xFF, 0xE1, 0, 6, 0x45, 0x78, 0x69, 0x66, 0xFF, 0xD9];
      var infos := [AppInfo(1, [0x41])];
      DebugUpdated(s, Some(infos)) == (true, s[6 := 0x41])
  {
    var s: seq<byte> := [0xFF, 0xD8, 0xFF, 0xE1, 0, 6, 0x45, 0x78, 0x69, 0x66, 0xFF, 0xD9];
    var infos := [AppInfo(1, [0x41])];
    SizeLeft(infos, 0);
    assert ExtraSize(infos[1..]) == 0;
    UpdatedStep(s, 2, infos, 0);
    assert infos[0..] == infos;
    var t := Stamp(s, 6, Lit([0x41]));
    assert t == s[6 := 0x41];
    UpdatedStep(t, NextSegment(s, 2), infos, 1);
  }

  // ---------------------------------------------------------------- finished pictures

  /** The segments of a finished picture are as written, unless the payloads were to come later. */
  lemma FinishedIsWritten(enc: Encoder, main: seq<byte>, t: seq<byte>, n: nat, size: nat)
    requires enc.Laid() && |t| <= enc.writer.maxThumbSize && !enc.hwfc && enc.Assembled(main, t, n, size)
    ensures
      var w, s, at := enc.writer, enc.buf[..size], MARKER_SIZE + |enc.FinalApp1(t)|;
      && 0 <= FinalLength(enc, t) && (w.exif.Some? ==> FinalLength(enc, t) <= MAX_SEGMENT_SIZE)
      && Written(s, w.exif, if w.exif.Some? then FinalLength(enc, t) else 0, |t|, at, w.Extras())
      && ValidExtra(w.Extras()) && |s| > at + ExtraSize(w.Extras())
  {
    hide Matches, Encoder.FinalApp1, Encoder.Tail, Encoder.Laid, FinalLength, App1Image, App1Length, ExtrasImage, ExtraSize;
    var w, s, at := enc.writer, enc.buf[..size], MARKER_SIZE + |enc.FinalApp1(t)|;
    assert enc.buf[..][..size] == s;
    FinishedParts(enc, s, main, t, n, size);
    ExtrasInTail(enc, s, at);
    if w.exif.Some? {
      FinalApp1Is(enc, s, t);
      LongEnough(enc, t);
    } else {
      NoApp1(enc, t);
    }
  }

  lemma ExtrasInTail(enc: Encoder, s: seq<byte>, at: nat)
    requires enc.Laid() && !enc.hwfc && Matches(s, at, enc.Tail())
    ensures ValidExtra(enc.writer.Extras()) && Matches(s, at, ExtrasImage(enc.writer.Extras(), false))
    ensures at + ExtraSize(enc.writer.Extras()) <= at + |enc.Tail()|
  {
    hide Matches, ExtrasImage, ExtraSize, AppMarkerWriter.WrittenApp11, Encoder.Laid;
    var w := enc.writer;
    var q := w.app1End + ExtraSize(w.Extras());
    App11Part(enc, q);
    MatchesConcat(s, at, ExtrasImage(w.Extras(), false), w.WrittenApp11(q, MARKER_SIZE, enc.align));
  }

  lemma LongEnough(enc: Encoder, t: seq<byte>)
    requires enc.Laid() && enc.writer.exif.Some?
    ensures App1Length(enc.writer.exif.value) <= FinalLength(enc, t)
  {
    hide ZerothFields, DirSize, Encoder.Tail;
  }

  /** An update of a finished picture does what encoding it with the new data would do exactly if it has no Exif. */
  lemma PictureUpdatedIffNoExif(enc: Encoder, main: seq<byte>, t: seq<byte>, n: nat, size: nat)
    requires enc.Laid() && |t| <= enc.writer.maxThumbSize && !enc.hwfc && enc.Assembled(main, t, n, size)
    requires enc.writer.Extras() != []
    ensures (forall b :: ValidExtra(b) && SameSegments(enc.writer.Extras(), b) ==>
                           Rewrites(enc.buf[..size], MARKER_SIZE + |enc.FinalApp1(t)|, b))
            <==> enc.writer.exif.None?
  {
    hide Encoder.FinalApp1, Encoder.Tail, Encoder.Laid, FinalLength, Written, Rewrites, ExtraSize, Matches, IsEoi;
    FinishedIsWritten(enc, main, t, n, size);
    var w := enc.writer;
    UpdateIsWriteIffNoExif(enc.buf[..size], w.exif, if w.exif.Some? then FinalLength(enc, t) else 0, |t|,
                           MARKER_SIZE + |enc.FinalApp1(t)|, w.Extras());
  }
}
