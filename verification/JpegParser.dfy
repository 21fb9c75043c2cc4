/** `CJpegStreamParser`: finds the baseline frame header of a JPEG stream (ITU-T T.81 sections B.1.1.4 and B.2.2). */
module JpegParser {
  import opened Bytes

  /** What the parser remembers of a frame; it starts as `INITIAL` and may be set in part before a rejection. */
  datatype Frame = Frame(components: byte, width: u16, height: u16, horizontal: byte, vertical: byte)

  const INITIAL := Frame(0, 0, 0, 1, 1)

  predicate IsSof(marker: byte) {
    marker != 0xC4 && marker / 0x10 == 0xC
  }

  // ---------------------------------------------------------------- specification

  /** The outcome of `ParseFrame` on the segment body at `at`. */
  function FrameAt(s: seq<byte>, at: nat): (bool, Frame)
    requires at + 2 <= |s| && at + GetBe16(s, at) <= |s|
  {
    if GetBe16(s, at) < 17 then (false, INITIAL)
    else if s[at + 2] != 8 then (false, INITIAL)
    else
      var f := INITIAL.(height := GetBe16(s, at + 3));
      if f.height < 8 || f.height > 16383 then (false, f) else
      var f := f.(width := GetBe16(s, at + 5));
      if f.width < 8 || f.width > 16383 then (false, f) else
      var f := f.(components := s[at + 7]);
      if f.components != 3 then (false, f)
      else if s[at + 9] !in {0x11, 0x21, 0x12, 0x22} then (false, f)
      else (true, f.(horizontal := s[at + 9] / 0x10, vertical := s[at + 9] % 0x10))
  }

  /** The segment starting at `p` is stepped over. */
  predicate Skippable(s: seq<byte>, p: nat) {
    && p + 4 <= |s| && s[p] == 0xFF
    && !IsSof(s[p + 1]) && s[p + 1] != 0xD9 && s[p + 1] != 0xDC
    && 0 < GetBe16(s, p + 2) && p + 2 + GetBe16(s, p + 2) <= |s|
  }

  /** Where the segment starting at `p` ends. */
  function Next(s: seq<byte>, p: nat): nat
    requires p + 4 <= |s|
  {
    p + 2 + GetBe16(s, p + 2)
  }

  /** The outcome of scanning segments from `p` on. */
  function Scan(s: seq<byte>, p: nat): (bool, Frame)
    decreases |s| - p
  {
    if Skippable(s, p) then Scan(s, Next(s, p))
    else if p + 4 <= |s| && s[p] == 0xFF && s[p + 1] == 0xC0 && Next(s, p) <= |s| then FrameAt(s, p + 2)
    else (false, INITIAL)
  }

  ghost predicate StartsWithSoi(s: seq<byte>) {
    |s| >= 2 && s[0] == 0xFF && s[1] == 0xD8
  }

  ghost function Verdict(s: seq<byte>): (bool, Frame) {
    if StartsWithSoi(s) then Scan(s, 2) else (false, INITIAL)
  }

  // ---------------------------------------------------------------- the parser

  class JpegStreamParser {
    var components: byte
    var width: u16
    var height: u16
    var horizontalFactor: byte
    var verticalFactor: byte

    function View(): Frame
      reads this
    {
      Frame(components, width, height, horizontalFactor, verticalFactor)
    }

    method Initialize()
      modifies this
      ensures View() == INITIAL
    {
      components, width, height := 0, 0, 0;
      horizontalFactor, verticalFactor := 1, 1;
    }

    static method GetLength(stream: array<byte>, addr: nat) returns (len: u16)
      requires addr + 2 <= stream.Length
      ensures len == GetBe16(stream[..], addr)
    {
      len := 0x100 * (stream[addr] as int) + stream[addr + 1] as int;
    }

    method Parse(stream: array<byte>, length: nat) returns (ok: bool)
      requires length <= stream.Length
      modifies this
      ensures (ok, View()) == Verdict(stream[..length])
      ensures width == Verdict(stream[..length]).1.width && height == Verdict(stream[..length]).1.height
    {
      hide FrameAt;
      Initialize();
      var addr: nat, filelen: nat := 0, length;
      if filelen < 2 || stream[addr] != 0xFF || stream[addr + 1] != 0xD8 {
        return false;
      }
      addr, filelen := addr + 2, filelen - 2;
      ghost var s := stream[..length];
      while true
        invariant 2 <= addr <= length && filelen == length - addr
        invariant View() == INITIAL && Verdict(s) == Scan(s, addr)
        decreases filelen
      {
        if filelen < 2 {
          return false;
        }
        if stream[addr] != 0xFF {
          return false;
        }
        var marker := stream[addr + 1];
        addr, filelen := addr + 2, filelen - 2;
        if marker != 0xC4 && marker / 0x10 == 0xC {
          if marker != 0xC0 {
            return false;
          }
          if filelen < 2 {
            return false;
          }
          var len := GetLength(stream, addr);
          if filelen < len {
            return false;
          }
          ok := ParseFrame(stream, addr, s);
          return;
        } else if marker == 0xD9 {
          return false;
        } else {
          if marker == 0xCC || marker == 0xDC {
            return false;
          }
          if filelen < 2 {
            return false;
          }
          var len := GetLength(stream, addr);
          if filelen < len {
            return false;
          }
        }
        var len := GetLength(stream, addr);
        if len == 0 {
          return false;
        }
        if filelen < len {
          return false;
        }
        addr, filelen := addr + len, filelen - len;
      }
    }

    method ParseFrame(stream: array<byte>, at: nat, ghost s: seq<byte>) returns (ok: bool)
      requires |s| <= stream.Length && s == stream[..|s|]
      requires at + 2 <= |s| && at + GetBe16(s, at) <= |s|
      requires View() == INITIAL
      modifies this
      ensures (ok, View()) == FrameAt(s, at)
    {
      var addr := at;
      var len := GetLength(stream, addr);
      if len < 17 {
        return false;
      }
      addr := addr + 2;
      if stream[addr] != 8 {
        return false;
      }
      addr := addr + 1;
      height := GetLength(stream, addr);
      if height < 8 || height > 16383 {
        return false;
      }
      addr := addr + 2;
      width := GetLength(stream, addr);
      if width < 8 || width > 16383 {
        return false;
      }
      addr := addr + 2;
      components := stream[addr];
      if components != 3 {
        return false;
      }
      addr := addr + 1;
      addr := addr + 1;
      if stream[addr] != 0x11 && stream[addr] != 0x21 && stream[addr] != 0x12 && stream[addr] != 0x22 {
        return false;
      }
      horizontalFactor := stream[addr] / 0x10;
      verticalFactor := stream[addr] % 0x10;
      return true;
    }
  }

  // ---------------------------------------------------------------- what acceptance means

  /**
   The marker codes of T.81 table B.1 that are stepped over: all but those of frames and arithmetic coding, of the
   image's end and of the number of lines. DHT is among them, and so are SOS and the markers that have no length.
   */
  predicate SteppedOver(marker: byte) {
    || marker in {0xC4, 0xDA, 0xDB, 0xDD, 0xDE, 0xDF, 0xFE}  // DHT, SOS, DQT, DRI, DHP, EXP, COM
    || 0xE0 <= marker <= 0xEF                                // APPn
    || 0xD0 <= marker <= 0xD8                                // RSTm, SOI
    || 0xF0 <= marker <= 0xFD || marker <= 0xBF              // JPGn, TEM, reserved codes
    || marker == 0xFF
  }

  /** A whole segment that is stepped over begins at `p`. */
  ghost predicate SegmentAt(s: seq<byte>, p: nat) {
    p + 4 <= |s| && s[p] == 0xFF && SteppedOver(s[p + 1]) && 0 < 0x100 * (s[p + 2] as int) + s[p + 3] as int <= |s| - p - 2
  }

  /** `path` is the starts of consecutive segments from `p` on, all but the last of them stepped over. */
  ghost predicate Walk(s: seq<byte>, p: nat, path: seq<nat>)
    decreases |path|
  {
    path != [] && path[0] == p
    && (|path| == 1 || (SegmentAt(s, p) && Walk(s, p + 2 + 0x100 * (s[p + 2] as int) + s[p + 3] as int, path[1..])))
  }

  lemma SkippableIff(s: seq<byte>, p: nat)
    ensures Skippable(s, p) <==> SegmentAt(s, p)
  {
  }

  /** A baseline frame header at `p` of the kind the decoder supports. */
  ghost predicate SupportedFrame(s: seq<byte>, p: nat) {
    && p + 4 <= |s| && s[p] == 0xFF && s[p + 1] == 0xC0
    && 17 <= GetBe16(s, p + 2) && p + 2 + GetBe16(s, p + 2) <= |s|
    && s[p + 4] == 8
    && 8 <= GetBe16(s, p + 5) <= 16383
    && 8 <= GetBe16(s, p + 7) <= 16383
    && s[p + 9] == 3
    && 1 <= s[p + 11] / 0x10 <= 2 && 1 <= s[p + 11] % 0x10 <= 2
  }

  /** What is remembered of the supported frame header at `p`. */
  ghost function FrameOf(s: seq<byte>, p: nat): Frame
    requires SupportedFrame(s, p)
  {
    Frame(3, GetBe16(s, p + 7), GetBe16(s, p + 5), s[p + 11] / 0x10, s[p + 11] % 0x10)
  }

  lemma SupportedIsAccepted(s: seq<byte>, p: nat)
    ensures SupportedFrame(s, p) ==> Scan(s, p) == (true, FrameOf(s, p))
    ensures !Skippable(s, p) && Scan(s, p).0 ==> SupportedFrame(s, p)
  {
  }

  lemma {:induction false} WalkScan(s: seq<byte>, p: nat, path: seq<nat>)
    requires Walk(s, p, path)
    ensures Scan(s, p) == Scan(s, path[|path| - 1])
    decreases |path|
  {
    hide FrameAt;
    SkippableIff(s, p);
    if |path| > 1 {
      WalkScan(s, Next(s, p), path[1..]);
    }
  }

  /** Stepping over segments comes to one that is not stepped over. */
  lemma {:induction false} WalkToEnd(s: seq<byte>, p: nat) returns (path: seq<nat>)
    ensures Walk(s, p, path) && !Skippable(s, path[|path| - 1])
    decreases |s| - p
  {
    SkippableIff(s, p);
    if Skippable(s, p) {
      var rest := WalkToEnd(s, Next(s, p));
      path := [p] + rest;
      assert path[1..] == rest;
    } else {
      path := [p];
    }
  }

  /** Any supported frame header that the chain of segments reaches is the one remembered. */
  lemma ReachedIsAccepted(s: seq<byte>, path: seq<nat>)
    requires StartsWithSoi(s) && Walk(s, 2, path) && SupportedFrame(s, path[|path| - 1])
    ensures Verdict(s) == (true, FrameOf(s, path[|path| - 1]))
  {
    hide Scan, Skippable, SupportedFrame, FrameOf;
    WalkScan(s, 2, path);
    SupportedIsAccepted(s, path[|path| - 1]);
  }

  /** A stream is accepted exactly if its chain of segments leads from SOI to a supported frame header. */
  lemma AcceptedIffFrameReached(s: seq<byte>)
    ensures Verdict(s).0 <==>
            |s| >= 2 && s[0] == 0xFF && s[1] == 0xD8 && exists path :: Walk(s, 2, path) && SupportedFrame(s, path[|path| - 1])
  {
    hide Scan, Skippable, SupportedFrame, FrameOf;
    if Verdict(s).0 {
      var path := WalkToEnd(s, 2);
      WalkScan(s, 2, path);
      SupportedIsAccepted(s, path[|path| - 1]);
    }
    if StartsWithSoi(s) && exists path :: Walk(s, 2, path) && SupportedFrame(s, path[|path| - 1]) {
      var path :| Walk(s, 2, path) && SupportedFrame(s, path[|path| - 1]);
      ReachedIsAccepted(s, path);
    }
  }

  // ---------------------------------------------------------------- segments in front

  /** Scanning depends only on the bytes from the scan position on. */
  lemma {:induction false} ScanMoved(s: seq<byte>, p: nat, t: seq<byte>, q: nat)
    requires p <= |s| && q <= |t| && s[p..] == t[q..]
    ensures Scan(s, p) == Scan(t, q)
    decreases |s| - p
  {
    assert forall i :: 0 <= i < |s| - p ==> s[p..][i] == t[q..][i];
    assert forall i :: p <= i < |s| ==> s[i] == t[i - p + q];
    if Skippable(s, p) {
      assert s[Next(s, p)..] == s[p..][Next(s, p) - p..];
      assert t[Next(t, q)..] == t[q..][Next(t, q) - q..];
      ScanMoved(s, Next(s, p), t, Next(t, q));
    }
  }
}
