/** `CScalerV4L2`: the life cycle of the two queues of the hardware scaler. */
module ScalerV4l2 {
  import opened Bytes
  import opened SwScaler
  import opened V4l2

  const MAX_PLANES := 3

  // V4L2_PIX_FMT_
  const YUYV := 0x5659_5559
  const YVYU := 0x5559_5659
  const NV12M := 0x3231_4D4E
  const NV21M := 0x3132_4D4E
  const NV12 := 0x3231_564E
  const NV21 := 0x3132_564E

  /** The formats of the software scaler and the planes that their buffers have. */
  const PLANES: map<int, nat> := map[YUYV := 1, YVYU := 1, NV12M := 2, NV21M := 2, NV12 := 1, NV21 := 1]

  datatype Flags = Flags(changed: bool, reqbufs: bool, qbuf: bool, streaming: bool) {
    predicate Idle() {
      !reqbufs && !qbuf && !streaming
    }

    /** What the flags promise about one another and about the driver's queue. */
    predicate Describe(q: QueueState) {
      && (qbuf ==> reqbufs) && (streaming ==> reqbufs)
      && (reqbufs ==> q.requested) && (streaming ==> q.streaming) && (qbuf ==> q.queued)
    }

    /** The driver holds nothing that the flags have lost track of, but for a queued buffer. */
    predicate Exact(q: QueueState) {
      reqbufs == q.requested && streaming == q.streaming
    }
  }

  /** One request, with what was known when it was made. */
  datatype Step = Step(call: Call, src: Flags, dst: Flags, before: Driver, ok: bool) {
    function Of(side: Side): Flags {
      match side case Output => src case Capture => dst
    }

    /** Settings are changed only while the queues concerned are idle, and queues are used in order. */
    predicate Safe() {
      match call
      case SetFormat(side, _) => Of(side).Idle()
      case SetCrop(side, _) => Of(side).Idle()
      case SetControls(_) => src.Idle() && dst.Idle()
      case RequestBuffers(side, count) => Of(side).reqbufs == (count == 0) && !Of(side).streaming && !Of(side).qbuf
      case StreamOn(side) => Of(side).reqbufs && !Of(side).streaming
      case StreamOff(side) => Of(side).streaming
      case Queue(side) => Of(side).reqbufs && !Of(side).qbuf
      case Dequeue(side) => before.At(side).queued
      case TryFormat(_) => false
    }

    /** The driver has no reason to refuse, unless a buffer got stuck in it or was queued without streaming. */
    predicate InOrder() {
      || before.Accepts(call)
      || (call.Queue? && before.At(call.side).queued)
      || (call.Dequeue? && !before.At(call.side).streaming)
    }
  }

  ghost predicate AllSafe(trace: seq<Step>) {
    forall i :: 0 <= i < |trace| ==> trace[i].Safe()
  }

  ghost predicate AllInOrder(trace: seq<Step>) {
    forall i :: 0 <= i < |trace| ==> trace[i].InOrder()
  }

  ghost predicate GoodTrace(trace: seq<Step>, reliable: bool) {
    AllSafe(trace) && (reliable ==> AllInOrder(trace))
  }

  /** A buffer each way queued and taken back. */
  const ROUND_TRIP := [Queue(Output), Queue(Capture), Dequeue(Output), Dequeue(Capture)]

  /** The requests by which `now` goes beyond `was`. */
  ghost predicate Grown(was: seq<Step>, now: seq<Step>, calls: seq<Call>) {
    was <= now && |now| == |was| + |calls| && forall n :: |was| <= n < |now| ==> now[n].call == calls[n - |was|]
  }

  lemma GrownTwice(a: seq<Step>, b: seq<Step>, c: seq<Step>, x: seq<Call>, y: seq<Call>)
    requires Grown(a, b, x) && Grown(b, c, y)
    ensures Grown(a, c, x + y) && a <= c
  {
    forall n | |a| <= n < |c|
      ensures c[n].call == (x + y)[n - |a|]
    {
      assert n < |b| ==> c[n] == b[n];
    }
  }

  /** `FrameInfo`; the memory addresses and fences of the buffers are not part of it. */
  class Frame {
    const side: Side
    var format: Format
    var crop: Crop
    var planes: nat
    var flags: Flags

    constructor (side: Side)
      ensures this.side == side && format == Format(0, 0, 0) && crop == Crop(0, 0, 0, 0) && planes == 0
      ensures flags == Flags(false, false, false, false)
    {
      this.side := side;
      format, crop, planes := Format(0, 0, 0), Crop(0, 0, 0, 0), 0;
      flags := Flags(false, false, false, false);
    }

    /** The crop in rows as long as the frame is wide. */
    function Rectangle(): Rect
      reads this`format, this`crop
    {
      Rect(U32(crop.left), U32(crop.top), U32(crop.width), U32(crop.height), U32(format.width))
    }

    /** The driver has the frame's settings, unless they are marked as changed. */
    ghost predicate Applied(q: QueueState)
      reads this`flags, this`format, this`crop
    {
      !flags.changed ==> q.format == format && q.crop == crop
    }
  }

  /** The settings of the whole session; each is marked while it has not been given to the driver. */
  datatype Session = Session(
    rotationFresh: bool, rotation: int, hFlip: bool, vFlip: bool,
    drmFresh: bool, drm: bool,
    cscFresh: bool, cscWide: bool, colorspace: int,
    rateFresh: bool, frameRate: int,
    filter: nat)
  {
    predicate Settled() {
      !rotationFresh && !drmFresh && !cscFresh && !rateFresh
    }

    /** The value that a control is to have. */
    function Wanted(c: Control): int {
      match c
      case Protection => Bit(drm)
      case Rotate => rotation
      // the names of the two flips are exchanged between interface and driver
      case VFlip => Bit(hFlip)
      case HFlip => Bit(vFlip)
      case Denoise => filter
      case CscRange => Bit(cscWide)
      case CscEq => colorspace
      case FrameRate => frameRate
      case _ => 0
    }

    /** The controls that are set with the next conversion: those that are marked, and the filter if it is on. */
    function Pending(): set<Control> {
      ProtectionSet() + RotationSet() + FilterSet() + CscSet() + RateSet()
    }

    function ProtectionSet(): set<Control> { if drmFresh then {Protection} else {} }
    function RotationSet(): set<Control> { if rotationFresh then {Rotate, VFlip, HFlip} else {} }
    function FilterSet(): set<Control> { if filter > 0 then {Denoise} else {} }
    function CscSet(): set<Control> { if cscFresh then {CscRange, CscEq} else {} }
    function RateSet(): set<Control> { if rateFresh then {FrameRate} else {} }

    /** The driver has each control's value, unless it is still to be set, or lost. */
    ghost predicate Applied(controls: map<Control, int>, lost: set<Control>) {
      forall c <- CONTROLS :: c in Pending() || c in lost || Value(controls, c) == Wanted(c)
    }
  }

  /** The controls of a session. */
  const CONTROLS: set<Control> := {Protection, Rotate, VFlip, HFlip, Denoise, CscRange, CscEq, FrameRate}

  /** A driver that refuses these does not make a conversion fail. */
  const OPTIONAL: set<Control> := {CscEq, FrameRate}

  predicate Optional(c: Call) {
    c.SetControls? && c.values.Keys <= OPTIONAL
  }

  function Bit(b: bool): int { if b then 1 else 0 }

  /**
   Of the controls `sent` those have the session's values that were not lost by it, and only optional ones were;
   all other controls have the values that they had.
   */
  ghost predicate Sends(s: Session, sent: set<Control>, was: map<Control, int>, wasLost: set<Control>,
                        controls: map<Control, int>, lost: set<Control>) {
    && lost - sent == wasLost - sent && lost * sent <= OPTIONAL
    && forall c: Control :: Value(controls, c) == if c in sent && c !in lost then s.Wanted(c) else Value(was, c)
  }

  /** Nothing that was chosen has changed, only what is marked. */
  predicate SameChoice(s: Session, t: Session) {
    t == s.(rotationFresh := t.rotationFresh, drmFresh := t.drmFresh, cscFresh := t.cscFresh, rateFresh := t.rateFresh)
  }

  lemma SendsNothing(s: Session, controls: map<Control, int>, lost: set<Control>)
    ensures Sends(s, {}, controls, lost, controls, lost)
  {
  }

  lemma SendsTwice(s: Session, x: set<Control>, y: set<Control>, m: map<Control, int>, l: set<Control>,
                   m': map<Control, int>, l': set<Control>, m'': map<Control, int>, l'': set<Control>, t: Session)
    requires x !! y && SameChoice(s, t) && Sends(s, x, m, l, m', l') && Sends(t, y, m', l', m'', l'')
    ensures Sends(s, x + y, m, l, m'', l'')
  {
    hide Value;
    forall c: Control
      ensures c in x ==> (c in l'' <==> c in l') && c !in y
      ensures c in y ==> c !in x
      ensures c !in x && c !in y ==> (c in l'' <==> c in l)
    {
      assert c in l'' - y <==> c in l' - y;
      assert c in l' - x <==> c in l - x;
    }
    assert forall c: Control :: s.Wanted(c) == t.Wanted(c);
  }

  lemma SendsKeeps(s: Session, sent: set<Control>, m: map<Control, int>, l: set<Control>, m': map<Control, int>, l': set<Control>,
                   c: Control)
    requires Sends(s, sent, m, l, m', l') && c !in sent
    ensures (c in l' <==> c in l) && Value(m', c) == Value(m, c)
  {
    assert c in l' - sent <==> c in l - sent;
  }

  /** Once the marks of what was sent are cleared, the driver has all the session's values again. */
  lemma SendsApplies(s: Session, t: Session, sent: set<Control>, m: map<Control, int>, l: set<Control>,
                     m': map<Control, int>, l': set<Control>)
    requires SameChoice(s, t) && s.Pending() <= t.Pending() + sent && s.Applied(m, l) && Sends(s, sent, m, l, m', l')
    ensures t.Applied(m', l')
  {
    hide Value, Session.Pending;
    forall c <- CONTROLS
      ensures c in t.Pending() || c in l' || Value(m', c) == t.Wanted(c)
    {
      assert c in l' - sent <==> c in l - sent;
    }
  }

  /** Setting a control to the value that it is to have. */
  lemma OneSent(s: Session, m: map<Control, int>, l: set<Control>, c: Control)
    requires s.Applied(m, l)
    ensures s.Applied(m[c := s.Wanted(c)], l) && Sends(s, {c}, m, l, m[c := s.Wanted(c)], l - {c})
  {
  }

  /** If the driver has taken both optional controls, as far as they were sent, it has all that was sent. */
  lemma NoneLost(s: Session, m: map<Control, int>, l: set<Control>, m': map<Control, int>, l': set<Control>)
    requires Sends(s, s.Pending(), m, l, m', l')
    ensures (s.cscFresh ==> CscEq !in l') && (s.rateFresh ==> FrameRate !in l') ==> l' == l - s.Pending()
  {
    hide Value;
    if (s.cscFresh ==> CscEq !in l') && (s.rateFresh ==> FrameRate !in l') {
      assert forall c: Control :: c in l' && c in s.Pending() ==> c in l' * s.Pending();
      assert forall c: Control :: c !in s.Pending() ==> (c in l' <==> c in l' - s.Pending());
    }
  }

  /** An optional control that the driver refuses. */
  lemma OneLost(s: Session, m: map<Control, int>, l: set<Control>, c: Control)
    requires c in OPTIONAL
    ensures Sends(s, {c}, m, l, m, l + {c})
  {
  }

  /** A setting that has changed is waiting to be given to the driver. */
  lemma Chosen(s: Session, t: Session, m: map<Control, int>, l: set<Control>, changed: set<Control>)
    requires s.Applied(m, l) && s.Pending() <= t.Pending() && changed <= t.Pending()
    requires forall c: Control :: c !in changed ==> t.Wanted(c) == s.Wanted(c)
    ensures t.Applied(m, l)
  {
    hide Session.Pending, Session.Wanted;
  }

  lemma FilterChosen(s: Session, filter: nat, m: map<Control, int>, l: set<Control>)
    requires s.Applied(m, l)
    ensures s.(filter := filter).Applied(m, if filter == 0 then l + {Denoise} else l)
  {
    hide Value;
    var t := s.(filter := filter);
    forall c <- CONTROLS
      ensures c != Denoise ==> t.Wanted(c) == s.Wanted(c) && (c in s.Pending() <==> c in t.Pending())
      ensures filter > 0 ==> Denoise in t.Pending()
    {
    }
  }

  /** What is no longer waiting once a mark is cleared. */
  lemma Unmarked(s: Session)
    ensures s.Pending() <= s.(drmFresh := false).Pending() + {Protection}
    ensures s.Pending() <= s.(rotationFresh := false).Pending() + {Rotate, VFlip, HFlip}
    ensures s.Pending() <= s.(cscFresh := false).Pending() + {CscRange, CscEq}
    ensures s.Pending() <= s.(rateFresh := false).Pending() + {FrameRate}
  {
  }

  /** After all that was waiting has been sent: a control has its value exactly if it is not lost or had it before. */
  lemma HeldIffNotLost(s: Session, t: Session, m: map<Control, int>, l: set<Control>, m': map<Control, int>, l': set<Control>,
                       c: Control)
    requires SameChoice(s, t) && Sends(s, s.Pending(), m, l, m', l') && t.Pending() <= {Denoise} && c in CONTROLS
    requires s.Applied(m, l)
    ensures Value(m', c) == t.Wanted(c) <==> c !in l' || Value(m, c) == t.Wanted(c)
  {
    hide Value;
    assert c in l' - s.Pending() <==> c in l - s.Pending();
  }

  /** Controls are 0 until they are set. */
  function Value(controls: map<Control, int>, c: Control): int {
    if c in controls then controls[c] else 0
  }

  /** The three controls of a rotation, sent one after the other. */
  lemma RotationSent(s: Session, m: map<Control, int>, l: set<Control>)
    requires s.Applied(m, l)
    ensures
      var a := m[Rotate := s.rotation];
      var b := a[VFlip := Bit(s.hFlip)];
      var c := b[HFlip := Bit(s.vFlip)];
      && s.Applied(a, l) && s.Applied(b, l) && Value(m, Denoise) == Value(a, Denoise) == Value(b, Denoise)
      && Sends(s, {Rotate, VFlip, HFlip}, m, l, c, l - {Rotate, VFlip, HFlip})
  {
    OneSent(s, m, l, Rotate);
    OneSent(s, m[Rotate := s.rotation], l, VFlip);
  }

  /** The range and then the equation, which may be refused. */
  lemma CscSent(s: Session, m: map<Control, int>, l: set<Control>)
    ensures
      var a := m[CscRange := Bit(s.cscWide)];
      var b := a[CscEq := s.colorspace];
      && Sends(s, {CscRange, CscEq}, m, l, a, l - {CscRange} + {CscEq})
      && Sends(s, {CscRange, CscEq}, m, l, b, l - {CscRange, CscEq})
  {
  }

  const V4L2_COLORSPACE_DEFAULT := 0
  const V4L2_COLORSPACE_SMPTE170M := 1

  /** Whether a scaling factor is out of the hardware's reach. */
  function UnderOne16thScaling(srcw: u32, srch: u32, dstw: u32, dsth: u32, rot: int): bool {
    var (w, h) := if rot == 90 || rot == 270 then (srch, srcw) else (srcw, srch);
    w > U32(dstw * 16) || h > U32(dsth * 16)
  }

  lemma Sixteenfold(x: int)
    ensures U32(U32(x) * 16) == 16 * x % 0x1_0000_0000
  {
    var q := x / 0x1_0000_0000;
    assert 16 * x == U32(x) * 16 + 16 * q * 0x1_0000_0000;
    Wraps(U32(x) * 16, 16 * q);
  }

  lemma NoWrap(x: int)
    requires 0 <= x < 0x1_0000_0000
    ensures x % 0x1_0000_0000 == x
  {
  }

  lemma EvenOf(x: int)
    ensures U32(x) % 2 == x % 2
  {
  }

  lemma Parity(c: Crop)
    ensures U32(c.left) % 2 == c.left % 2 && U32(c.top) % 2 == c.top % 2
    ensures U32(c.width) % 2 == c.width % 2 && U32(c.height) % 2 == c.height % 2
  {
    EvenOf(c.left);
    EvenOf(c.top);
    EvenOf(c.width);
    EvenOf(c.height);
  }

  lemma Wraps(x: int, q: int)
    ensures (x + q * 0x1_0000_0000) % 0x1_0000_0000 == x % 0x1_0000_0000
  {
  }

  /** The remainder of a division that rounds towards zero. */
  function Remainder(a: int, b: int): int
    requires b > 0
  {
    if a >= 0 then a % b else -(-a % b)
  }

  lemma QuarterTurns(n: int)
    requires n >= 0
    ensures -n % 90 == 0 <==> n % 90 == 0
  {
    var q := n / 90;
    assert -n == if n % 90 == 0 then -q * 90 else (-q - 1) * 90 + (90 - n % 90);
  }

  lemma FullTurns(n: int)
    requires n >= 0
    ensures -n % 360 == if n % 360 == 0 then 0 else 360 - n % 360
  {
    var q := n / 360;
    assert -n == if n % 360 == 0 then -q * 360 else (-q - 1) * 360 + (360 - n % 360);
  }

  lemma Degrees(rot: int)
    ensures Remainder(rot, 90) == 0 <==> rot % 90 == 0
    ensures rot % 360 == if Remainder(rot, 360) < 0 then 360 + Remainder(rot, 360) else Remainder(rot, 360)
  {
    if rot < 0 {
      QuarterTurns(-rot);
      FullTurns(-rot);
    }
  }

  class Scaler {
    const dev: Device
    const src: Frame
    const dst: Frame
    var session: Session
    ghost var lost: set<Control>  // refused by the driver, or not to be set at all, since last chosen
    ghost var trace: seq<Step>

    /** The frame's flags and settings agree with the driver's queue. */
    ghost predicate Steady(frm: Frame)
      reads dev, frm`flags, frm`format, frm`crop
    {
      var q := dev.driver.At(frm.side);
      frm.flags.Describe(q) && frm.Applied(q) && (dev.Reliable() ==> frm.flags.Exact(q))
    }

    ghost predicate Mine(frm: Frame) {
      && src != dst && src.side == Output && dst.side == Capture
      && (frm == src || frm == dst)
    }

    ghost predicate Valid()
      reads this, dev, src`flags, src`format, src`crop, dst`flags, dst`format, dst`crop
    {
      && Mine(src) && Steady(src) && Steady(dst)
      && session.Applied(dev.driver.controls, lost)
      && GoodTrace(trace, dev.Reliable())
    }

    /** The colour equation has no value until it is set: `colorspace` is what happens to be in the field. */
    constructor (dev: Device, colorspace: int)
      requires dev.driver == Driver(UNSET, UNSET, map[])
      ensures Valid() && this.dev == dev && fresh(src) && fresh(dst) && src != dst && trace == [] && lost == {CscEq}
      ensures session == Session(false, 0, false, false, false, false, false, false, colorspace, false, 0, 0)
      ensures src.format == dst.format == Format(0, 0, 0) && src.crop == dst.crop == Crop(0, 0, 0, 0)
    {
      this.dev := dev;
      src := new Frame(Output);
      dst := new Frame(Capture);
      session := Session(false, 0, false, false, false, false, false, false, colorspace, false, 0, 0);
      lost, trace := {CscEq}, [];
    }

    /**
     From the given request on nothing fails that is in order, but perhaps setting an optional control, and
     no format has too many planes.
     */
    ghost predicate SmoothFrom(n: nat) {
      && (forall m :: m >= n ==> !dev.damaged(m) && dev.planes(m) <= MAX_PLANES)
      && forall m, c: Call :: m >= n && !Optional(c) ==> dev.fate(m, c)
    }

    /** The driver has been willing from the start of the call. */
    twostate predicate Smooth()
      reads dev
    {
      SmoothFrom(old(dev.calls))
    }

    /** A driver that has been willing from the start of the call still is. */
    twostate predicate Onwards()
      reads dev
    {
      old(dev.calls) <= dev.calls && (Smooth() ==> SmoothFrom(dev.calls))
    }

    lemma StillSmooth(n: nat)
      ensures SmoothFrom(n) ==> SmoothFrom(n + 1)
    {
    }

    /** From the given request on the control is always taken, or always refused. */
    ghost predicate AnswersFrom(n: nat, c: Control, taken: bool) {
      forall m, v: int :: m >= n ==> dev.fate(m, SetControls(map[c := v])) == taken
    }

    twostate predicate Answers(c: Control, taken: bool)
    {
      AnswersFrom(old(dev.calls), c, taken)
    }

    lemma AnswersLater(n: nat, m: nat, c: Control)
      requires n <= m
      ensures AnswersFrom(n, c, true) ==> AnswersFrom(m, c, true)
      ensures AnswersFrom(n, c, false) ==> AnswersFrom(m, c, false)
    {
    }

    lemma AnswerIs(n: nat, m: nat, c: Control, value: int)
      requires n <= m
      ensures AnswersFrom(n, c, true) ==> dev.fate(m, SetControls(map[c := value]))
      ensures AnswersFrom(n, c, false) ==> !dev.fate(m, SetControls(map[c := value]))
    {
    }

    /** A buffer that the driver holds can be taken back. */
    ghost predicate Free(frm: Frame)
      reads dev, frm`flags
    {
      dev.driver.At(frm.side).queued ==> frm.flags.qbuf && frm.flags.streaming
    }

    /** No buffer is stuck in the driver. */
    ghost predicate Unstuck()
      reads dev, src`flags, dst`flags
    {
      Free(src) && Free(dst)
    }

    /** Nothing gets in the way of later calls. */
    twostate predicate Keeps()
      reads dev, src`flags, dst`flags
    {
      Onwards() && (dev.Reliable() && old(Unstuck()) ==> Unstuck())
    }

    /** Every request to the device, recorded in the trace. */
    method Ioctl(c: Call) returns (ok: bool)
      requires GoodTrace(trace, dev.Reliable())
      requires Step(c, src.flags, dst.flags, dev.driver, true).Safe()
      requires dev.Reliable() ==> Step(c, src.flags, dst.flags, dev.driver, true).InOrder()
      modifies dev, this`trace
      ensures GoodTrace(trace, dev.Reliable())
      ensures dev.Reliable() && c.Releases() ==> ok
      ensures trace == old(trace) + [Step(c, src.flags, dst.flags, old(dev.driver), ok)]
      ensures ok == (dev.fate(old(dev.calls), c) && old(dev.driver).Accepts(c))
      ensures dev.calls == old(dev.calls) + 1 && Onwards()
      ensures Smooth() ==> !dev.damaged(old(dev.calls)) && dev.planes(old(dev.calls)) <= MAX_PLANES
      ensures Smooth() && old(dev.driver).Accepts(c) && !Optional(c) ==> ok
      ensures dev.driver == if ok then old(dev.driver).After(c) else old(dev.driver)
    {
      ghost var before := dev.driver;
      StillSmooth(dev.calls);
      ok := dev.Ioctl(c);
      trace := trace + [Step(c, src.flags, dst.flags, before, ok)];
    }

    /** The requests made since the trace was `was`. */
    ghost predicate Made(was: seq<Step>, calls: seq<Call>)
      reads this`trace
    {
      Grown(was, trace, calls)
    }

    // ------------------------------------------------------------ one queue

    /** A request about the queue of `frm` leaves everything else as it is. */
    method FrameIoctl(frm: Frame, c: Call) returns (ok: bool)
      requires Mine(frm) && GoodTrace(trace, dev.Reliable())
      requires !c.TryFormat? && !c.SetControls? && c.side == frm.side
      requires var step := Step(c, frm.flags, frm.flags, dev.driver, true); step.Safe() && (dev.Reliable() ==> step.InOrder())
      modifies dev, this`trace
      ensures GoodTrace(trace, dev.Reliable())
      ensures Made(old(trace), [c]) && dev.calls == old(dev.calls) + 1 && Onwards()
      ensures Smooth() ==> !dev.damaged(old(dev.calls)) && dev.planes(old(dev.calls)) <= MAX_PLANES
      ensures Smooth() && old(dev.driver).Accepts(c) ==> ok
      ensures ok == (dev.fate(old(dev.calls), c) && old(dev.driver).Accepts(c))
      ensures dev.Reliable() && c.Releases() ==> ok
      ensures dev.driver == if ok then old(dev.driver).After(c) else old(dev.driver)
      ensures dev.driver == old(dev.driver).With(frm.side, dev.driver.At(frm.side))
    {
      hide GoodTrace, Device.Reliable, Scaler.SmoothFrom;
      ok := Ioctl(c);
    }

    method DequeueFrame(frm: Frame) returns (ok: bool)
      requires Mine(frm) && Steady(frm) && GoodTrace(trace, dev.Reliable())
      modifies dev, frm`flags, this`trace
      ensures Steady(frm) && GoodTrace(trace, dev.Reliable())
      ensures dev.driver == old(dev.driver).With(frm.side, dev.driver.At(frm.side))
      ensures frm.flags == old(frm.flags).(qbuf := false)
      ensures if old(frm.flags.qbuf) then Made(old(trace), [Dequeue(frm.side)])
              else ok && Made(old(trace), []) && dev.driver == old(dev.driver)
      ensures ok && old(frm.flags.qbuf) ==> !dev.driver.At(frm.side).queued
      ensures Onwards() && (Smooth() && old(Free(frm)) ==> ok && Free(frm))
    {
      hide GoodTrace, Device.Reliable, Scaler.SmoothFrom;
      if !frm.flags.qbuf {
        return true;
      }
      frm.flags := frm.flags.(qbuf := false);
      var n := dev.calls;
      ok := FrameIoctl(frm, Dequeue(frm.side));
      if !ok {
        return false;
      }
      if dev.damaged(n) {
        return false;
      }
    }

    /** Takes the queue out of use; the flags are cleared even if the driver refuses. */
    method ResetDevice(frm: Frame) returns (ok: bool)
      requires Mine(frm) && Steady(frm) && GoodTrace(trace, dev.Reliable())
      modifies dev, frm`flags, this`trace
      ensures Steady(frm) && GoodTrace(trace, dev.Reliable())
      ensures dev.driver == old(dev.driver).With(frm.side, dev.driver.At(frm.side))
      ensures ok && old(trace) <= trace
      ensures frm.flags == old(frm.flags).(qbuf := false, streaming := false, reqbufs := false)
      ensures old(frm.flags).Idle() ==> Made(old(trace), [])
      ensures dev.Reliable() && old(frm.flags).reqbufs ==> !dev.driver.At(frm.side).queued
      ensures Onwards() && (dev.Reliable() && old(Free(frm)) ==> Free(frm))
    {
      hide GoodTrace, Device.Reliable, Scaler.SmoothFrom;
      var _ := DequeueFrame(frm);
      if frm.flags.streaming {
        var _ := FrameIoctl(frm, StreamOff(frm.side));
        frm.flags := frm.flags.(streaming := false);
      }
      if frm.flags.reqbufs {
        var _ := FrameIoctl(frm, RequestBuffers(frm.side, 0));
        frm.flags := frm.flags.(reqbufs := false);
      }
      return true;
    }

    /** `DevSetFormat`: only settings that changed are given to the driver. */
    method SetFrameFormat(frm: Frame) returns (ok: bool)
      requires Mine(frm) && Steady(frm) && GoodTrace(trace, dev.Reliable())
      modifies dev, frm`flags, frm`planes, this`trace
      ensures Steady(frm) && GoodTrace(trace, dev.Reliable())
      ensures dev.driver == old(dev.driver).With(frm.side, dev.driver.At(frm.side))
      ensures old(trace) <= trace
      ensures ok ==> !frm.flags.changed && frm.flags == if old(frm.flags.changed) then Flags(false, false, false, false) else old(frm.flags)
      ensures ok && old(frm.flags.changed) ==> frm.planes <= MAX_PLANES
      ensures Onwards() && (dev.Reliable() && Smooth() ==> ok)
      ensures dev.Reliable() && old(Free(frm)) ==> Free(frm)
      ensures !old(frm.flags.changed) ==> ok && Made(old(trace), []) && frm.planes == old(frm.planes) && dev.driver == old(dev.driver)
    {
      hide GoodTrace, Device.Reliable, Scaler.SmoothFrom;
      if !frm.flags.changed {
        return true;
      }
      ok := ResetDevice(frm);
      if !ok {
        return false;
      }
      var n := dev.calls;
      ok := FrameIoctl(frm, SetFormat(frm.side, frm.format));
      if !ok {
        return false;
      }
      frm.planes := dev.planes(n);
      ok := FrameIoctl(frm, SetCrop(frm.side, frm.crop));
      if !ok {
        return false;
      }
      if frm.planes > MAX_PLANES {
        return false;
      }
      frm.flags := frm.flags.(changed := false);
    }

    method RequestFrame(frm: Frame) returns (ok: bool)
      requires Mine(frm) && Steady(frm) && GoodTrace(trace, dev.Reliable())
      modifies dev, frm`flags, this`trace
      ensures Steady(frm) && GoodTrace(trace, dev.Reliable())
      ensures dev.driver == old(dev.driver).With(frm.side, dev.driver.At(frm.side))
      ensures frm.flags == if ok then old(frm.flags).(reqbufs := true) else old(frm.flags)
      ensures Made(old(trace), if old(frm.flags.reqbufs) then [] else [RequestBuffers(frm.side, 1)])
      ensures old(frm.flags.reqbufs) ==> ok && dev.driver == old(dev.driver)
      ensures Onwards() && (dev.Reliable() && Smooth() ==> ok)
      ensures old(Free(frm)) ==> Free(frm)
    {
      hide GoodTrace, Device.Reliable, Scaler.SmoothFrom;
      if frm.flags.reqbufs {
        return true;
      }
      ok := FrameIoctl(frm, RequestBuffers(frm.side, 1));
      if ok {
        frm.flags := frm.flags.(reqbufs := true);
      }
    }

    method StreamFrame(frm: Frame) returns (ok: bool)
      requires Mine(frm) && Steady(frm) && GoodTrace(trace, dev.Reliable())
      modifies dev, frm`flags, this`trace
      ensures Steady(frm) && GoodTrace(trace, dev.Reliable())
      ensures dev.driver == old(dev.driver).With(frm.side, dev.driver.At(frm.side))
      ensures frm.flags == if ok then old(frm.flags).(streaming := true) else old(frm.flags)
      ensures Made(old(trace), if old(frm.flags).streaming || !old(frm.flags).reqbufs then [] else [StreamOn(frm.side)])
      ensures ok ==> frm.flags.reqbufs
      ensures old(frm.flags.streaming) ==> ok && dev.driver == old(dev.driver)
      ensures Onwards() && (Smooth() && old(frm.flags.reqbufs) ==> ok)
      ensures old(Free(frm)) ==> Free(frm)
    {
      hide GoodTrace, Device.Reliable, Scaler.SmoothFrom;
      if !frm.flags.reqbufs {
        return false;
      }
      if !frm.flags.streaming {
        ok := FrameIoctl(frm, StreamOn(frm.side));
        if !ok {
          return false;
        }
        frm.flags := frm.flags.(streaming := true);
      }
      return true;
    }

    method QueueFrame(frm: Frame) returns (ok: bool)
      requires Mine(frm) && Steady(frm) && GoodTrace(trace, dev.Reliable())
      modifies dev, frm`flags, this`trace
      ensures Steady(frm) && GoodTrace(trace, dev.Reliable())
      ensures dev.driver == old(dev.driver).With(frm.side, dev.driver.At(frm.side))
      ensures frm.flags == old(frm.flags).(qbuf := ok) && old(trace) <= trace
      ensures ok ==> frm.flags.reqbufs
      ensures !old(frm.flags.qbuf) && old(frm.flags.reqbufs) ==> Made(old(trace), [Queue(frm.side)])
      ensures Onwards() && (Smooth() && old(frm.flags.reqbufs && Free(frm)) ==> ok)
    {
      hide GoodTrace, Device.Reliable, Scaler.SmoothFrom;
      if !frm.flags.reqbufs {
        return false;
      }
      ok := DequeueFrame(frm);
      if !ok {
        return false;
      }
      ok := FrameIoctl(frm, Queue(frm.side));
      if ok {
        frm.flags := frm.flags.(qbuf := true);
      }
    }

    // ------------------------------------------------------------ both queues

    /** The whole session's state is as it was, but for the two queues. */
    twostate predicate QueuesOnly()
      reads this, dev, src, dst
    {
      && dev.driver.controls == old(dev.driver.controls) && old(trace) <= trace
    }

    /** No request was made, and no flag changed. */
    twostate predicate Untouched()
      reads this, dev, src, dst
    {
      && trace == old(trace) && dev.driver == old(dev.driver)
      && src.flags == old(src.flags) && dst.flags == old(dst.flags)
    }

    /** Formats and crops to be set are still to be set. */
    twostate predicate StillChanged()
      reads src, dst
    {
      src.flags.changed == old(src.flags).changed && dst.flags.changed == old(dst.flags).changed
    }

    /** The driver holds no buffer. */
    ghost predicate NoneQueued()
      reads dev
    {
      !dev.driver.output.queued && !dev.driver.capture.queued
    }

    method Stop() returns (ok: bool)
      requires Valid()
      modifies dev, src`flags, dst`flags, this`trace
      ensures Valid() && ok && QueuesOnly()
      ensures src.flags == Flags(old(src.flags).changed, false, false, false)
      ensures dst.flags == Flags(old(dst.flags).changed, false, false, false)
      ensures old(src.flags).Idle() && old(dst.flags).Idle() ==> trace == old(trace)
      ensures dev.Reliable() && old(src.flags.reqbufs && dst.flags.reqbufs) ==> NoneQueued()
      ensures Keeps()
    {
      hide GoodTrace, Device.Reliable, Scaler.SmoothFrom, Session.Applied;
      ok := ResetDevice(src);
      if !ok {
        return false;
      }
      ok := ResetDevice(dst);
      if !ok {
        return false;
      }
    }

    method SetFormats() returns (ok: bool)
      requires Valid()
      modifies dev, src`flags, src`planes, dst`flags, dst`planes, this`trace
      ensures Valid() && QueuesOnly()
      ensures ok ==> !src.flags.changed && !dst.flags.changed
      ensures ok && old(!src.flags.changed) ==> src.flags == old(src.flags)
      ensures ok && old(!dst.flags.changed) ==> dst.flags == old(dst.flags)
      ensures !old(src.flags.changed) && !old(dst.flags.changed) ==> ok && Untouched()
      ensures Keeps() && (dev.Reliable() && Smooth() ==> ok)
    {
      hide GoodTrace, Device.Reliable, Scaler.SmoothFrom, Session.Applied;
      ok := SetFrameFormat(src);
      if !ok {
        return false;
      }
      ok := SetFrameFormat(dst);
    }

    method ReqBufs() returns (ok: bool)
      requires Valid()
      modifies dev, src`flags, dst`flags, this`trace
      ensures Valid() && QueuesOnly()
      ensures ok ==> src.flags == old(src.flags).(reqbufs := true) && dst.flags == old(dst.flags).(reqbufs := true)
      ensures src.flags.changed == old(src.flags.changed) && dst.flags.changed == old(dst.flags.changed)
      ensures old(src.flags.reqbufs) && old(dst.flags.reqbufs) ==> ok && Untouched()
      ensures Keeps() && (dev.Reliable() && Smooth() ==> ok)
    {
      hide GoodTrace, Device.Reliable, Scaler.SmoothFrom, Session.Applied;
      ok := RequestFrame(src);
      if !ok {
        return false;
      }
      ok := RequestFrame(dst);
    }

    method StreamOnBoth() returns (ok: bool)
      requires Valid()
      modifies dev, src`flags, dst`flags, this`trace
      ensures Valid() && QueuesOnly()
      ensures ok ==> src.flags == old(src.flags).(streaming := true) && dst.flags == old(dst.flags).(streaming := true)
      ensures ok ==> src.flags.reqbufs && dst.flags.reqbufs
      ensures src.flags.changed == old(src.flags.changed) && dst.flags.changed == old(dst.flags.changed)
      ensures old(src.flags.streaming) && old(dst.flags.streaming) ==> ok && Untouched()
      ensures Keeps() && (Smooth() && old(src.flags.reqbufs && dst.flags.reqbufs) ==> ok)
    {
      hide GoodTrace, Device.Reliable, Scaler.SmoothFrom, Session.Applied;
      ok := StreamFrame(src);
      if !ok {
        return false;
      }
      ok := StreamFrame(dst);
    }

    /** The output buffer counts as not queued. */
    method ForgetBuffer()
      requires Mine(src) && Steady(src)
      modifies src`flags
      ensures Steady(src) && src.flags == old(src.flags).(qbuf := false)
    {
      src.flags := src.flags.(qbuf := false);
    }

    /** If the capture buffer cannot be queued, the output buffer counts as not queued, though the driver has it. */
    method QBuf() returns (ok: bool)
      requires Valid()
      modifies dev, src`flags, dst`flags, this`trace
      ensures Valid() && QueuesOnly()
      ensures ok ==> src.flags == old(src.flags).(qbuf := true) && dst.flags == old(dst.flags).(qbuf := true)
      ensures !ok ==> !src.flags.qbuf || src.flags == old(src.flags)
      ensures src.flags.changed == old(src.flags.changed) && dst.flags.changed == old(dst.flags.changed)
      ensures src.flags.reqbufs == old(src.flags.reqbufs) && dst.flags.reqbufs == old(dst.flags.reqbufs)
      ensures ok && old(!src.flags.qbuf && !dst.flags.qbuf) ==> Made(old(trace), [Queue(Output), Queue(Capture)])
      ensures Onwards() && (Smooth() && old(src.flags.reqbufs && dst.flags.reqbufs && Unstuck()) ==> ok)
    {
      hide GoodTrace, Device.Reliable, Scaler.SmoothFrom, Session.Applied, Grown, Flags.Describe, Flags.Exact, Frame.Applied;
      ok := QueueFrame(src);
      if !ok {
        return false;
      }
      ghost var mid := trace;
      ok := QueueFrame(dst);
      if !ok {
        ForgetBuffer();
        return false;
      }
      if old(!src.flags.qbuf && !dst.flags.qbuf) {
        GrownTwice(old(trace), mid, trace, [Queue(Output)], [Queue(Capture)]);
        assert [Queue(Output)] + [Queue(Capture)] == [Queue(Output), Queue(Capture)];
      }
    }

    ghost predicate LastDequeues()
      reads this`trace
    {
      trace != [] && trace[|trace| - 1].call.Dequeue?
    }

    method DQBuf() returns (ok: bool)
      requires Valid()
      modifies dev, src`flags, dst`flags, this`trace
      ensures Valid() && QueuesOnly()
      ensures ok ==> src.flags == old(src.flags).(qbuf := false) && dst.flags == old(dst.flags).(qbuf := false)
      ensures src.flags.changed == old(src.flags.changed) && dst.flags.changed == old(dst.flags.changed)
      ensures !ok ==> LastDequeues()
      ensures src.flags.reqbufs == old(src.flags.reqbufs) && dst.flags.reqbufs == old(dst.flags.reqbufs)
      ensures ok && old(src.flags.qbuf && dst.flags.qbuf) ==>
                Made(old(trace), [Dequeue(Output), Dequeue(Capture)])
                && NoneQueued()
      ensures Onwards() && (Smooth() && old(Unstuck()) ==> ok)
    {
      hide GoodTrace, Device.Reliable, Scaler.SmoothFrom, Session.Applied;
      ok := DequeueFrame(src);
      assert !ok ==> trace[|old(trace)|].call == Dequeue(Output);
      if !ok {
        return false;
      }
      ghost var mid := trace;
      ok := DequeueFrame(dst);
      assert !ok ==> trace[|mid|].call == Dequeue(Capture);
      if old(src.flags.qbuf && dst.flags.qbuf) {
        GrownTwice(old(trace), mid, trace, [Dequeue(Output)], [Dequeue(Capture)]);
        assert [Dequeue(Output)] + [Dequeue(Capture)] == [Dequeue(Output), Dequeue(Capture)];
      }
    }

    // ------------------------------------------------------------ controls

    ghost predicate Stopped()
      reads this`trace, dev, src, dst
    {
      && Mine(src) && Steady(src) && Steady(dst) && GoodTrace(trace, dev.Reliable())
      && src.flags.Idle() && dst.flags.Idle()
    }

    method SetControl(control: Control, value: int) returns (ok: bool)
      requires Stopped()
      modifies dev, this`trace
      ensures Stopped() && old(trace) <= trace
      ensures dev.driver.controls == if ok then old(dev.driver.controls)[control := value] else old(dev.driver.controls)
      ensures dev.driver == old(dev.driver).(controls := dev.driver.controls)
      ensures Keeps() && (Smooth() && control !in OPTIONAL ==> ok)
      ensures dev.calls == old(dev.calls) + 1 && ok == dev.fate(old(dev.calls), SetControls(map[control := value]))
    {
      hide GoodTrace, Device.Reliable, Scaler.SmoothFrom;
      assert control in map[control := value].Keys;
      ok := Ioctl(SetControls(map[control := value]));
    }

    lemma HaltedWhenIdle()
      requires Valid() && src.flags.Idle() && dst.flags.Idle()
      ensures Stopped() && session.Applied(dev.driver.controls, lost)
    {
    }

    lemma ResumedWhenApplied()
      requires Stopped() && session.Applied(dev.driver.controls, lost)
      ensures Valid()
    {
    }

    /** Of these controls those that are not lost now have the session's values. */
    twostate predicate Sent(sent: set<Control>)
      reads this`session, this`lost, dev
    {
      Sends(old(session), sent, old(dev.driver.controls), old(lost), dev.driver.controls, lost)
    }

    /** An equation and a rate that were to be set are lost if the driver refuses them, and not if it takes them. */
    twostate predicate LostAsAnswered()
      reads this`lost
    {
      LostFrom(old(dev.calls), old(session), lost)
    }

    ghost predicate LostFrom(n: nat, s: Session, lost: set<Control>) {
      && (s.cscFresh ==> (AnswersFrom(n, CscEq, true) ==> CscEq !in lost) && (AnswersFrom(n, CscEq, false) ==> CscEq in lost))
      && (s.rateFresh ==>
            (AnswersFrom(n, FrameRate, true) ==> FrameRate !in lost) && (AnswersFrom(n, FrameRate, false) ==> FrameRate in lost))
    }

    lemma LostLater(n: nat, m: nat, s: Session, t: Session, lost: set<Control>)
      requires n <= m && LostFrom(m, t, lost) && (s.cscFresh ==> t.cscFresh) && (s.rateFresh ==> t.rateFresh)
      ensures LostFrom(n, s, lost)
    {
      hide Scaler.AnswersFrom;
      AnswersLater(n, m, CscEq);
      AnswersLater(n, m, FrameRate);
    }

    /** The marks of what was sent have been cleared. */
    lemma Given(s: Session, sent: set<Control>, m: map<Control, int>, l: set<Control>)
      requires Stopped() && s.Applied(m, l) && Sends(s, sent, m, l, dev.driver.controls, lost)
      requires SameChoice(s, session) && s.Pending() <= session.Pending() + sent
      ensures Valid()
      ensures Denoise !in sent ==> Value(dev.driver.controls, Denoise) == Value(m, Denoise)
    {
      hide Session.Applied, Sends, Value, Session.Pending;
      SendsApplies(s, session, sent, m, l, dev.driver.controls, lost);
      if Denoise !in sent {
        SendsKeeps(s, sent, m, l, dev.driver.controls, lost, Denoise);
      }
      ResumedWhenApplied();
    }

    method SendProtection() returns (ok: bool)
      requires Stopped() && session.Applied(dev.driver.controls, lost) && session.drmFresh
      modifies this`session, this`lost, this`trace, dev
      ensures Valid() && old(trace) <= trace
      ensures session == if ok then old(session).(drmFresh := false) else old(session)
      ensures dev.driver == old(dev.driver).(controls := dev.driver.controls) && Keeps() && (Smooth() ==> ok)
      ensures ok ==> Sent({Protection})
      ensures Value(dev.driver.controls, Denoise) == old(Value(dev.driver.controls, Denoise))
    {
      hide Scaler.Stopped, Scaler.SmoothFrom, Scaler.AnswersFrom, Device.Reliable, Session.Applied, Session.Pending, Value, Sends;
      ghost var s, m, l := session, dev.driver.controls, lost;
      OneSent(s, m, l, Protection);
      ok := SetControl(Protection, Bit(session.drm));
      if !ok {
        ResumedWhenApplied();
        return false;
      }
      session := session.(drmFresh := false);
      lost := lost - {Protection};
      Unmarked(s);
      Given(s, {Protection}, m, l);
    }

    method SendRotation() returns (ok: bool)
      requires Stopped() && session.Applied(dev.driver.controls, lost) && session.rotationFresh
      modifies this`session, this`lost, this`trace, dev
      ensures Valid() && old(trace) <= trace
      ensures session == if ok then old(session).(rotationFresh := false) else old(session)
      ensures dev.driver == old(dev.driver).(controls := dev.driver.controls) && Keeps() && (Smooth() ==> ok)
      ensures ok ==> Sent({Rotate, VFlip, HFlip})
      ensures Value(dev.driver.controls, Denoise) == old(Value(dev.driver.controls, Denoise))
    {
      hide Scaler.Stopped, Scaler.SmoothFrom, Scaler.AnswersFrom, Device.Reliable, Session.Applied, Session.Pending, Value, Sends;
      hide Scaler.Valid, Scaler.Unstuck, GoodTrace, Session.Wanted;
      ghost var s, m, l := session, dev.driver.controls, lost;
      RotationSent(s, m, l);
      ok := SetTurn();
      if !ok {
        ResumedWhenApplied();
        return false;
      }
      session := session.(rotationFresh := false);
      lost := lost - {Rotate, VFlip, HFlip};
      Unmarked(s);
      Given(s, {Rotate, VFlip, HFlip}, m, l);
    }

    /** Rotation and flips, up to the first that is refused. */
    method SetTurn() returns (ok: bool)
      requires Stopped()
      modifies dev, this`trace
      ensures Stopped() && old(trace) <= trace && dev.driver == old(dev.driver).(controls := dev.driver.controls)
      ensures var m := old(dev.driver.controls);
              var a := m[Rotate := session.rotation];
              var b := a[VFlip := Bit(session.hFlip)];
              if ok then dev.driver.controls == b[HFlip := Bit(session.vFlip)] else dev.driver.controls in {m, a, b}
      ensures Keeps() && (Smooth() ==> ok)
    {
      hide Scaler.Stopped, Scaler.SmoothFrom, Device.Reliable, Scaler.Unstuck, GoodTrace;
      ok := SetControl(Rotate, session.rotation);
      if !ok {
        return false;
      }
      ok := SetControl(VFlip, Bit(session.hFlip));
      if !ok {
        return false;
      }
      ok := SetControl(HFlip, Bit(session.vFlip));
    }

    method SendDenoise() returns (ok: bool)
      requires Stopped() && session.Applied(dev.driver.controls, lost) && session.filter > 0
      modifies this`lost, this`trace, dev
      ensures Valid() && old(trace) <= trace
      ensures dev.driver == old(dev.driver).(controls := dev.driver.controls) && Keeps() && (Smooth() ==> ok)
      ensures ok ==> Sent({Denoise}) && Value(dev.driver.controls, Denoise) == session.filter
    {
      hide Scaler.Stopped, Scaler.SmoothFrom, Device.Reliable, Session.Applied, Session.Pending, Sends;
      ghost var m, l := dev.driver.controls, lost;
      OneSent(session, m, l, Denoise);
      ok := SetControl(Denoise, session.filter);
      if !ok {
        ResumedWhenApplied();
        return false;
      }
      lost := lost - {Denoise};
      SendsApplies(session, session, {Denoise}, m, l, dev.driver.controls, lost);
      ResumedWhenApplied();
    }

    /** The range has to be taken; an equation that is refused is lost. */
    method SendCsc() returns (ok: bool)
      requires Stopped() && session.Applied(dev.driver.controls, lost) && session.cscFresh
      modifies this`session, this`lost, this`trace, dev
      ensures Valid() && old(trace) <= trace
      ensures session == if ok then old(session).(cscFresh := false) else old(session)
      ensures dev.driver == old(dev.driver).(controls := dev.driver.controls) && Keeps() && (Smooth() ==> ok)
      ensures ok ==> Sent({CscRange, CscEq})
      ensures ok ==> (CscEq in lost <==> !dev.fate(old(dev.calls) + 1, SetControls(map[CscEq := session.colorspace])))
      ensures ok ==> (Answers(CscEq, true) ==> CscEq !in lost) && (Answers(CscEq, false) ==> CscEq in lost)
      ensures Value(dev.driver.controls, Denoise) == old(Value(dev.driver.controls, Denoise))
    {
      hide Scaler.Stopped, Scaler.SmoothFrom, Scaler.AnswersFrom, Device.Reliable, Session.Applied, Session.Pending, Value, Sends;
      ghost var s, m, l := session, dev.driver.controls, lost;
      CscSent(s, m, l);
      ok := SetControl(CscRange, Bit(session.cscWide));
      if !ok {
        ResumedWhenApplied();
        return false;
      }
      AnswerIs(old(dev.calls), dev.calls, CscEq, session.colorspace);
      var taken := SetControl(CscEq, session.colorspace);
      session := session.(cscFresh := false);
      lost := if taken then lost - {CscRange, CscEq} else lost - {CscRange} + {CscEq};
      Unmarked(s);
      Given(s, {CscRange, CscEq}, m, l);
      return true;
    }

    /** A rate that is refused is lost. */
    method SendRate() returns (ok: bool)
      requires Stopped() && session.Applied(dev.driver.controls, lost) && session.rateFresh
      modifies this`session, this`lost, this`trace, dev
      ensures Valid() && old(trace) <= trace
      ensures session == if ok then old(session).(rateFresh := false) else old(session)
      ensures dev.driver == old(dev.driver).(controls := dev.driver.controls) && Keeps() && (Smooth() ==> ok)
      ensures ok ==> Sent({FrameRate})
      ensures ok && (FrameRate in lost <==> !dev.fate(old(dev.calls), SetControls(map[FrameRate := session.frameRate])))
      ensures (Answers(FrameRate, true) ==> FrameRate !in lost) && (Answers(FrameRate, false) ==> FrameRate in lost)
      ensures Value(dev.driver.controls, Denoise) == old(Value(dev.driver.controls, Denoise))
    {
      hide Scaler.Stopped, Scaler.SmoothFrom, Scaler.AnswersFrom, Device.Reliable, Session.Applied, Session.Pending, Value, Sends;
      ghost var s, m, l := session, dev.driver.controls, lost;
      OneSent(s, m, l, FrameRate);
      OneLost(s, m, l, FrameRate);
      AnswerIs(old(dev.calls), dev.calls, FrameRate, session.frameRate);
      var taken := SetControl(FrameRate, session.frameRate);
      session := session.(rateFresh := false);
      lost := if taken then lost - {FrameRate} else lost + {FrameRate};
      Unmarked(s);
      Given(s, {FrameRate}, m, l);
      return true;
    }

    method SetProtection() returns (ok: bool)
      requires Valid()
      modifies this, dev, src`flags, dst`flags
      ensures Valid() && old(trace) <= trace && StillChanged()
      ensures session == if ok then old(session).(drmFresh := false) else old(session)
      ensures !old(session).drmFresh ==> ok && Untouched()
      ensures Keeps() && (Smooth() ==> ok)
      ensures ok ==> Sent(old(session).ProtectionSet())
      ensures Value(dev.driver.controls, Denoise) == old(Value(dev.driver.controls, Denoise))
    {
      hide Scaler.Valid, Scaler.Stopped, Scaler.Unstuck, Device.Reliable, Scaler.SmoothFrom, Scaler.AnswersFrom;
      hide Session.Applied, Value, Sends;
      if session.drmFresh {
        ok := Stop();
        if !ok {
          return false;
        }
        HaltedWhenIdle();
        ok := SendProtection();
      } else {
        SendsNothing(session, dev.driver.controls, lost);
        ok := true;
      }
    }

    method SetRotation() returns (ok: bool)
      requires Valid()
      modifies this, dev, src`flags, dst`flags
      ensures Valid() && old(trace) <= trace && StillChanged()
      ensures session == if ok then old(session).(rotationFresh := false) else old(session)
      ensures !old(session).rotationFresh ==> ok && Untouched()
      ensures Keeps() && (Smooth() ==> ok)
      ensures ok ==> Sent(old(session).RotationSet())
      ensures Value(dev.driver.controls, Denoise) == old(Value(dev.driver.controls, Denoise))
    {
      hide Scaler.Valid, Scaler.Stopped, Scaler.Unstuck, Device.Reliable, Scaler.SmoothFrom, Scaler.AnswersFrom;
      hide Session.Applied, Value, Sends;
      if session.rotationFresh {
        ok := Stop();
        if !ok {
          return false;
        }
        HaltedWhenIdle();
        ok := SendRotation();
      } else {
        SendsNothing(session, dev.driver.controls, lost);
        ok := true;
      }
    }

    /** The filter is set anew every time, but never switched off. */
    method SetDenoise() returns (ok: bool)
      requires Valid()
      modifies this, dev, src`flags, dst`flags
      ensures Valid() && old(trace) <= trace && StillChanged() && session == old(session)
      ensures session.filter == 0 ==> ok && Untouched()
      ensures Keeps() && (Smooth() ==> ok)
      ensures ok ==> Sent(session.FilterSet())
      ensures ok && session.filter > 0 ==> Value(dev.driver.controls, Denoise) == session.filter
    {
      hide Scaler.Valid, Scaler.Stopped, Scaler.Unstuck, Device.Reliable, Scaler.SmoothFrom, Session.Applied, Value, Sends;
      if session.filter > 0 {
        ok := Stop();
        if !ok {
          return false;
        }
        HaltedWhenIdle();
        ok := SendDenoise();
      } else {
        SendsNothing(session, dev.driver.controls, lost);
        ok := true;
      }
    }

    method SetCsc() returns (ok: bool)
      requires Valid()
      modifies this, dev, src`flags, dst`flags
      ensures Valid() && old(trace) <= trace && StillChanged()
      ensures session == if ok then old(session).(cscFresh := false) else old(session)
      ensures !old(session).cscFresh ==> ok && Untouched()
      ensures Keeps() && (Smooth() ==> ok)
      ensures ok ==> Sent(old(session).CscSet())
      ensures ok && old(session).cscFresh ==> (Answers(CscEq, true) ==> CscEq !in lost) && (Answers(CscEq, false) ==> CscEq in lost)
      ensures Value(dev.driver.controls, Denoise) == old(Value(dev.driver.controls, Denoise))
    {
      hide Scaler.Valid, Scaler.Stopped, Scaler.Unstuck, Device.Reliable, Scaler.SmoothFrom, Scaler.AnswersFrom;
      hide Session.Applied, Value, Sends;
      if session.cscFresh {
        ok := Stop();
        if !ok {
          return false;
        }
        HaltedWhenIdle();
        AnswersLater(old(dev.calls), dev.calls, CscEq);
        ok := SendCsc();
      } else {
        SendsNothing(session, dev.driver.controls, lost);
        ok := true;
      }
    }

    method SetRate() returns (ok: bool)
      requires Valid()
      modifies this, dev, src`flags, dst`flags
      ensures Valid() && old(trace) <= trace && StillChanged()
      ensures session == if ok then old(session).(rateFresh := false) else old(session)
      ensures !old(session).rateFresh ==> ok && Untouched()
      ensures Keeps() && (Smooth() ==> ok)
      ensures ok ==> Sent(old(session).RateSet())
      ensures ok
      ensures old(session).rateFresh ==> (Answers(FrameRate, true) ==> FrameRate !in lost) && (Answers(FrameRate, false) ==> FrameRate in lost)
      ensures Value(dev.driver.controls, Denoise) == old(Value(dev.driver.controls, Denoise))
    {
      hide Scaler.Valid, Scaler.Stopped, Scaler.Unstuck, Device.Reliable, Scaler.SmoothFrom, Scaler.AnswersFrom;
      hide Session.Applied, Value, Sends;
      if session.rateFresh {
        ok := Stop();
        if !ok {
          return false;
        }
        HaltedWhenIdle();
        AnswersLater(old(dev.calls), dev.calls, FrameRate);
        ok := SendRate();
      } else {
        SendsNothing(session, dev.driver.controls, lost);
        ok := true;
      }
    }

    /** Protection and rotation. */
    method SetFirst() returns (ok: bool)
      requires Valid()
      modifies this, dev, src`flags, dst`flags
      ensures Valid() && old(trace) <= trace && StillChanged() && SameChoice(old(session), session)
      ensures ok ==> session == old(session).(rotationFresh := false, drmFresh := false)
      ensures ok ==> Sent(old(session).ProtectionSet() + old(session).RotationSet())
      ensures Value(dev.driver.controls, Denoise) == old(Value(dev.driver.controls, Denoise))
      ensures !old(session).drmFresh && !old(session).rotationFresh ==> ok && session == old(session) && Untouched()
      ensures Keeps() && (Smooth() ==> ok)
    {
      hide Scaler.Valid, Scaler.SmoothFrom, Device.Reliable, Value, Sends, Session.Wanted, Session.Pending, Scaler.Unstuck, GoodTrace;
      hide Session.ProtectionSet, Session.RotationSet, Session.Settled;
      ghost var s, m, l := session, dev.driver.controls, lost;
      ok := SetProtection();
      if !ok {
        return false;
      }
      ghost var s1, m1, l1 := session, dev.driver.controls, lost;
      ok := SetRotation();
      if ok {
        FirstSent(s, m, l, s1, m1, l1, dev.driver.controls, lost);
      }
    }

    lemma FirstSent(s: Session, m: map<Control, int>, l: set<Control>, s1: Session, m1: map<Control, int>, l1: set<Control>,
                    m2: map<Control, int>, l2: set<Control>)
      requires s1 == s.(drmFresh := false)
      requires Sends(s, s.ProtectionSet(), m, l, m1, l1) && Sends(s1, s1.RotationSet(), m1, l1, m2, l2)
      ensures Sends(s, s.ProtectionSet() + s.RotationSet(), m, l, m2, l2)
    {
      hide Sends;
      SendsTwice(s, s.ProtectionSet(), s.RotationSet(), m, l, m1, l1, m2, l2, s1);
    }

    lemma LastSent(s: Session, m: map<Control, int>, l: set<Control>, s1: Session, m1: map<Control, int>, l1: set<Control>,
                   m2: map<Control, int>, l2: set<Control>)
      requires s1 == s.(cscFresh := false)
      requires Sends(s, s.CscSet(), m, l, m1, l1)
      requires Sends(s1, s1.RateSet(), m1, l1, m2, l2)
      ensures Sends(s, s.CscSet() + s.RateSet(), m, l, m2, l2)
      ensures CscEq in l2 <==> CscEq in l1
    {
      hide Sends;
      var a, b := s.CscSet(), s.RateSet();
      SendsTwice(s, a, b, m, l, m1, l1, m2, l2, s1);
      SendsKeeps(s1, b, m1, l1, m2, l2, CscEq);
    }

    /** Colour space and frame rate. */
    method SetLast() returns (ok: bool)
      requires Valid()
      modifies this, dev, src`flags, dst`flags
      ensures Valid() && old(trace) <= trace && StillChanged()
      ensures session == if ok then old(session).(cscFresh := false, rateFresh := false) else old(session)
      ensures ok ==> Sent(old(session).CscSet() + old(session).RateSet())
      ensures ok ==> LostAsAnswered()
      ensures Value(dev.driver.controls, Denoise) == old(Value(dev.driver.controls, Denoise))
      ensures !old(session).cscFresh && !old(session).rateFresh ==> ok && session == old(session) && Untouched()
      ensures Keeps() && (Smooth() ==> ok)
    {
      hide Scaler.Valid, Scaler.SmoothFrom, Device.Reliable, Value, Sends, Session.Wanted, Session.Pending, Scaler.Unstuck, GoodTrace;
      hide Scaler.AnswersFrom, Session.Settled, Scaler.Free, Session.CscSet, Session.RateSet;
      ghost var s, m, l := session, dev.driver.controls, lost;
      ok := SetCsc();
      if !ok {
        return false;
      }
      ghost var s1, m1, l1 := session, dev.driver.controls, lost;
      AnswersLater(old(dev.calls), dev.calls, FrameRate);
      ok := SetRate();
      LastSent(s, m, l, s1, m1, l1, dev.driver.controls, lost);
    }

    /**
     Gives the driver every control that changed, each time with both queues out of use. Of what was to be set
     only the equation and the rate may be lost, as the driver decides.
     */
    method SetCtrl() returns (ok: bool)
      requires Valid()
      modifies this, dev, src`flags, dst`flags
      ensures Valid() && old(trace) <= trace && StillChanged()
      ensures ok ==> session == old(session).(rotationFresh := false, drmFresh := false, cscFresh := false, rateFresh := false)
      ensures SameChoice(old(session), session)
      ensures ok ==> Sent(old(session).Pending())
      ensures ok ==> LostAsAnswered()
      ensures ok && session.filter > 0 ==> Value(dev.driver.controls, Denoise) == session.filter
      ensures session.filter == 0 ==> Value(dev.driver.controls, Denoise) == old(Value(dev.driver.controls, Denoise))
      ensures old(session).Settled() && old(session).filter == 0 ==> ok && session == old(session) && Untouched()
      ensures Keeps() && (Smooth() ==> ok)
    {
      hide Scaler.Valid, Scaler.SmoothFrom, Device.Reliable, Value, Sends, Session.Wanted, Scaler.Unstuck, GoodTrace;
      hide Scaler.LostFrom;
      hide Session.ProtectionSet, Session.RotationSet, Session.FilterSet, Session.CscSet, Session.RateSet, Session.Pending;
      ghost var s, m, l := session, dev.driver.controls, lost;
      ok := SetFirst();
      if !ok {
        return false;
      }
      ghost var s1, m1, l1 := session, dev.driver.controls, lost;
      ok := SetDenoise();
      if !ok {
        return false;
      }
      ghost var m2, l2, n := dev.driver.controls, lost, dev.calls;
      ok := SetLast();
      if ok {
        LostLater(old(dev.calls), n, s, s1, lost);
        AllSent(s, m, l, s1, m1, l1, m2, l2, dev.driver.controls, lost);
      }
    }

    /** All parts together. */
    lemma AllSent(s: Session, m: map<Control, int>, l: set<Control>, s1: Session, m1: map<Control, int>, l1: set<Control>,
                  m2: map<Control, int>, l2: set<Control>, m3: map<Control, int>, l3: set<Control>)
      requires s1 == s.(rotationFresh := false, drmFresh := false)
      requires Sends(s, s.ProtectionSet() + s.RotationSet(), m, l, m1, l1)
      requires Sends(s1, s1.FilterSet(), m1, l1, m2, l2)
      requires Sends(s1, s1.CscSet() + s1.RateSet(), m2, l2, m3, l3)
      ensures Sends(s, s.Pending(), m, l, m3, l3)
    {
      hide Sends;
      var a := s.ProtectionSet() + s.RotationSet();
      var b := s.FilterSet();
      var c := s.CscSet() + s.RateSet();
      SendsTwice(s, a, b, m, l, m1, l1, m2, l2, s1);
      SendsTwice(s, a + b, c, m, l, m2, l2, m3, l3, s1);
      assert s.Pending() == a + b + c;
    }

    // ------------------------------------------------------------ running

    predicate Hardware()
      reads this`session, src`crop, dst`crop
    {
      !UnderOne16thScaling(U32(src.crop.width), U32(src.crop.height), U32(dst.crop.width), U32(dst.crop.height), session.rotation)
    }

    /** The hardware reduces each side by 16 at most, compared with the side that it becomes; 16 times a side is 32 bits. */
    lemma HardwareIff()
      ensures
        var s, d, M := src.crop, dst.crop, 0x1_0000_0000;
        Hardware() <==>
          if session.rotation in {90, 270}
          then s.height % M <= 16 * d.width % M && s.width % M <= 16 * d.height % M
          else s.width % M <= 16 * d.width % M && s.height % M <= 16 * d.height % M
    {
      Sixteenfold(dst.crop.width);
      Sixteenfold(dst.crop.height);
    }

    /** For sides of a crop that do not wrap around. */
    lemma HardwareIffNear()
      requires 0 <= src.crop.width < 0x1_0000_0000 && 0 <= src.crop.height < 0x1_0000_0000
      requires 0 <= dst.crop.width < 0x1000_0000 && 0 <= dst.crop.height < 0x1000_0000
      ensures
        var s, d := src.crop, dst.crop;
        Hardware() <==>
          if session.rotation in {90, 270} then s.height <= 16 * d.width && s.width <= 16 * d.height
          else s.width <= 16 * d.width && s.height <= 16 * d.height
    {
      hide Scaler.Hardware;
      HardwareIff();
      NoWrap(src.crop.width);
      NoWrap(src.crop.height);
      NoWrap(16 * dst.crop.width);
      NoWrap(16 * dst.crop.height);
    }

    /** Nothing is left to be set, and both queues are ready for the next pair of buffers. */
    ghost predicate Ready()
      reads this, dev, src, dst
    {
      && session.Settled()
      && src.flags == dst.flags == Flags(false, true, false, true)
      && NoneQueued()
    }

    /**
     The software scaler takes over where no hardware can help. It neither converts nor rotates, knows six formats
     and refuses odd sizes; `mapped` says whether the buffers could be mapped.
     */
    method RunSoftware(mapped: bool) returns (ok: bool)
      requires SoftwareCan() && mapped ==> HasPixels()
      modifies src`planes, dst`planes
      ensures ok <==> SoftwareCan() && mapped
      ensures src.format.color == dst.format.color && session.rotation == 0 && src.format.color in PLANES ==>
                src.planes == dst.planes == PLANES[src.format.color]
    {
      if src.format.color != dst.format.color {
        return false;
      }
      if session.rotation != 0 {
        return false;
      }
      match src.format.color {
        case 0x5659_5559 | 0x5559_5659 =>
          src.planes := 1;
          dst.planes := 1;
          if !mapped {
            return false;
          }
          return EvenYuyv(src.Rectangle(), dst.Rectangle());
        case 0x3231_4D4E | 0x3132_4D4E =>
          src.planes := 2;
          dst.planes := 2;
        case 0x3231_564E | 0x3132_564E =>
          src.planes := 1;
          dst.planes := 1;
        case _ =>
          return false;
      }
      if !mapped {
        return false;
      }
      return src.Rectangle().Even() && dst.Rectangle().Even();
    }

    /** What the software scaler is able to convert. */
    predicate SoftwareCan()
      reads this`session, src`format, src`crop, dst`format, dst`crop
    {
      && src.format.color == dst.format.color && session.rotation == 0
      && if src.format.color in {YUYV, YVYU} then EvenYuyv(src.Rectangle(), dst.Rectangle())
         else src.format.color in PLANES && src.Rectangle().Even() && dst.Rectangle().Even()
    }

    /** The six formats by their codes, and the sides that have to be even for each. */
    lemma SoftwareCanIff()
      ensures
        var s, d, color := src, dst, src.format.color;
        SoftwareCan() <==>
          && color == d.format.color && session.rotation == 0
          && color in {0x5659_5559, 0x5559_5659, 0x3231_4D4E, 0x3132_4D4E, 0x3231_564E, 0x3132_564E}
          && s.crop.left % 2 == s.crop.width % 2 == s.format.width % 2 == d.crop.width % 2 == 0
          && (color in {0x5659_5559, 0x5559_5659} ||
              s.crop.top % 2 == s.crop.height % 2 == d.crop.left % 2 == d.crop.top % 2 == d.crop.height % 2 == d.format.width % 2 == 0)
    {
      hide U32;
      Parity(src.crop);
      Parity(dst.crop);
      EvenOf(src.format.width);
      EvenOf(dst.format.width);
    }

    /** The software scaler divides by both sides of its destination. */
    predicate HasPixels()
      reads dst`crop
    {
      U32(dst.crop.width) > 0 && U32(dst.crop.height) > 0
    }

    /** A run that nothing stops from dividing by zero. */
    predicate DividesByZero(mapped: bool)
      reads this`session, src`format, src`crop, dst`format, dst`crop
    {
      !Hardware() && SoftwareCan() && mapped && !HasPixels()
    }

    /** That is so for every pair of formats that the software scaler takes and a destination without pixels. */
    lemma DividesByZeroIff(mapped: bool)
      ensures
        var s, d := src.Rectangle(), dst.Rectangle();
        DividesByZero(mapped)
        <==> mapped && SoftwareCan()
             && ((d.width == 0 && (s.width > 0 || s.height > U32(d.height * 16)))
                 || (d.height == 0 && (s.height > 0 || s.width > U32(d.width * 16))))
    {
    }

    /** The driver has the value that the control is to have. */
    ghost predicate InDriver(c: Control)
      reads this`session, dev
    {
      Value(dev.driver.controls, c) == session.Wanted(c)
    }

    ghost predicate FilterRight()
      reads this`session, dev
    {
      InDriver(Denoise)
    }

    /**
     What was to be set has been given to the driver. A control has the value that was asked for if and only if
     it is not lost or had that value before; only an equation or a rate can get lost, and none does if the
     driver takes both.
     */
    twostate predicate SettingsGiven()
      reads this`session, this`lost, dev
    {
      && SameChoice(old(session), session) && Sent(old(session).Pending())
      && (forall c <- CONTROLS :: InDriver(c) <==> c !in lost || old(InDriver(c)))
      && LostAsAnswered()
      && (Answers(CscEq, true) && Answers(FrameRate, true) ==> lost == old(lost) - old(session).Pending())
    }

    /** The controls of the session are as they are after `SetCtrl`. */
    twostate lemma AllGiven()
      requires old(session.Applied(dev.driver.controls, lost)) && SameChoice(old(session), session) && session.Settled()
      requires Sent(old(session).Pending())
      requires LostAsAnswered()
      ensures SettingsGiven()
    {
      hide Value, Session.Applied, Sends, Scaler.AnswersFrom;
      forall c <- CONTROLS
        ensures InDriver(c) <==> c !in lost || old(InDriver(c))
      {
        HeldIffNotLost(old(session), session, old(dev.driver.controls), old(lost), dev.driver.controls, lost, c);
      }
      NoneLost(old(session), old(dev.driver.controls), old(lost), dev.driver.controls, lost);
    }

    /** One blocking conversion. When nothing has changed since the last one, just a pair of buffers goes round. */
    method Run(mapped: bool) returns (ok: bool)
      requires Valid() && !DividesByZero(mapped)
      modifies this, dev, src`flags, src`planes, dst`flags, dst`planes
      ensures Valid() && old(trace) <= trace && SameChoice(old(session), session)
      ensures ok && old(Hardware()) ==> Ready() && CurrentSettings() && SettingsGiven()
      ensures ok && old(Hardware() && Ready()) && session.filter == 0 ==> Made(old(trace), ROUND_TRIP)
      ensures ok && old(Hardware()) ==> (FilterRight() <==> session.filter > 0 || old(Value(dev.driver.controls, Denoise)) == 0)
      ensures ok && old(Hardware()) && session.filter == 0 ==>
                Value(dev.driver.controls, Denoise) == old(Value(dev.driver.controls, Denoise))
      ensures Onwards() && (old(Hardware() && Unstuck()) && dev.Reliable() && Smooth() ==> ok && Unstuck())
      ensures !old(Hardware()) ==>
                Untouched() && session == old(session) && lost == old(lost) && (ok <==> old(SoftwareCan()) && mapped)
    {
      hide Scaler.Valid, Scaler.SmoothFrom, Device.Reliable, Scaler.Ready, Scaler.CurrentSettings, UnderOne16thScaling, Value;
      hide Scaler.SettingsGiven, Scaler.InDriver;
      if UnderOne16thScaling(U32(src.crop.width), U32(src.crop.height), U32(dst.crop.width), U32(dst.crop.height),
                             session.rotation) {
        ok := RunSoftware(mapped);
      } else {
        ok := RunHardware();
      }
    }

    method RunHardware() returns (ok: bool)
      requires Valid()
      modifies this, dev, src`flags, src`planes, dst`flags, dst`planes
      ensures Valid() && old(trace) <= trace && SameChoice(old(session), session)
      ensures ok ==> Ready() && CurrentSettings() && SettingsGiven()
      ensures ok && old(Ready()) && session.filter == 0 ==> Made(old(trace), ROUND_TRIP)
      ensures ok ==> Value(dev.driver.controls, Denoise) ==
                       if session.filter > 0 then session.filter else old(Value(dev.driver.controls, Denoise))
      ensures ok ==> (FilterRight() <==> session.filter > 0 || old(Value(dev.driver.controls, Denoise)) == 0)
      ensures Onwards() && (dev.Reliable() && Smooth() && old(Unstuck()) ==> ok && Unstuck())
    {
      hide Scaler.Valid, Scaler.SmoothFrom, Device.Reliable, Value, Sends, Scaler.SettingsGiven, Scaler.AnswersFrom;
      hide Scaler.LostAsAnswered, Session.Pending, Session.Applied, GoodTrace;
      AppliedWhenValid();
      ok := SetCtrl();
      if !ok {
        return false;
      }
      ok := Prepare();
      if !ok {
        return false;
      }
      ok := Convert();
      if ok {
        AppliedWhenValid();
        AllGiven();
      }
    }

    method Convert() returns (ok: bool)
      requires Valid() && Prepared(src) && Prepared(dst)
      modifies dev, src`flags, dst`flags, this`trace
      ensures Valid() && QueuesOnly()
      ensures ok ==> src.flags == dst.flags == Flags(false, true, false, true)
      ensures ok ==> NoneQueued()
      ensures !ok ==> (src.flags.Idle() && dst.flags.Idle()) || LastDequeues()
      ensures !ok && dev.Reliable() && src.flags.Idle() && dst.flags.Idle() ==> NoneQueued()
      ensures ok && old(!src.flags.qbuf && !dst.flags.qbuf) ==> Made(old(trace), ROUND_TRIP)
      ensures Onwards() && (Smooth() && old(Unstuck()) ==> ok)
    {
      hide Scaler.Valid, Scaler.SmoothFrom, Device.Reliable, Grown;
      ok := QBuf();
      if !ok {
        var _ := Stop();
        return false;
      }
      ghost var queued := trace;
      ok := DQBuf();
      if ok && old(!src.flags.qbuf && !dst.flags.qbuf) {
        GrownTwice(old(trace), queued, trace, [Queue(Output), Queue(Capture)], [Dequeue(Output), Dequeue(Capture)]);
        assert [Queue(Output), Queue(Capture)] + [Dequeue(Output), Dequeue(Capture)] == ROUND_TRIP;
      }
    }

    /** The settings that conversions are made with are the ones last asked for, but for those that are lost. */
    ghost predicate CurrentSettings()
      reads this, dev, src, dst
    {
      && session.Applied(dev.driver.controls, lost)
      && dev.driver.output.format == src.format && dev.driver.output.crop == src.crop
      && dev.driver.capture.format == dst.format && dev.driver.capture.crop == dst.crop
      && (session.filter > 0 ==> Value(dev.driver.controls, Denoise) == session.filter)
    }

    lemma AppliedWhenValid()
      requires Valid()
      ensures session.Applied(dev.driver.controls, lost)
      ensures !src.flags.changed ==> dev.driver.output.format == src.format && dev.driver.output.crop == src.crop
      ensures !dst.flags.changed ==> dev.driver.capture.format == dst.format && dev.driver.capture.crop == dst.crop
    {
    }

    ghost predicate Prepared(frm: Frame)
      reads frm
    {
      frm.flags.reqbufs && frm.flags.streaming && !frm.flags.changed
    }

    /** Formats, buffers and streaming, in this order. */
    method Prepare() returns (ok: bool)
      requires Valid()
      modifies dev, src`flags, src`planes, dst`flags, dst`planes, this`trace
      ensures Valid() && QueuesOnly()
      ensures ok ==> Prepared(src) && Prepared(dst)
      ensures old(Ready()) ==> ok && Untouched()
      ensures Keeps() && (dev.Reliable() && Smooth() ==> ok)
    {
      hide Scaler.Valid, Scaler.SmoothFrom, Device.Reliable;
      ok := SetFormats();
      if !ok {
        return false;
      }
      ok := ReqBufs();
      if !ok {
        return false;
      }
      ok := StreamOnBoth();
    }

    /** `exynos_sc_run_exclusive`: leaves the buffers queued, to be waited for later. */
    method RunExclusive() returns (ok: bool)
      requires Valid()
      modifies this, dev, src`flags, src`planes, dst`flags, dst`planes
      ensures Valid() && old(trace) <= trace
      ensures ok ==> src.flags == dst.flags == Flags(false, true, true, true) && session.Settled()
      ensures ok ==> CurrentSettings() && SettingsGiven()
      ensures ok ==> (FilterRight() <==> session.filter > 0 || old(Value(dev.driver.controls, Denoise)) == 0)
      ensures Onwards() && (dev.Reliable() && Smooth() && old(Unstuck()) ==> ok && Unstuck())
    {
      hide Scaler.Valid, Scaler.SmoothFrom, Device.Reliable, Value, Sends, Scaler.SettingsGiven, Scaler.AnswersFrom;
      hide Scaler.LostAsAnswered, Session.Pending, Session.Applied, GoodTrace;
      AppliedWhenValid();
      ok := SetCtrl();
      if !ok {
        return false;
      }
      ok := QueueAhead();
      if ok {
        AppliedWhenValid();
        AllGiven();
      }
    }

    /** The buffers are queued before streaming starts. */
    method QueueAhead() returns (ok: bool)
      requires Valid()
      modifies dev, src`flags, src`planes, dst`flags, dst`planes, this`trace
      ensures Valid() && QueuesOnly()
      ensures ok ==> src.flags == dst.flags == Flags(false, true, true, true)
      ensures Onwards() && (dev.Reliable() && Smooth() && old(Unstuck()) ==> ok)
    {
      hide Scaler.Valid, Scaler.SmoothFrom, Device.Reliable, GoodTrace;
      ok := SetFormats();
      if !ok {
        return false;
      }
      ok := ReqBufs();
      if !ok {
        return false;
      }
      ok := QBuf();
      if !ok {
        return false;
      }
      ok := StreamOnBoth();
    }

    // ------------------------------------------------------------ settings

    method ChangeFormat(frm: Frame, format: Format)
      requires Valid() && (frm == src || frm == dst)
      modifies frm
      ensures Valid() && frm.format == format && frm.crop == old(frm.crop) && frm.flags == old(frm.flags).(changed := true)
    {
      frm.format := format;
      frm.flags := frm.flags.(changed := true);
    }

    method ChangeCrop(frm: Frame, crop: Crop)
      requires Valid() && (frm == src || frm == dst)
      modifies frm
      ensures Valid() && frm.crop == crop && frm.format == old(frm.format) && frm.flags == old(frm.flags).(changed := true)
    {
      frm.crop := crop;
      frm.flags := frm.flags.(changed := true);
    }

    /** Any multiple of 90 degrees is taken, also a negative one. */
    method SetRotate(rot: int, flipH: bool, flipV: bool) returns (ok: bool)
      requires Valid()
      modifies this`session
      ensures Valid() && ok == (rot % 90 == 0)
      ensures session == if ok then old(session).(rotation := rot % 360, vFlip := flipH, hFlip := flipV, rotationFresh := true)
                         else old(session)
    {
      hide Remainder, GoodTrace, Device.Reliable, Scaler.Steady, Session.Applied;
      Degrees(rot);
      if Remainder(rot, 90) != 0 {
        return false;
      }
      var degree := Remainder(rot, 360);
      if degree < 0 {
        degree := 360 + degree;
      }
      session := session.(rotation := degree, vFlip := flipH, hFlip := flipV, rotationFresh := true);
      Chosen(old(session), session, dev.driver.controls, lost, {Rotate, VFlip, HFlip});
      return true;
    }

    method SetDrm(drm: bool)
      requires Valid()
      modifies this`session
      ensures Valid()
      ensures session == if old(session).drm == drm then old(session) else old(session).(drm := drm, drmFresh := true)
    {
      hide GoodTrace, Device.Reliable, Scaler.Steady, Session.Applied;
      if drm != session.drm {
        session := session.(drm := drm, drmFresh := true);
        Chosen(old(session), session, dev.driver.controls, lost, {Protection});
      }
    }

    method SetCscWide(wide: bool)
      requires Valid()
      modifies this`session
      ensures Valid() && session == old(session).(cscWide := wide, cscFresh := true)
    {
      hide GoodTrace, Device.Reliable, Scaler.Steady, Session.Applied;
      session := session.(cscWide := wide, cscFresh := true);
      Chosen(old(session), session, dev.driver.controls, lost, {CscRange, CscEq});
    }

    method SetCscEq(colorspace: int)
      requires Valid()
      modifies this`session
      ensures Valid()
      ensures var c := if colorspace == V4L2_COLORSPACE_SMPTE170M then V4L2_COLORSPACE_DEFAULT else colorspace;
              session == old(session).(colorspace := c, cscFresh := true)
    {
      hide GoodTrace, Device.Reliable, Scaler.Steady, Session.Applied;
      var c := if colorspace == V4L2_COLORSPACE_SMPTE170M then V4L2_COLORSPACE_DEFAULT else colorspace;
      session := session.(colorspace := c, cscFresh := true);
      Chosen(old(session), session, dev.driver.controls, lost, {CscRange, CscEq});
    }

    /** A filter of 0 is not given to the driver. */
    method SetFilter(filter: nat)
      requires Valid()
      modifies this`session, this`lost
      ensures Valid() && session == old(session).(filter := filter)
      ensures lost == if filter == 0 then old(lost) + {Denoise} else old(lost)
    {
      hide GoodTrace, Device.Reliable, Scaler.Steady, Session.Applied;
      FilterChosen(session, filter, dev.driver.controls, lost);
      session := session.(filter := filter);
      lost := if filter == 0 then lost + {Denoise} else lost;
    }

    method ChangeRate(rate: int)
      requires Valid()
      modifies this`session
      ensures Valid() && session == old(session).(frameRate := rate, rateFresh := true)
    {
      hide GoodTrace, Device.Reliable, Scaler.Steady, Session.Applied;
      session := session.(frameRate := rate, rateFresh := true);
      Chosen(old(session), session, dev.driver.controls, lost, {FrameRate});
    }

    // ------------------------------------------------------------ any use

    /** The operation would divide by zero. */
    predicate Crashes(op: Operation)
      reads this`session, src`format, src`crop, dst`format, dst`crop
    {
      op.Run? && DividesByZero(op.mapped)
    }

    method Perform(op: Operation) returns (ok: bool)
      requires Valid() && !Crashes(op)
      modifies this, dev, src, dst
      ensures Valid() && old(trace) <= trace
    {
      hide Scaler.Valid, Scaler.SmoothFrom, Device.Reliable, Scaler.SettingsGiven, Sends;
      ok := true;
      match op
      case Run(mapped) => ok := Run(mapped);
      case RunExclusive => ok := RunExclusive();
      case Stop => ok := Stop();
      case SetCtrl => ok := SetCtrl();
      case SetFormats => ok := SetFormats();
      case ReqBufs => ok := ReqBufs();
      case StreamBoth => ok := StreamOnBoth();
      case QBuf => ok := QBuf();
      case DQBuf => ok := DQBuf();
      case Other(change) => ok := Change(change);
    }

    method Change(change: Setting) returns (ok: bool)
      requires Valid()
      modifies src, dst, this`session, this`lost
      ensures Valid() && (old(Unstuck()) ==> Unstuck())
    {
      hide GoodTrace, Scaler.Steady, Session.Applied;
      ok := true;
      match change
      case FrameFormat(side, format) => ChangeFormat(if side.Output? then src else dst, format);
      case FrameCrop(side, crop) => ChangeCrop(if side.Output? then src else dst, crop);
      case Rotation(rot, flipH, flipV) => ok := SetRotate(rot, flipH, flipV);
      case Drm(drm) => SetDrm(drm);
      case Wide(wide) => SetCscWide(wide);
      case Equation(colorspace) => SetCscEq(colorspace);
      case Filter(filter) => SetFilter(filter);
      case Rate(rate) => ChangeRate(rate);
    }

    /**
     With a driver that refuses nothing but optional controls, any settings may be changed between conversions: all
     those succeed that the hardware is able to do, or the software scaler instead of it, up to one that crashes.
     */
    method Serve(jobs: seq<seq<Setting>>) returns (done: nat, allDone: bool)
      requires Valid()
      modifies this, dev, src, dst
      ensures Valid() && Onwards() && done <= |jobs| && (done < |jobs| ==> DividesByZero(true))
      ensures dev.Reliable() && Smooth() && old(Unstuck()) ==> allDone && Unstuck()
    {
      hide Scaler.Valid, Scaler.SmoothFrom, Device.Reliable, UnderOne16thScaling, Scaler.SoftwareCan;
      hide Scaler.Ready, Scaler.CurrentSettings, Value, Scaler.SettingsGiven, Sends;
      allDone := true;
      for i := 0 to |jobs|
        invariant Valid() && Onwards()
        invariant dev.Reliable() && Smooth() && old(Unstuck()) ==> allDone && Unstuck()
      {
        ChangeAll(jobs[i]);
        if DividesByZero(true) {
          return i, allDone;
        }
        var possible := Possible();
        var ok := Run(true);
        allDone := allDone && (ok || !possible);
      }
      done := |jobs|;
    }

    method ChangeAll(changes: seq<Setting>)
      requires Valid()
      modifies src, dst, this`session, this`lost
      ensures Valid() && (old(Unstuck()) ==> Unstuck())
    {
      hide Scaler.Valid, Scaler.Unstuck;
      for i := 0 to |changes|
        invariant Valid() && (old(Unstuck()) ==> Unstuck())
      {
        var _ := Change(changes[i]);
      }
    }

    /** Either of the two can do the conversion, with buffers that can be mapped. */
    predicate Possible()
      reads this`session, src`format, src`crop, dst`format, dst`crop
    {
      Hardware() || SoftwareCan()
    }

    /**
     Whatever is called in whatever order, and whatever fails: no request is ever out of place. `done` counts the
     operations up to one that crashes.
     */
    method Use(ops: seq<Operation>) returns (done: nat)
      requires Valid()
      modifies this, dev, src, dst
      ensures Valid() && AllSafe(trace) && (dev.Reliable() ==> AllInOrder(trace))
      ensures done <= |ops| && (done < |ops| ==> Crashes(ops[done]))
      ensures (src.flags.qbuf || src.flags.streaming ==> src.flags.reqbufs) && (dst.flags.qbuf || dst.flags.streaming ==> dst.flags.reqbufs)
    {
      for i := 0 to |ops|
        invariant Valid()
      {
        if Crashes(ops[i]) {
          return i;
        }
        var _ := Perform(ops[i]);
      }
      done := |ops|;
    }
  }

  /** A new scaler for an image of 64 by 64 pixels, with a driver that takes all but perhaps the colour equation. */
  method Unhindered(equation: bool) returns (s: Scaler)
    ensures fresh(s) && fresh(s.dev) && fresh(s.src) && fresh(s.dst)
    ensures s.Valid() && s.Unstuck() && s.dev.Reliable() && s.SmoothFrom(s.dev.calls)
    ensures s.src.crop == s.dst.crop == Crop(0, 0, 64, 64) && s.session.rotation == 0 && s.Hardware() && !s.session.drm
    ensures s.AnswersFrom(s.dev.calls, CscEq, equation) && s.AnswersFrom(s.dev.calls, FrameRate, true)
    ensures Value(s.dev.driver.controls, CscEq) == 0
  {
    hide Scaler.Valid, Scaler.SmoothFrom, Device.Reliable, Scaler.AnswersFrom;
    var dev := new Device((_, c: Call) => equation || !(Optional(c) && CscEq in c.values), _ => false, _ => 1);
    s := new Scaler(dev, 0);
    AllButEquation(s, equation);
    s.ChangeCrop(s.src, Crop(0, 0, 64, 64));
    s.ChangeCrop(s.dst, Crop(0, 0, 64, 64));
  }

  lemma AllButEquation(s: Scaler, equation: bool)
    requires forall n, c: Call :: s.dev.fate(n, c) == (equation || !(Optional(c) && CscEq in c.values))
    requires forall n :: !s.dev.damaged(n) && s.dev.planes(n) == 1
    ensures s.dev.Reliable() && s.SmoothFrom(s.dev.calls)
    ensures s.AnswersFrom(s.dev.calls, CscEq, equation) && s.AnswersFrom(s.dev.calls, FrameRate, true)
  {
  }

  /** A scaler with all its settings chosen, for a driver without objections. */
  method ChoosesSettings() returns (s: Scaler)
    ensures fresh(s) && fresh(s.dev) && fresh(s.src) && fresh(s.dst)
    ensures s.Valid() && s.Unstuck() && s.dev.Reliable() && s.SmoothFrom(s.dev.calls) && s.Hardware()
    ensures s.AnswersFrom(s.dev.calls, CscEq, true) && s.AnswersFrom(s.dev.calls, FrameRate, true)
    ensures s.session == Session(true, 270, false, true, true, true, true, true, 3, true, 30, 2)
  {
    hide Scaler.Valid, Scaler.SmoothFrom, Device.Reliable, Scaler.AnswersFrom, Scaler.Unstuck, UnderOne16thScaling;
    s := Unhindered(true);
    s.SetDrm(true);
    var _ := s.SetRotate(-90, true, false);
    s.SetFilter(2);
    s.SetCscWide(true);
    s.SetCscEq(3);
    s.ChangeRate(30);
    s.HardwareIffNear();
  }

  /** All settings chosen at once, and the controls that a driver without objections has after one conversion. */
  method GivesSettings() returns (s: Scaler, ok: bool)
    ensures ok
    ensures var controls := s.dev.driver.controls;
            && Value(controls, Protection) == 1 && Value(controls, Rotate) == 270
            && Value(controls, HFlip) == 1 && Value(controls, VFlip) == 0 && Value(controls, Denoise) == 2
            && Value(controls, CscRange) == 1 && Value(controls, CscEq) == 3 && Value(controls, FrameRate) == 30
  {
    hide Scaler.Valid, Scaler.SmoothFrom, Device.Reliable, Scaler.CurrentSettings, Scaler.Unstuck;
    hide UnderOne16thScaling, Value, Scaler.AnswersFrom, Sends, Session.Pending;
    s := ChoosesSettings();
    ghost var t, m, l := s.session, s.dev.driver.controls, s.lost;
    ok := s.Run(true);
    ChosenIsGiven(t, m, l, s.dev.driver.controls, s.lost);
  }

  lemma ChosenIsGiven(t: Session, m: map<Control, int>, l: set<Control>, m': map<Control, int>, l': set<Control>)
    requires t == Session(true, 270, false, true, true, true, true, true, 3, true, 30, 2)
    requires Sends(t, t.Pending(), m, l, m', l') && CscEq !in l' && FrameRate !in l'
    ensures Value(m', Protection) == 1 && Value(m', Rotate) == 270 && Value(m', HFlip) == 1 && Value(m', VFlip) == 0
    ensures Value(m', Denoise) == 2 && Value(m', CscRange) == 1 && Value(m', CscEq) == 3 && Value(m', FrameRate) == 30
  {
    hide Value;
    assert t.Pending() == CONTROLS;
    NoneLost(t, m, l, m', l');
  }

  /** A filter that is switched off again stays on in the driver. */
  method LeavesFilter() returns (s: Scaler, first: bool, second: bool)
    ensures first && second && s.session.filter == 0 && Value(s.dev.driver.controls, Denoise) == 2
  {
    hide Scaler.Valid, Scaler.SmoothFrom, Device.Reliable, Scaler.CurrentSettings, Scaler.Ready, Scaler.Unstuck;
    hide UnderOne16thScaling, Value, Scaler.SettingsGiven, Scaler.AnswersFrom;
    s := Unhindered(true);
    s.SetFilter(2);
    first := s.Run(true);
    assert s.FilterRight();
    s.SetFilter(0);
    second := s.Run(true);
  }

  /** A colour equation that was refused is not set by the next run either, though both runs succeed. */
  method LosesEquation() returns (s: Scaler, first: bool, second: bool)
    ensures first && second && s.session.colorspace == 3 && Value(s.dev.driver.controls, CscEq) == 0
  {
    hide Scaler.Valid, Scaler.SmoothFrom, Device.Reliable, Scaler.CurrentSettings, Scaler.Unstuck;
    hide UnderOne16thScaling, Value, Scaler.AnswersFrom;
    s := Unhindered(false);
    s.SetCscEq(3);
    ghost var t, m, l := s.session, s.dev.driver.controls, s.lost;
    first := s.Run(true);
    SendsKeepsLost(t, m, l, s.dev.driver.controls, s.lost);
    t, m, l := s.session, s.dev.driver.controls, s.lost;
    second := s.Run(true);
    SendsKeeps(t, t.Pending(), m, l, s.dev.driver.controls, s.lost, CscEq);
  }

  lemma SendsKeepsLost(s: Session, m: map<Control, int>, l: set<Control>, m': map<Control, int>, l': set<Control>)
    requires Sends(s, s.Pending(), m, l, m', l') && CscEq in l'
    ensures Value(m', CscEq) == Value(m, CscEq)
  {
  }

  /** Settings that a new scaler may have: only the destination's crop has not been chosen. */
  method EmptyDestination(dev: Device) returns (s: Scaler)
    requires dev.driver == Driver(UNSET, UNSET, map[])
    ensures s.Valid() && s.dev == dev && s.DividesByZero(true)
  {
    hide Scaler.Valid;
    s := new Scaler(dev, 0);
    s.ChangeFormat(s.src, Format(YUYV, 64, 64));
    s.ChangeCrop(s.src, Crop(0, 0, 64, 64));
    s.ChangeFormat(s.dst, Format(YUYV, 64, 64));
  }

  datatype Setting =
    | FrameFormat(side: Side, format: Format) | FrameCrop(side: Side, crop: Crop)
    | Rotation(rot: int, flipH: bool, flipV: bool) | Drm(drm: bool) | Wide(wide: bool) | Equation(colorspace: int)
    | Filter(filter: nat) | Rate(rate: int)

  /** The public calls. */
  datatype Operation =
    | Run(mapped: bool) | RunExclusive | Stop | SetCtrl | SetFormats | ReqBufs | StreamBoth | QBuf | DQBuf
    | Other(change: Setting)
}
