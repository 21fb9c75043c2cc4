/** `CHWJpegV4L2Compressor`: the life cycle of the JPEG compressor's queues, its format and its controls. */
module HwJpegV4l2 {
  import opened Bytes
  import opened V4l2

  const JPEG := 0x4745_504A    // V4L2_PIX_FMT_JPEG
  const RGB24 := 0x3342_4752   // V4L2_PIX_FMT_RGB24

  datatype Flags = Flags(
    pixFmt: bool, qbufOut: bool, qbufCap: bool, reqbufs: bool, streaming: bool,
    src: bool, src2: bool, dst: bool, dst2: bool)
  {
    predicate Consistent() {
      (streaming ==> reqbufs) && qbufOut == qbufCap && (qbufOut ==> streaming)
    }

    /** Flags and driver agree on what is allocated and what is running. */
    predicate Exact(d: Driver) {
      && reqbufs == d.output.requested == d.capture.requested
      && streaming == d.output.streaming == d.capture.streaming
      && (qbufOut ==> d.output.queued && d.capture.queued)
    }

    predicate Stopped() {
      !streaming && !reqbufs && !qbufOut && !qbufCap
    }
  }

  /** One request, with the flags when it was made. */
  datatype Step = Step(call: Call, flags: Flags, before: Driver, ok: bool) {
    predicate Safe() {
      match call
      case SetFormat(_, _) => flags.Stopped()
      case RequestBuffers(_, count) => !flags.streaming && !flags.qbufOut && (count > 0 ==> !flags.reqbufs)
      case StreamOn(_) => flags.reqbufs && !flags.streaming
      case StreamOff(_) => flags.reqbufs
      case Queue(_) => flags.reqbufs && flags.streaming
      case Dequeue(_) => flags.qbufOut && flags.qbufCap
      case SetControls(_) => true
      case TryFormat(_) => true
      case SetCrop(_, _) => false
    }

    /** The driver has no reason to refuse, unless a buffer is still in its queue. */
    predicate InOrder() {
      before.Accepts(call) || (call.Queue? && before.At(call.side).queued)
    }
  }

  ghost predicate GoodTrace(trace: seq<Step>, reliable: bool) {
    forall i :: 0 <= i < |trace| ==> trace[i].Safe() && (reliable ==> trace[i].InOrder())
  }

  const CTRL_CHROMFACTOR := 0
  const CTRL_QFACTOR := 1
  const CTRL_QFACTOR2 := 2
  const CTRL_HWFC := 3
  const CTRL_PADDING := 4
  const CTRL_PADDING2 := 5
  const CTRL_NUM := 6

  type Index = n: nat | n < CTRL_NUM

  const ALL: set<Index> := {0, 1, 2, 3, 4, 5}

  function Id(idx: Index): Control {
    if idx == CTRL_CHROMFACTOR then ChromaSubsampling
    else if idx == CTRL_QFACTOR then Quality
    else if idx == CTRL_QFACTOR2 then Quality2
    else if idx == CTRL_PADDING then Padding
    else if idx == CTRL_PADDING2 then Padding2
    else Hwfc
  }

  /** The controls whose values have been chosen, by their place in the table; the fourth place is not used. */
  type Table = m: map<Index, int> | CTRL_HWFC !in m

  /** The driver has the chosen value; the HWFC switch is off until it is set. */
  ghost predicate HasValue(table: Table, hwfc: bool, controls: map<Control, int>, i: Index) {
    if i == CTRL_HWFC then (if Hwfc in controls then controls[Hwfc] else 0) == if hwfc then 1 else 0
    else i in table ==> Id(i) in controls && controls[Id(i)] == table[i]
  }

  /** The controls whose chosen values the driver has. */
  ghost function Held(table: Table, hwfc: bool, controls: map<Control, int>): set<Index> {
    set i: Index | HasValue(table, hwfc, controls, i)
  }

  /** The driver has all chosen values but those that are excepted. */
  ghost predicate InForce(table: Table, except: set<Index>, hwfc: bool, controls: map<Control, int>) {
    ALL <= except + Held(table, hwfc, controls)
  }

  /** What a request that sends all waiting values carries, without the HWFC switch. */
  ghost predicate Collected(table: Table, pending: set<Index>, ctrl: map<Control, int>) {
    && (forall i <- pending :: i in table && Id(i) in ctrl && ctrl[Id(i)] == table[i])
    && (forall c <- ctrl :: exists i <- pending :: Id(i) == c)
  }

  lemma DistinctIds(i: Index, j: Index)
    requires i != CTRL_HWFC && j != CTRL_HWFC
    ensures Id(i) == Id(j) <==> i == j
  {
  }

  /** What a request carries: the waiting values and, if it is switched, HWFC. */
  ghost function Sent(pending: set<Index>, switched: bool): set<Index> {
    pending + if switched then {CTRL_HWFC} else {}
  }

  /** What is sent is in force afterwards; what is not sent is in force exactly if it was before. */
  lemma SentHeld(table: Table, pending: set<Index>, was: bool, hwfc: bool, controls: map<Control, int>,
                 ctrl: map<Control, int>)
    requires Collected(table, pending, ctrl) && CTRL_HWFC !in pending
    ensures
      var all := if was == hwfc then ctrl else ctrl[Hwfc := if hwfc then 1 else 0];
      Held(table, hwfc, controls + all) == Sent(pending, was != hwfc) + Held(table, was, controls)
    ensures Held(table, was, controls) <= Held(table, hwfc, controls) + Sent(pending, was != hwfc)
  {
    hide HasValue;
    var all := if was == hwfc then ctrl else ctrl[Hwfc := if hwfc then 1 else 0];
    forall i: Index
      ensures HasValue(table, hwfc, controls + all, i)
              <==> i in Sent(pending, was != hwfc) || HasValue(table, was, controls, i)
      ensures i !in Sent(pending, was != hwfc) ==> (HasValue(table, hwfc, controls, i) <==> HasValue(table, was, controls, i))
    {
      SentInForce(table, pending, was, hwfc, controls, ctrl, i);
    }
  }

  lemma SentInForce(table: Table, pending: set<Index>, was: bool, hwfc: bool, controls: map<Control, int>,
                    ctrl: map<Control, int>, i: Index)
    requires Collected(table, pending, ctrl) && CTRL_HWFC !in pending
    ensures
      var all := if was == hwfc then ctrl else ctrl[Hwfc := if hwfc then 1 else 0];
      HasValue(table, hwfc, controls + all, i)
      <==> i in Sent(pending, was != hwfc) || HasValue(table, was, controls, i)
    ensures i !in Sent(pending, was != hwfc) ==> (HasValue(table, hwfc, controls, i) <==> HasValue(table, was, controls, i))
  {
    assert Hwfc !in ctrl;
    if i != CTRL_HWFC && i !in pending {
      assert Id(i) !in ctrl by {
        if Id(i) in ctrl {
          var j :| j in pending && Id(j) == Id(i);
          DistinctIds(i, j);
        }
      }
    }
  }

  /** A request that succeeds brings what it carries into force, and one that fails what it carries into oblivion. */
  lemma SentForces(table: Table, pending: set<Index>, forgotten: set<Index>, was: bool, hwfc: bool,
                   controls: map<Control, int>, ctrl: map<Control, int>)
    requires Collected(table, pending, ctrl) && pending <= table.Keys && InForce(table, pending + forgotten, was, controls)
    ensures
      var all := if was == hwfc then ctrl else ctrl[Hwfc := if hwfc then 1 else 0];
      var sent := Sent(pending, was != hwfc);
      && InForce(table, forgotten + sent, hwfc, controls) && InForce(table, forgotten - sent, hwfc, controls + all)
      && Held(table, hwfc, controls + all) == sent + Held(table, was, controls)
  {
    hide Held, Collected;
    SentHeld(table, pending, was, hwfc, controls, ctrl);
  }

  type Factor = n: nat | n < 0x10

  /** The driver's names of the chroma sampling factors: gray, 4:4:4, 4:2:2, 4:2:0 and 4:1:1. */
  const CHROMA_MODES: map<(Factor, Factor), int> := map[(0, 0) := 5, (1, 1) := 0, (2, 1) := 1, (2, 2) := 2, (4, 1) := 3]

  /** The low and the high half of a size hold the sides of the main and of the secondary image. */
  function ImageSize(main: nat, secondary: nat): u32
    requires main < 0x1_0000 && secondary < 0x1_0000
  {
    main + 0x1_0000 * secondary
  }

  class Compressor {
    const dev: Device
    const sizes: nat -> (nat, nat)   // stream sizes reported by the n-th request, if it dequeues
    const adjust: Format -> Format   // what the driver makes of an image format
    const planeSizes: Format -> seq<nat>  // the sizes of a format's planes, as the driver reports them
    const backToBack: bool           // the device compresses two images at once
    var flags: Flags
    var format: Format
    var table: Table
    var pending: set<Index>
    var hwfc: bool
    var streamSize: (nat, nat)
    ghost var forgotten: set<Index>  // carried by a request that failed, and not sent since
    ghost var trace: seq<Step>

    /** Flags and formats agree with the driver. */
    ghost predicate Queues()
      reads this`flags, this`format, dev
    {
      && flags.Consistent()
      && (dev.Reliable() ==> flags.Exact(dev.driver))
      && (!flags.pixFmt ==>
            dev.driver.output.format == format
            && dev.driver.capture.format == Format(JPEG, format.width, format.height))
    }

    /** The driver has all the controls that are neither waiting nor forgotten. */
    ghost predicate Controls()
      reads this`table, this`pending, this`hwfc, this`forgotten, dev
    {
      pending <= table.Keys && InForce(table, pending + forgotten, hwfc, dev.driver.controls)
    }

    /** The controls whose chosen values the driver has. */
    ghost function InDriver(): set<Index>
      reads this`table, this`hwfc, dev
    {
      Held(table, hwfc, dev.driver.controls)
    }

    ghost predicate Valid()
      reads this, dev
    {
      Queues() && Controls() && GoodTrace(trace, dev.Reliable())
    }

    constructor (dev: Device, sizes: nat -> (nat, nat), adjust: Format -> Format, planeSizes: Format -> seq<nat>,
                 backToBack: bool)
      requires dev.driver == Driver(UNSET, UNSET, map[])
      ensures Valid() && this.dev == dev && this.sizes == sizes && this.adjust == adjust && trace == []
      ensures this.planeSizes == planeSizes && this.backToBack == backToBack && format == Format(RGB24, 16, 16)
      ensures forgotten == {} && pending == {}
      ensures !hwfc && table == map[]
      ensures flags == Flags(true, false, false, false, false, false, false, false, false)
    {
      this.dev, this.sizes, this.adjust, this.planeSizes, this.backToBack := dev, sizes, adjust, planeSizes, backToBack;
      flags := Flags(true, false, false, false, false, false, false, false, false);
      format := Format(RGB24, ImageSize(16, 0), ImageSize(16, 0));
      table, pending, hwfc, streamSize := map[], {}, false, (0, 0);
      forgotten, trace := {}, [];
    }

    /** A driver that has been willing, or unwilling, from the start of the call still is. */
    twostate predicate Onwards()
      reads dev
    {
      && (dev.Willing(old(dev.calls), true) ==> dev.Willing(dev.calls, true))
      && (dev.Willing(old(dev.calls), false) ==> dev.Willing(dev.calls, false))
      && (dev.RefusesControls(old(dev.calls)) ==> dev.RefusesControls(dev.calls))
    }

    /** The driver has been willing from the start of the call, except perhaps to set controls. */
    twostate predicate Smooth()
      reads dev
    {
      dev.Willing(old(dev.calls), true) || dev.Willing(old(dev.calls), false)
    }

    method Ioctl(c: Call) returns (ok: bool)
      requires GoodTrace(trace, dev.Reliable())
      requires Step(c, flags, dev.driver, true).Safe()
      requires dev.Reliable() ==> Step(c, flags, dev.driver, true).InOrder()
      modifies dev, this`trace
      ensures GoodTrace(trace, dev.Reliable()) && trace == old(trace) + [Step(c, flags, old(dev.driver), ok)]
      ensures ok == (dev.fate(old(dev.calls), c) && old(dev.driver).Accepts(c)) && dev.calls == old(dev.calls) + 1
      ensures dev.Reliable() && c.Releases() ==> ok
      ensures Onwards()
      ensures forall b :: dev.Willing(old(dev.calls), b) && !(b && c.SetControls?) && old(dev.driver).Accepts(c) ==> ok
      ensures dev.driver == if ok then old(dev.driver).After(c) else old(dev.driver)
    {
      ghost var before := dev.driver;
      dev.StillWilling(dev.calls);
      ok := dev.Ioctl(c);
      trace := trace + [Step(c, flags, before, ok)];
    }

    ghost predicate EmptyQueues()
      reads dev
    {
      !dev.driver.output.queued && !dev.driver.capture.queued
    }

    /** All or nothing, as far as the driver lets go of what it has. */
    method RequestBoth(count: nat) returns (ok: bool)
      requires GoodTrace(trace, dev.Reliable()) && !flags.streaming && !flags.qbufOut && count <= 1
      requires count > 0 ==> !flags.reqbufs
      requires dev.Reliable() ==> !dev.driver.output.streaming && !dev.driver.capture.streaming
      modifies dev, this`trace
      ensures GoodTrace(trace, dev.Reliable())
      ensures ok ==> dev.driver == old(dev.driver).After(RequestBuffers(Output, count)).After(RequestBuffers(Capture, count))
      ensures !ok ==> dev.driver in {old(dev.driver), old(dev.driver).After(RequestBuffers(Output, count)),
                        old(dev.driver).After(RequestBuffers(Output, count)).After(RequestBuffers(Output, 0))}
      ensures !ok && dev.Reliable() ==>
                count > 0 && dev.driver in {old(dev.driver),
                  old(dev.driver).After(RequestBuffers(Output, count)).After(RequestBuffers(Output, 0))}
      ensures Onwards() && (dev.Reliable() && Smooth() ==> ok)
    {
      hide GoodTrace, Device.Reliable, Device.Willing, Device.RefusesControls;
      ok := Ioctl(RequestBuffers(Output, count));
      if !ok {
        return false;
      }
      ok := Ioctl(RequestBuffers(Capture, count));
      if !ok {
        var _ := Ioctl(RequestBuffers(Output, 0));
        return false;
      }
    }

    method ReqBufs(count: nat) returns (ok: bool)
      requires Valid() && count <= 1 && (count == 0 ==> !flags.streaming)
      modifies dev, this`flags, this`trace
      ensures Valid() && dev.driver.controls == old(dev.driver.controls)
      ensures flags == if ok then old(flags).(reqbufs := count > 0) else old(flags)
      ensures dev.Reliable() && count == 0 ==> ok
      ensures Onwards() && (dev.Reliable() && Smooth() ==> ok)
      ensures old(EmptyQueues()) ==> EmptyQueues()
      ensures (count > 0) == old(flags).reqbufs ==> ok && dev.driver == old(dev.driver) && trace == old(trace)
    {
      hide GoodTrace, Device.Reliable, Device.Willing, Device.RefusesControls, InForce;
      if (count > 0) == flags.reqbufs {
        return true;
      }
      ok := RequestBoth(count);
      if ok {
        flags := flags.(reqbufs := count > 0);
      }
    }

    /** Both or none, as far as the driver stops the first one again. */
    method StreamPair() returns (ok: bool)
      requires GoodTrace(trace, dev.Reliable()) && flags.reqbufs && !flags.streaming
      requires dev.Reliable() ==> flags.Exact(dev.driver)
      modifies dev, this`trace
      ensures GoodTrace(trace, dev.Reliable()) && Onwards()
      ensures ok ==> dev.driver == old(dev.driver).After(StreamOn(Output)).After(StreamOn(Capture))
      ensures !ok ==> dev.driver in {old(dev.driver), old(dev.driver).After(StreamOn(Output)),
                                     old(dev.driver).After(StreamOn(Output)).After(StreamOff(Output))}
      ensures !ok && dev.Reliable() ==>
                dev.driver in {old(dev.driver), old(dev.driver).After(StreamOn(Output)).After(StreamOff(Output))}
      ensures dev.Reliable() && Smooth() ==> ok
    {
      hide GoodTrace, Device.Reliable, Device.Willing, Device.RefusesControls;
      ok := Ioctl(StreamOn(Output));
      if !ok {
        return false;
      }
      ok := Ioctl(StreamOn(Capture));
      if !ok {
        var _ := Ioctl(StreamOff(Output));
        return false;
      }
    }

    method StreamOnBoth() returns (ok: bool)
      requires Valid()
      modifies dev, this`flags, this`trace
      ensures Valid() && dev.driver.controls == old(dev.driver.controls)
      ensures flags == if ok then old(flags).(streaming := true) else old(flags)
      ensures ok ==> flags.reqbufs
      ensures old(EmptyQueues()) ==> EmptyQueues()
      ensures Onwards()
      ensures dev.Reliable() && Smooth() && old(flags).reqbufs ==> ok
    {
      hide GoodTrace, Device.Reliable, Device.Willing, Device.RefusesControls, InForce;
      if flags.streaming {
        return true;
      }
      if !flags.reqbufs {
        return false;
      }
      ok := StreamPair();
      if ok {
        flags := flags.(streaming := true);
      }
    }

    /** A failure to stop is not reported: there would be nothing to do about it. */
    method StreamOffBoth() returns (ok: bool)
      requires GoodTrace(trace, dev.Reliable()) && flags.Consistent() && (dev.Reliable() ==> flags.Exact(dev.driver))
      modifies dev, this`flags, this`trace
      ensures GoodTrace(trace, dev.Reliable()) && ok && flags == old(flags).(streaming := false)
      ensures Onwards() && (old(EmptyQueues()) ==> EmptyQueues())
      ensures dev.Reliable() ==> flags.(qbufOut := false, qbufCap := false).Exact(dev.driver)
      ensures dev.driver.output.format == old(dev.driver.output.format)
      ensures dev.driver.capture.format == old(dev.driver.capture.format)
      ensures dev.driver.controls == old(dev.driver.controls)
      ensures dev.Reliable() && old(flags).streaming ==> EmptyQueues()
    {
      hide GoodTrace, Device.Reliable, Device.Willing, Device.RefusesControls;
      if !flags.streaming {
        return true;
      }
      var _ := Ioctl(StreamOff(Output));
      var _ := Ioctl(StreamOff(Capture));
      flags := flags.(streaming := false);
      return true;
    }

    /** Stopping takes back all queued buffers. */
    method Halt()
      requires Valid()
      modifies dev, this`flags, this`trace
      ensures Valid() && dev.driver.controls == old(dev.driver.controls)
      ensures flags == old(flags).(streaming := false, qbufOut := false, qbufCap := false)
      ensures dev.Reliable() && old(flags).streaming ==> EmptyQueues()
      ensures Onwards() && (old(EmptyQueues()) ==> EmptyQueues())
    {
      hide GoodTrace, Device.Reliable, Device.Willing, Device.RefusesControls, InForce;
      if flags.streaming {
        var ok := StreamOffBoth();
        if ok {
          flags := flags.(streaming := false);
        }
      }
      flags := flags.(qbufOut := false, qbufCap := false);
    }

    /** Takes both queues out of use. */
    method StopStreaming() returns (ok: bool)
      requires Valid()
      modifies dev, this`flags, this`trace
      ensures Valid() && dev.driver.controls == old(dev.driver.controls)
      ensures flags == old(flags).(streaming := false, qbufOut := false, qbufCap := false, reqbufs := flags.reqbufs)
      ensures ok ==> flags.Stopped()
      ensures dev.Reliable() ==> ok
      ensures dev.Reliable() && old(flags).streaming ==> EmptyQueues()
      ensures Onwards() && (old(EmptyQueues()) ==> EmptyQueues())
    {
      hide GoodTrace, Device.Reliable, Device.Willing, Device.RefusesControls, InForce;
      Halt();
      if flags.reqbufs {
        ok := ReqBufs(0);
        if !ok {
          return false;
        }
        flags := flags.(reqbufs := false);
      }
      return true;
    }

    /** The driver adjusts the image format, and the stream's format follows it. */
    method SetFormats() returns (ok: bool)
      requires Valid() && flags.Stopped() && flags.pixFmt
      modifies dev, this`format, this`flags, this`trace
      ensures Valid() && flags == old(flags).(pixFmt := !ok) && dev.driver.controls == old(dev.driver.controls)
      ensures format in {old(format), adjust(old(format))} && (ok ==> format == adjust(old(format)))
      ensures Onwards() && (old(EmptyQueues()) ==> EmptyQueues())
      ensures dev.Reliable() && Smooth() ==> ok
    {
      hide GoodTrace, Device.Reliable, Device.Willing, Device.RefusesControls, InForce;
      ok := Ioctl(SetFormat(Output, adjust(format)));
      if !ok {
        return false;
      }
      format := adjust(format);
      ok := Ioctl(SetFormat(Capture, Format(JPEG, format.width, format.height)));
      if !ok {
        return false;
      }
      flags := flags.(pixFmt := false);
    }

    // ------------------------------------------------------------ controls

    /** Empties the set of waiting controls. */
    method CollectControls() returns (ctrl: map<Control, int>)
      requires pending <= table.Keys
      modifies this`pending
      ensures pending == {} && Collected(table, old(pending), ctrl)
    {
      ctrl := map[];
      var idx: nat := 0;
      while pending != {}
        invariant idx <= CTRL_NUM && pending == set i <- old(pending) | i >= idx
        invariant forall i <- old(pending) :: i < idx ==> Id(i) in ctrl && ctrl[Id(i)] == table[i]
        invariant forall c <- ctrl :: exists i <- old(pending) :: i < idx && Id(i) == c
        decreases CTRL_NUM - idx
      {
        if idx in pending {
          ctrl := ctrl[Id(idx) := table[idx]];
          pending := pending - {idx};
        }
        idx := idx + 1;
      }
      assert forall i <- old(pending) :: i < idx by {
        assert forall i <- old(pending) :: i >= idx ==> i in pending;
      }
    }

    /** Sends what has been chosen since the last time; what a failing request carried is not sent again. */
    method UpdateControls(enable: bool) returns (ok: bool)
      requires Valid()
      modifies dev, this`pending, this`hwfc, this`forgotten, this`trace
      ensures Valid() && pending == {} && hwfc == enable && Onwards()
      ensures dev.driver.output == old(dev.driver.output) && dev.driver.capture == old(dev.driver.capture)
      ensures var sent := Sent(old(pending), old(hwfc) != enable);
              && forgotten == (if ok then old(forgotten) - sent else old(forgotten) + sent)
              && (ok ==> InDriver() == sent + old(InDriver()))
      ensures !ok ==> dev.driver == old(dev.driver)
      ensures old(EmptyQueues()) ==> EmptyQueues()
      ensures old(pending) == {} && old(hwfc) == enable ==> ok && trace == old(trace) && dev.driver == old(dev.driver)
      ensures dev.Willing(old(dev.calls), Sent(old(pending), old(hwfc) != enable) == {}) ==> ok
      ensures dev.RefusesControls(old(dev.calls)) ==> dev.driver == old(dev.driver)
    {
      hide GoodTrace, Device.Reliable, Device.Willing, Device.RefusesControls, Compressor.Queues, Collected, Held, InForce;
      if pending == {} && enable == hwfc {
        return true;
      }
      ghost var was, controls := hwfc, dev.driver.controls;
      ghost var sent := Sent(pending, hwfc != enable);
      var ctrl := CollectControls();
      SentForces(table, old(pending), forgotten, was, enable, controls, ctrl);
      if hwfc != enable {
        hwfc := enable;
        ctrl := ctrl[Hwfc := if hwfc then 1 else 0];
      }
      ok := SendControls(ctrl, sent);
    }

    /** One request for all; the controls it carries are forgotten if it fails. */
    method SendControls(ctrl: map<Control, int>, ghost sent: set<Index>) returns (ok: bool)
      requires Queues() && GoodTrace(trace, dev.Reliable()) && pending == {}
      requires InForce(table, forgotten + sent, hwfc, dev.driver.controls)
      requires InForce(table, forgotten - sent, hwfc, dev.driver.controls + ctrl)
      modifies dev, this`forgotten, this`trace
      ensures Valid() && Onwards()
      ensures dev.driver == if ok then old(dev.driver).After(SetControls(ctrl)) else old(dev.driver)
      ensures forgotten == if ok then old(forgotten) - sent else old(forgotten) + sent
      ensures dev.Willing(old(dev.calls), false) ==> ok
      ensures dev.RefusesControls(old(dev.calls)) ==> !ok
    {
      hide GoodTrace, Device.Reliable, Device.Willing, Flags.Consistent, Held;
      ok := Ioctl(SetControls(ctrl));
      forgotten := if ok then forgotten - sent else forgotten + sent;
    }

    // ------------------------------------------------------------ compression

    /** The two requests, of which the second is made only if the first succeeds. */
    method QueuePair() returns (first: bool, ok: bool)
      requires GoodTrace(trace, dev.Reliable()) && flags.reqbufs && flags.streaming
      requires dev.Reliable() ==> flags.Exact(dev.driver)
      modifies dev, this`trace
      ensures GoodTrace(trace, dev.Reliable()) && Onwards() && (ok ==> first)
      ensures !first ==> dev.driver == old(dev.driver)
      ensures first && !ok ==> dev.driver == old(dev.driver).After(Queue(Output))
      ensures ok ==> dev.driver == old(dev.driver).After(Queue(Output)).After(Queue(Capture))
      ensures dev.Reliable() && Smooth() && old(EmptyQueues()) ==> ok
    {
      hide GoodTrace, Device.Reliable, Device.Willing, Device.RefusesControls;
      first := Ioctl(Queue(Output));
      if !first {
        return false, false;
      }
      ok := Ioctl(Queue(Capture));
    }

    /** Queues both buffers or none: stopping is the only way to take back the first one. */
    method QBuf() returns (ok: bool)
      requires Valid() && flags.streaming
      modifies dev, this`flags, this`trace
      ensures Valid() && dev.driver.controls == old(dev.driver.controls)
      ensures ok ==> flags == old(flags).(qbufOut := true, qbufCap := true)
      ensures Onwards()
      ensures dev.Reliable() && Smooth() && old(EmptyQueues()) && old(flags).reqbufs ==> ok
      ensures !ok ==> flags == old(flags) || (!flags.qbufOut && !flags.qbufCap && !flags.streaming)
      ensures !ok && flags == old(flags) ==> dev.driver == old(dev.driver)
      ensures !ok && flags != old(flags) && dev.Reliable() ==> flags.Stopped() && EmptyQueues()
      ensures flags.pixFmt == old(flags).pixFmt && SameBuffers()
    {
      hide GoodTrace, Device.Reliable, Device.Willing, Device.RefusesControls, InForce;
      if !flags.reqbufs {
        return false;
      }
      var first;
      first, ok := QueuePair();
      if !first {
        return false;
      }
      if !ok {
        var _ := StopStreaming();
        return false;
      }
      flags := flags.(qbufOut := true, qbufCap := true);
    }

    method TakeBack(side: Side) returns (ok: bool, damaged: bool, n: nat)
      requires GoodTrace(trace, dev.Reliable()) && flags.qbufOut && flags.qbufCap
      requires dev.Reliable() ==> dev.driver.Accepts(Dequeue(side))
      modifies dev, this`trace
      ensures GoodTrace(trace, dev.Reliable())
      ensures n == old(dev.calls) && dev.calls == n + 1 && Onwards()
      ensures dev.Reliable() && Smooth() ==> ok && !damaged
      ensures dev.driver == if ok then old(dev.driver).After(Dequeue(side)) else old(dev.driver)
    {
      hide GoodTrace, Device.Reliable;
      n := dev.calls;
      ok := Ioctl(Dequeue(side));
      damaged := ok && dev.damaged(n);
    }

    /** Takes both buffers back, as far as they are queued; the flags are cleared whatever happens. */
    method TakeBoth() returns (ok: bool, damaged: bool, size: (nat, nat))
      requires Valid()
      modifies dev, this`flags, this`trace
      ensures Valid() && dev.driver.controls == old(dev.driver.controls)
      ensures flags == old(flags).(qbufOut := false, qbufCap := false)
      ensures Onwards() && (ok && old(flags).qbufOut ==> EmptyQueues() && size == sizes(old(dev.calls) + 1))
      ensures dev.Reliable() && Smooth() ==> ok && !damaged
      ensures !old(flags).qbufOut ==> ok && !damaged && size == (0, 0) && dev.driver == old(dev.driver) && trace == old(trace)
    {
      hide GoodTrace, Device.Reliable, Device.Willing, Device.RefusesControls, InForce;
      ok, damaged, size := true, false, (0, 0);
      if flags.qbufOut {
        var n;
        ok, damaged, n := TakeBack(Output);
      }
      if flags.qbufCap {
        var good, bad, n := TakeBack(Capture);
        ok, damaged, size := ok && good, damaged || bad, sizes(n);
      }
      flags := flags.(qbufOut := false, qbufCap := false);
    }

    method DQBuf() returns (r: int, secondary: nat)
      requires Valid()
      modifies dev, this`flags, this`streamSize, this`trace
      ensures Valid() && dev.driver.controls == old(dev.driver.controls)
      ensures flags == old(flags).(qbufOut := false, qbufCap := false)
      ensures -1 <= r && (r >= 0 ==> (r, secondary) == streamSize) && (r < 0 ==> streamSize == old(streamSize))
      ensures Onwards() && (r >= 0 && old(flags).qbufOut ==> EmptyQueues() && streamSize == sizes(old(dev.calls) + 1))
      ensures dev.Reliable() && Smooth() ==> r >= 0
      ensures !old(flags).qbufOut ==> r == 0 == secondary && dev.driver == old(dev.driver) && trace == old(trace)
    {
      hide GoodTrace, Device.Reliable, Device.Willing, Device.RefusesControls, InForce;
      var ok, damaged, size := TakeBoth();
      if !ok {
        return -1, 0;
      }
      if damaged {
        return -1, 0;
      }
      streamSize := size;
      return streamSize.0, streamSize.1;
    }

    /** A format with a secondary image of any size, even of one side only, is compressed back to back. */
    lemma IsB2BIff(width: nat, width2: nat, height: nat, height2: nat)
      requires width < 0x1_0000 && width2 < 0x1_0000 && height < 0x1_0000 && height2 < 0x1_0000
      requires format.width == width + 0x1_0000 * width2 && format.height == height + 0x1_0000 * height2
      ensures IsB2B() <==> width2 != 0 || height2 != 0
    {
    }

    predicate IsB2B()
      reads this`format
    {
      format.width / 0x1_0000 % 0x1_0000 + format.height / 0x1_0000 % 0x1_0000 != 0
    }

    /** The driver is set up for the image format and, unless some were lost, the controls last asked for. */
    ghost predicate Current(enableHwfc: bool)
      reads this, dev
    {
      && dev.driver.output.format == format
      && dev.driver.capture.format == Format(JPEG, format.width, format.height)
      && pending == {} && hwfc == enableHwfc
      && InForce(table, forgotten, enableHwfc, dev.driver.controls)
    }

    /** Exactly what is not forgotten, or was there anyway, is in the driver once all that waited has been sent. */
    lemma Remembered(was: set<Index>, had: set<Index>, sent: set<Index>)
      requires Valid() && pending == {} && forgotten == was - sent && InDriver() == sent + had
      ensures InDriver() == ALL - forgotten + had
    {
      hide Held, GoodTrace;
    }

    lemma CurrentWhenValid()
      requires Valid() && !flags.pixFmt && pending == {}
      ensures Current(hwfc)
    {
    }

    /** What the next compression sends to the driver. */
    ghost function Carried(enableHwfc: bool): set<Index>
      reads this`pending, this`hwfc
    {
      Sent(pending, hwfc != enableHwfc)
    }

    /** Sending takes what was sent off the forgotten ones or, if it fails, adds it to them. */
    ghost predicate Remembers(was: set<Index>, sent: set<Index>, ok: bool)
      reads this`forgotten
    {
      forgotten == was - sent || (!ok && (forgotten == was || forgotten == was + sent))
    }

    /** All buffers that a compression needs have been named. */
    predicate BuffersGiven()
      reads this`flags, this`format
    {
      flags.src && flags.dst && (IsB2B() ==> flags.src2 && flags.dst2)
    }

    /** The buffers named are the same as before. */
    twostate predicate SameBuffers()
      reads this`flags
    {
      && flags.src == old(flags).src && flags.dst == old(flags).dst
      && flags.src2 == old(flags).src2 && flags.dst2 == old(flags).dst2
    }

    /** Buffers requested and both queues running. */
    method Open() returns (ok: bool)
      requires Valid()
      modifies dev, this`flags, this`trace
      ensures Valid() && Onwards() && dev.driver.controls == old(dev.driver.controls)
      ensures flags == old(flags).(reqbufs := flags.reqbufs, streaming := flags.streaming)
      ensures ok ==> flags.reqbufs && flags.streaming
      ensures old(EmptyQueues()) ==> EmptyQueues()
      ensures dev.Reliable() && Smooth() ==> ok
    {
      hide Compressor.Valid, Compressor.EmptyQueues, Device.Willing, Device.RefusesControls, Device.Reliable;
      ok := ReqBufs(1);
      if !ok {
        return false;
      }
      ok := StreamOnBoth();
    }

    /** Makes sure that everything is in place and queues the buffers. */
    method Start(enableHwfc: bool) returns (ok: bool)
      requires Valid()
      modifies dev, this`flags, this`pending, this`hwfc, this`forgotten, this`trace
      ensures Valid() && SameBuffers()
      ensures flags.pixFmt == old(flags).pixFmt
      ensures ok ==> flags == old(flags).(reqbufs := true, streaming := true, qbufOut := true, qbufCap := true)
      ensures ok ==> pending == {} && hwfc == enableHwfc
      ensures !ok ==> !flags.qbufOut || flags.qbufOut == old(flags).qbufOut
      ensures Remembers(old(forgotten), old(Carried(enableHwfc)), ok)
      ensures ok ==> InDriver() == old(Carried(enableHwfc)) + old(InDriver())
      ensures Onwards()
      ensures dev.Reliable() && dev.Willing(old(dev.calls), old(Carried(enableHwfc)) == {}) && old(EmptyQueues()) ==> ok
      ensures !ok && dev.Reliable() && Smooth() && old(EmptyQueues()) ==>
                EmptyQueues() && pending == {} && hwfc == enableHwfc && forgotten == old(forgotten) + old(Carried(enableHwfc))
      ensures dev.RefusesControls(old(dev.calls)) ==> dev.driver.controls == old(dev.driver.controls)
    {
      hide Compressor.Valid, Compressor.EmptyQueues, Device.Willing, Device.RefusesControls, Device.Reliable, Held, Sent;
      hide InForce, GoodTrace;
      ok := Open();
      if !ok {
        return false;
      }
      ok := SendAndQueue(enableHwfc);
    }

    /** The controls are sent ahead of the buffers. */
    method SendAndQueue(enableHwfc: bool) returns (ok: bool)
      requires Valid() && flags.reqbufs && flags.streaming
      modifies dev, this`flags, this`pending, this`hwfc, this`forgotten, this`trace
      ensures Valid() && SameBuffers() && flags.pixFmt == old(flags).pixFmt
      ensures ok ==> flags == old(flags).(qbufOut := true, qbufCap := true)
      ensures !ok ==> !flags.qbufOut || flags.qbufOut == old(flags).qbufOut
      ensures pending == {} && hwfc == enableHwfc
      ensures var sent := old(Carried(enableHwfc));
              || (InDriver() == sent + old(InDriver()) && forgotten == old(forgotten) - sent)
              || (!ok && forgotten == old(forgotten) + sent)
      ensures Onwards()
      ensures dev.Reliable() && dev.Willing(old(dev.calls), old(Carried(enableHwfc)) == {}) && old(EmptyQueues()) ==> ok
      ensures !ok && dev.Reliable() && Smooth() && old(EmptyQueues()) ==>
                EmptyQueues() && forgotten == old(forgotten) + old(Carried(enableHwfc))
      ensures dev.RefusesControls(old(dev.calls)) ==> dev.driver.controls == old(dev.driver.controls)
    {
      hide Compressor.Valid, Compressor.EmptyQueues, Device.Willing, Device.RefusesControls, Device.Reliable, Held, Sent;
      hide InForce, GoodTrace;
      ok := UpdateControls(enableHwfc);
      if !ok {
        return false;
      }
      ok := QBuf();
    }

    /** A changed format is applied, with everything stopped and released. */
    method ApplyFormat() returns (ok: bool)
      requires Valid()
      modifies dev, this`format, this`flags, this`trace
      ensures Valid() && Onwards() && dev.driver.controls == old(dev.driver.controls)
      ensures format in {old(format), adjust(old(format))}
      ensures if old(flags).pixFmt then ok ==> format == adjust(old(format)) && flags.Stopped()
              else ok && format == old(format) && flags == old(flags) && dev.driver == old(dev.driver)
      ensures ok ==> !flags.pixFmt
      ensures !flags.qbufOut || flags.qbufOut == old(flags).qbufOut
      ensures SameBuffers()
      ensures old(EmptyQueues()) ==> EmptyQueues()
      ensures dev.Reliable() && Smooth() ==> ok
    {
      hide Compressor.Valid, Device.Willing, Device.RefusesControls, Compressor.EmptyQueues;
      if flags.pixFmt {
        ok := StopStreaming();
        if !ok {
          return false;
        }
        ok := SetFormats();
        return;
      }
      return true;
    }

    /** The format is applied and the buffers are there. */
    method Prepare() returns (ok: bool)
      requires Valid()
      modifies dev, this`format, this`flags, this`trace
      ensures Valid() && Onwards() && dev.driver.controls == old(dev.driver.controls) && SameBuffers()
      ensures format in {old(format), adjust(old(format))} && (!old(flags).pixFmt ==> format == old(format))
      ensures ok ==> BuffersGiven() && !flags.pixFmt && format == if old(flags).pixFmt then adjust(old(format)) else old(format)
      ensures !flags.qbufOut || flags.qbufOut == old(flags).qbufOut
      ensures old(EmptyQueues()) ==> EmptyQueues()
      ensures dev.Reliable() && Smooth() && BuffersGiven() ==> ok
    {
      hide Compressor.Valid, Device.Willing, Device.RefusesControls, Device.Reliable, Compressor.EmptyQueues;
      ok := ApplyFormat();
      if !ok {
        return false;
      }
      if !flags.src {
        return false;
      }
      if !flags.dst {
        return false;
      }
      if IsB2B() {
        if !(flags.src2 && flags.dst2) {
          return false;
        }
      }
    }

    /** -1 if it fails; without blocking, 0 and both buffers stay queued; otherwise the size of the stream. */
    method Compress(block: bool, enableHwfc: bool) returns (r: int, secondary: nat)
      requires Valid()
      modifies this, dev
      ensures Valid() && r >= -1 && table == old(table) && SameBuffers() && Onwards()
      ensures format in {old(format), adjust(old(format))} && (!old(flags).pixFmt ==> format == old(format))
      ensures r >= 0 ==> BuffersGiven() && !flags.pixFmt && format == if old(flags).pixFmt then adjust(old(format)) else old(format)
      ensures r >= 0 ==> flags.reqbufs && flags.streaming && flags.qbufOut == flags.qbufCap == !block
      ensures r >= 0 ==> Current(enableHwfc)
      ensures r >= 0 && block ==> EmptyQueues() && (r, secondary) == streamSize
      ensures r >= 0 && !block ==> r == 0
      ensures Remembers(old(forgotten), old(Carried(enableHwfc)), r >= 0)
      ensures r >= 0 ==> InDriver() == old(Carried(enableHwfc)) + old(InDriver())
      ensures r >= 0 ==> InDriver() == ALL - forgotten + old(InDriver())
      ensures r < 0 && dev.Reliable() && Smooth() && old(EmptyQueues()) && BuffersGiven() ==>
                EmptyQueues() && pending == {} && hwfc == enableHwfc && forgotten == old(forgotten) + old(Carried(enableHwfc))
      ensures dev.RefusesControls(old(dev.calls)) ==> dev.driver.controls == old(dev.driver.controls)
      ensures dev.Reliable() && dev.Willing(old(dev.calls), old(Carried(enableHwfc)) == {}) && old(EmptyQueues()) && BuffersGiven()
              ==> r >= 0
      ensures block && r < 0 ==> !flags.qbufOut || flags.qbufOut == old(flags).qbufOut
    {
      hide Compressor.Valid, Device.Willing, Device.RefusesControls, Device.Reliable, Held, Compressor.EmptyQueues, Sent;
      hide InForce, GoodTrace, Compressor.IsB2B;
      secondary := 0;
      var ok := Prepare();
      if !ok {
        return -1, 0;
      }
      ok := Start(enableHwfc);
      if !ok {
        return -1, 0;
      }
      if block {
        r, secondary := DQBuf();
      } else {
        r := 0;
      }
      CurrentWhenValid();
      if r >= 0 {
        Remembered(old(forgotten), old(InDriver()), old(Carried(enableHwfc)));
      }
    }

    method WaitForCompression() returns (r: int, secondary: nat)
      requires Valid()
      modifies dev, this`flags, this`streamSize, this`trace
      ensures Valid() && dev.driver.controls == old(dev.driver.controls)
      ensures flags == old(flags).(qbufOut := false, qbufCap := false)
      ensures -1 <= r && (r >= 0 ==> (r, secondary) == streamSize) && (r < 0 ==> streamSize == old(streamSize))
      ensures Onwards() && (r >= 0 && old(flags).qbufOut ==> EmptyQueues() && streamSize == sizes(old(dev.calls) + 1))
      ensures dev.Reliable() && Smooth() ==> r >= 0
      ensures !old(flags).qbufOut ==> r == 0 == secondary && dev.driver == old(dev.driver) && trace == old(trace)
    {
      r, secondary := DQBuf();
    }

    method Release()
      requires Valid()
      modifies dev, this`flags, this`trace
      ensures Valid() && !flags.streaming && !flags.qbufOut && !flags.qbufCap
      ensures dev.Reliable() ==> flags.Stopped()
    {
      var _ := StopStreaming();
    }

    // ------------------------------------------------------------ settings

    /** A value for a control, to be set with the next compression. */
    method Choose(idx: Index, value: int)
      requires Valid() && idx != CTRL_HWFC
      modifies this`table, this`pending
      ensures Valid() && table == old(table)[idx := value] && pending == old(pending) + {idx}
    {
      hide GoodTrace, Device.Reliable, Device.Willing, Device.RefusesControls;
      ghost var was := table;
      table := table[idx := value];
      pending := pending + {idx};
      assert Held(was, hwfc, dev.driver.controls) <= {idx} + Held(table, hwfc, dev.driver.controls) by {
        assert forall i: Index :: i != idx ==> HasValue(was, hwfc, dev.driver.controls, i) == HasValue(table, hwfc, dev.driver.controls, i);
      }
    }

    method SetChromaSampFactor(horizontal: Factor, vertical: Factor) returns (ok: bool)
      requires Valid()
      modifies this`table, this`pending
      ensures Valid() && ok == ((horizontal, vertical) in CHROMA_MODES)
      ensures ok ==> pending == old(pending) + {CTRL_CHROMFACTOR}
                     && table == old(table)[CTRL_CHROMFACTOR := CHROMA_MODES[(horizontal, vertical)]]
      ensures ok <==> (horizontal, vertical) in {(0, 0), (1, 1), (2, 1), (2, 2), (4, 1)}
      ensures !ok ==> table == old(table) && pending == old(pending)
    {
      hide Compressor.Valid;
      var value;
      match 0x10 * horizontal + vertical {
        case 0x00 => value := 5;
        case 0x11 => value := 0;
        case 0x21 => value := 1;
        case 0x22 => value := 2;
        case 0x41 => value := 3;
        case _ => return false;
      }
      Choose(CTRL_CHROMFACTOR, value);
      return true;
    }

    /** 0 leaves a quality factor as it is. */
    method SetQuality(quality: nat, quality2: nat) returns (ok: bool)
      requires Valid()
      modifies this`table, this`pending
      ensures Valid() && ok == (quality <= 100 && quality2 <= 100)
      ensures ok && quality > 0 ==> CTRL_QFACTOR in pending && CTRL_QFACTOR in table && table[CTRL_QFACTOR] == quality
      ensures ok && quality2 > 0 ==> CTRL_QFACTOR2 in pending && CTRL_QFACTOR2 in table && table[CTRL_QFACTOR2] == quality2
      ensures !ok || (quality == 0 && quality2 == 0) ==> table == old(table) && pending == old(pending)
      ensures old(pending) <= pending
      ensures forall i :: i !in {CTRL_QFACTOR, CTRL_QFACTOR2} ==>
                (i in table <==> i in old(table)) && (i in table ==> table[i] == old(table)[i])
    {
      hide Compressor.Valid;
      if quality > 100 {
        return false;
      }
      if quality2 > 100 {
        return false;
      }
      if quality > 0 {
        Choose(CTRL_QFACTOR, quality);
      }
      if quality2 > 0 {
        Choose(CTRL_QFACTOR2, quality2);
      }
      return true;
    }

    /**
     A format other than the present one is applied with the next compression. The driver adjusts it already
     when it is asked about it, so the same format may count as another one the next time.
     */
    method SetImageFormat(color: int, width: Side16, height: Side16, width2: Side16, height2: Side16) returns (ok: bool)
      requires Valid()
      modifies dev, this`format, this`flags, this`trace
      ensures Valid()
      ensures var next := Format(color, width + 0x1_0000 * width2, height + 0x1_0000 * height2);
              if next == old(format) then ok && format == old(format) && flags == old(flags) && trace == old(trace)
              else format == (if ok then adjust(next) else next) && flags == old(flags).(pixFmt := true)
                   && ok == dev.fate(old(dev.calls), TryFormat(next)) && dev.calls == old(dev.calls) + 1
      ensures dev.driver == old(dev.driver)
    {
      hide GoodTrace, Device.Reliable, Device.Willing, Device.RefusesControls, InForce;
      var next := Format(color, ImageSize(width, width2), ImageSize(height, height2));
      if format == next {
        return true;
      }
      format := next;
      flags := flags.(pixFmt := true);
      ok := Ioctl(TryFormat(format));
      if ok {
        format := adjust(format);
      }
    }

    /** Each plane of the image needs a buffer that is large enough; further ones are not looked at. */
    ghost predicate Sufficient(lens: seq<nat>)
      reads this`format
    {
      var sizes := planeSizes(format);
      |sizes| <= |lens| && forall i :: 0 <= i < |sizes| ==> sizes[i] <= lens[i]
    }

    /** Names the buffers of the main image. */
    method SetImageBuffer(lens: seq<nat>) returns (ok: bool)
      requires Valid()
      modifies this`flags
      ensures Valid() && ok == Sufficient(lens)
      ensures flags == if ok then old(flags).(src := true) else old(flags)
    {
      hide GoodTrace, InForce;
      var sizes := planeSizes(format);
      if |lens| < |sizes| {
        return false;
      }
      for i := 0 to |sizes|
        invariant forall k :: 0 <= k < i ==> sizes[k] <= lens[k]
      {
        if lens[i] < sizes[i] {
          return false;
        }
      }
      flags := flags.(src := true);
      return true;
    }

    /** Names the buffers of the secondary image, whose sizes are not checked. */
    method SetImageBuffer2(lens: seq<nat>) returns (ok: bool)
      requires Valid()
      modifies this`flags
      ensures Valid() && ok == (backToBack && |planeSizes(format)| <= |lens|)
      ensures flags == if ok then old(flags).(src2 := true) else old(flags)
    {
      hide GoodTrace, InForce;
      if !backToBack {
        return false;
      }
      if |lens| < |planeSizes(format)| {
        return false;
      }
      flags := flags.(src2 := true);
      return true;
    }

    /** Names the buffer of the main or of the secondary stream. */
    method SetJpegBuffer(secondary: bool) returns (ok: bool)
      requires Valid()
      modifies this`flags
      ensures Valid() && ok == (secondary ==> backToBack)
      ensures flags == if !ok then old(flags) else if secondary then old(flags).(dst2 := true) else old(flags).(dst := true)
    {
      hide GoodTrace, InForce;
      if secondary {
        if !backToBack {
          return false;
        }
        flags := flags.(dst2 := true);
      } else {
        flags := flags.(dst := true);
      }
      return true;
    }

    // ------------------------------------------------------------ any use

    method Perform(op: Operation)
      requires Valid()
      modifies this, dev
      ensures Valid()
    {
      hide Compressor.Valid;
      match op
      case Compress(block, hwfc) => var _, _ := Compress(block, hwfc);
      case Wait => var _, _ := WaitForCompression();
      case Release => Release();
      case ChromaFactor(h, v) => var _ := SetChromaSampFactor(h, v);
      case QualityFactor(q, q2) => var _ := SetQuality(q, q2);
      case PaddingBytes(second, value) => Choose(if second then CTRL_PADDING2 else CTRL_PADDING, value);
      case ImageFormat(color, w, h, w2, h2) => var _ := SetImageFormat(color, w, h, w2, h2);
      case ImageBuffer(lens) => var _ := SetImageBuffer(lens);
      case ImageBuffer2(lens) => var _ := SetImageBuffer2(lens);
      case JpegBuffer(secondary) => var _ := SetJpegBuffer(secondary);
    }

    /** Whatever is called in whatever order, and whatever fails: no request is ever out of place. */
    method Use(ops: seq<Operation>)
      requires Valid()
      modifies this, dev
      ensures Valid() && flags.Consistent() && GoodTrace(trace, dev.Reliable())
    {
      hide GoodTrace, Device.Reliable, Device.Willing, Device.RefusesControls;
      for i := 0 to |ops|
        invariant Valid()
      {
        Perform(ops[i]);
      }
    }
  }

  /** Everything that a compression at quality 50 needs, on a driver that refuses to set controls. */
  method Refused() returns (c: Compressor)
    ensures fresh(c) && fresh(c.dev) && c.Valid() && c.BuffersGiven() && c.EmptyQueues() && !c.IsB2B() && c.adjust(c.format) == c.format
    ensures c.dev.Reliable() && c.dev.RefusesControls(c.dev.calls) && c.dev.Willing(c.dev.calls, true)
    ensures CTRL_QFACTOR in c.table && c.table[CTRL_QFACTOR] == 50 && CTRL_QFACTOR in c.pending && c.dev.driver.controls == map[]
  {
    hide Compressor.Valid, Device.RefusesControls, Device.Willing, Device.Reliable;
    var dev := new Device((_, call: Call) => !call.SetControls?, _ => false, _ => 1);
    AllButControls(dev);
    c := new Compressor(dev, _ => (0, 0), f => f, _ => [], false);
    var ok := c.SetQuality(50, 0);
    ok := c.SetImageBuffer([]);
    ok := c.SetJpegBuffer(false);
  }

  lemma AllButControls(dev: Device)
    requires forall n, c: Call :: dev.fate(n, c) <==> !c.SetControls?
    requires forall n :: !dev.damaged(n)
    ensures dev.Reliable() && dev.RefusesControls(0) && dev.Willing(0, true)
  {
  }

  /** The first compression fails over the controls; the second succeeds, but not at the quality chosen. */
  method LosesQuality() returns (c: Compressor, first: int, second: int)
    ensures c.Valid() && first < 0 <= second
    ensures CTRL_QFACTOR in c.table && c.table[CTRL_QFACTOR] == 50 && Quality !in c.dev.driver.controls
  {
    hide Compressor.Valid, Device.RefusesControls, Device.Willing, Device.Reliable, Compressor.EmptyQueues, Compressor.IsB2B;
    c := Refused();
    ghost var sent := c.Carried(false);
    assert CTRL_QFACTOR in sent;
    var s;
    first, s := c.Compress(true, false);
    second, s := c.Compress(true, false);
  }

  /** A compressor with controls chosen, on a driver without objections. */
  method ChoosesControls() returns (c: Compressor)
    ensures fresh(c) && fresh(c.dev) && c.Valid() && c.BuffersGiven() && c.EmptyQueues() && !c.IsB2B() && c.adjust(c.format) == c.format
    ensures c.dev.Reliable() && c.dev.Willing(c.dev.calls, false)
    ensures !c.hwfc && c.table.Keys >= {0, 1, 2} && c.table[0] == 1 && c.table[1] == 80 && c.table[2] == 60 && {0, 1, 2} <= c.pending
  {
    hide Compressor.Valid, Device.Willing, Device.Reliable;
    var dev := new Device((_, _) => true, _ => false, _ => 1);
    NoObjections(dev);
    c := new Compressor(dev, _ => (0, 0), f => f, _ => [], false);
    var ok := c.SetChromaSampFactor(2, 1);
    ok := c.SetQuality(80, 60);
    ok := c.SetImageBuffer([]);
    ok := c.SetJpegBuffer(false);
  }

  lemma NoObjections(dev: Device)
    requires forall n, c: Call :: dev.fate(n, c)
    requires forall n :: !dev.damaged(n)
    ensures dev.Reliable() && dev.Willing(0, false)
  {
  }

  /** The sampling of 4:2:2, qualities and the HWFC switch, as a driver without objections has them after one compression. */
  method GivesControls() returns (c: Compressor, size: int)
    ensures size >= 0
    ensures var controls := c.dev.driver.controls;
            && {ChromaSubsampling, Quality, Quality2, Hwfc} <= controls.Keys
            && controls[ChromaSubsampling] == 1 && controls[Quality] == 80 && controls[Quality2] == 60 && controls[Hwfc] == 1
    ensures c.dev.driver.capture.format.color == 0x4745_504A  // JPEG
  {
    hide Compressor.Valid, Device.Willing, Device.Reliable, Compressor.EmptyQueues, Compressor.IsB2B;
    c := ChoosesControls();
    assert CTRL_HWFC in c.Carried(true);
    var s;
    size, s := c.Compress(true, true);
  }

  type Side16 = n: nat | n < 0x1_0000

  /** The public calls. */
  datatype Operation =
    | Compress(block: bool, hwfc: bool) | Wait | Release
    | ChromaFactor(horizontal: Factor, vertical: Factor) | QualityFactor(q: nat, q2: nat) | PaddingBytes(second: bool, value: int)
    | ImageFormat(color: int, width: Side16, height: Side16, width2: Side16, height2: Side16)
    | ImageBuffer(lens: seq<nat>) | ImageBuffer2(lens: seq<nat>) | JpegBuffer(secondary: bool)
}
