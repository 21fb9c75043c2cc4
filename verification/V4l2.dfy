/** The memory-to-memory device behind the V4L2 users: two buffer queues whose requests may fail. */
module V4l2 {

  datatype Side = Output | Capture

  datatype Format = Format(color: int, width: int, height: int)
  datatype Crop = Crop(left: int, top: int, width: int, height: int)

  datatype Control =
    | Protection | Rotate | VFlip | HFlip | Denoise | CscRange | CscEq | FrameRate
    | ChromaSubsampling | Quality | Quality2 | Padding | Padding2 | Hwfc

  datatype Call =
    | SetFormat(side: Side, format: Format)
    | TryFormat(format: Format)
    | SetCrop(side: Side, crop: Crop)
    | RequestBuffers(side: Side, count: nat)
    | StreamOn(side: Side)
    | StreamOff(side: Side)
    | Queue(side: Side)
    | Dequeue(side: Side)
    | SetControls(values: map<Control, int>)
  {
    /** Requests that give resources back. */
    predicate Releases() {
      StreamOff? || (RequestBuffers? && count == 0)
    }
  }

  /** One queue as the driver sees it; the users never have more than one buffer each way. */
  datatype QueueState = QueueState(requested: bool, streaming: bool, queued: bool, format: Format, crop: Crop)

  datatype Driver = Driver(output: QueueState, capture: QueueState, controls: map<Control, int>) {
    function At(side: Side): QueueState {
      match side case Output => output case Capture => capture
    }

    function With(side: Side, q: QueueState): Driver {
      match side case Output => this.(output := q) case Capture => this.(capture := q)
    }

    /** Whether the request is in order; one that is may still fail. */
    predicate Accepts(c: Call) {
      match c
      case SetFormat(side, _) => !At(side).requested
      case RequestBuffers(side, _) => !At(side).streaming
      case StreamOn(side) => At(side).requested
      case Queue(side) => At(side).requested && !At(side).queued
      case Dequeue(side) => At(side).queued && At(side).streaming
      case _ => true
    }

    function After(c: Call): Driver {
      match c
      case SetFormat(side, format) => With(side, At(side).(format := format))
      case SetCrop(side, crop) => With(side, At(side).(crop := crop))
      case RequestBuffers(side, count) => With(side, At(side).(requested := count > 0, queued := false))
      case StreamOn(side) => With(side, At(side).(streaming := true))
      case StreamOff(side) => With(side, At(side).(streaming := false, queued := false))
      case Queue(side) => With(side, At(side).(queued := true))
      case Dequeue(side) => With(side, At(side).(queued := false))
      case SetControls(values) => this.(controls := controls + values)
      case TryFormat(_) => this
    }
  }

  const UNSET := QueueState(false, false, false, Format(0, 0, 0), Crop(0, 0, 0, 0))

  class Device {
    const fate: (nat, Call) -> bool    // whether the n-th request succeeds, if it is in order
    const damaged: nat -> bool         // whether the n-th request, if it dequeues, returns a damaged frame
    const planes: nat -> nat           // what the n-th request, if it sets a format, reports as plane count
    var calls: nat
    var driver: Driver

    constructor (fate: (nat, Call) -> bool, damaged: nat -> bool, planes: nat -> nat)
      ensures this.fate == fate && this.damaged == damaged && this.planes == planes
      ensures calls == 0 && driver == Driver(UNSET, UNSET, map[])
    {
      this.fate, this.damaged, this.planes := fate, damaged, planes;
      calls, driver := 0, Driver(UNSET, UNSET, map[]);
    }

    method Ioctl(c: Call) returns (ok: bool)
      modifies this
      ensures calls == old(calls) + 1
      ensures ok == (fate(old(calls), c) && old(driver).Accepts(c))
      ensures driver == if ok then old(driver).After(c) else old(driver)
    {
      ok := fate(calls, c) && driver.Accepts(c);
      if ok {
        driver := driver.After(c);
      }
      calls := calls + 1;
    }

    /**
     From the given request on nothing fails that is in order, except perhaps setting controls, and no
     frame is damaged.
     */
    ghost predicate Willing(from: nat, butControls: bool) {
      && (forall n :: n >= from ==> !damaged(n))
      && (forall n, c: Call :: n >= from ==> (butControls && c.SetControls?) || fate(n, c))
    }

    /** From the given request on no controls can be set. */
    ghost predicate RefusesControls(from: nat) {
      forall n, c: Call :: n >= from && c.SetControls? ==> !fate(n, c)
    }

    /** Neither depends on the requests made so far. */
    lemma StillWilling(from: nat)
      ensures Willing(from, true) ==> Willing(from + 1, true)
      ensures Willing(from, false) ==> Willing(from + 1, false)
      ensures RefusesControls(from) ==> RefusesControls(from + 1)
    {
    }

    /** STREAMOFF and REQBUFS(0) never fail when they are in order. */
    ghost predicate Reliable() {
      forall n, c: Call :: c.Releases() ==> fate(n, c)
    }
  }
}
