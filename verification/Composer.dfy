/** `ComposerCommandEngine`: validating and presenting displays, and brightness changes that wait for it. */
module Composer {

  const NO_ERROR := 0
  const HWC2_ERROR_HAS_CHANGES := 5
  const EX_NOT_VALIDATED := 7

  type Display = int

  /**
   `DisplayCommand`; `lifecycle` is the number of its layers to be created or destroyed, and `settings`
   that of its parts that only hand a value to the HAL.
   */
  datatype Command = Command(
    display: Display, lifecycle: nat, brightness: bool, settings: nat,
    validateDisplay: bool, acceptDisplayChanges: bool, presentDisplay: bool, presentOrValidateDisplay: bool)
  {
    /** The command has the display's pending changes considered. */
    predicate Shows() {
      validateDisplay || presentDisplay || presentOrValidateDisplay
    }

    predicate StandaloneBrightness() {
      brightness && !Shows()
    }
  }

  /** What becomes of a brightness change that the HAL takes. */
  datatype Effect = Deferred | AtOnce | Unheeded

  /** The answers of the HAL to the calls, by their number. */
  datatype Hal = Hal(
    fate: nat -> int,                 // the error that the n-th call returns, or 0
    clientComposition: nat -> bool,   // what it says of client composition, if that is what it is asked
    effect: nat -> Effect)            // what becomes of the brightness, if it sets one

  /** What happens at the HAL: a refresh request from it, and the calls made to it with the errors returned. */
  datatype Event =
    | Refresh(display: Display)
    | Validate(display: Display, err: int)
    | Present(display: Display, err: int, checked: bool)  // `checked` by present-or-validate
    | Accept(display: Display, err: int)
    | SetBrightness(display: Display, err: int, effect: Effect)
    | FlushBrightness(display: Display, err: int)
    | GetClientComposition(display: Display, err: int)
    | PresentTime(display: Display, err: int)
    | Batch(display: Display, err: int)
    | Set(display: Display, err: int)
  {
    /** Nothing is pending any more: a frame is committed, or brightness flushed or set at once. */
    predicate Applies(d: Display) {
      (Present? || FlushBrightness? || (SetBrightness? && effect == AtOnce)) && display == d && err == NO_ERROR
    }

    /** A brightness change is pending. */
    predicate Pends(d: Display) {
      this == SetBrightness(d, NO_ERROR, Deferred)
    }

    /** The failure of a call that the client is told of. */
    predicate Fails(e: int) {
      && !Refresh? && err == e != NO_ERROR
      && (Accept? || SetBrightness? || Batch? || Set? || (Validate? && e != HWC2_ERROR_HAS_CHANGES))
    }
  }

  /** What the writer collects for the client. */
  datatype Entry =
    | Error(index: nat, err: int)
    | Changes(display: Display)
    | Fences(display: Display)
    | PresentOrValidateResult(display: Display, presented: bool)

  /** A refresh was requested after the last validation. */
  ghost predicate Stale(log: seq<Event>, d: Display) {
    log != [] &&
    var e := log[|log| - 1];
    if e == Refresh(d) then true
    else if e.Validate? && e.display == d then false
    else Stale(log[..|log| - 1], d)
  }

  /** No present-or-validate has presented what was to be validated first. */
  ghost predicate NeverStale(log: seq<Event>) {
    forall n :: 0 <= n < |log| && log[n].Present? && log[n].checked ==> !Stale(log[..n], log[n].display)
  }

  /** What the client is told of the error that a call returned. */
  function Reported(index: nat, err: int): seq<Entry> {
    if err == NO_ERROR then [] else [Error(index, err)]
  }

  /** What the client is told of one call. */
  ghost function ToldOf(index: nat, e: Event): seq<Entry> {
    match e
    case Accept(_, err) => Reported(index, err)
    case SetBrightness(_, err, _) => Reported(index, err)
    case Batch(_, err) => Reported(index, err)
    case Set(_, err) => Reported(index, err)
    case Validate(d, err) => if err == NO_ERROR || err == HWC2_ERROR_HAS_CHANGES then [Changes(d)] else [Error(index, err)]
    case Present(d, err, _) => if err == NO_ERROR then [Fences(d)] else []
    case _ => []
  }

  ghost function Told(index: nat, calls: seq<Event>): seq<Entry> {
    if calls == [] then [] else ToldOf(index, calls[0]) + Told(index, calls[1..])
  }

  /** The result of present-or-validate, by its last call. */
  ghost function Outcome(d: Display, calls: seq<Event>): seq<Entry>
    requires calls != []
  {
    var last := calls[|calls| - 1];
    if last.Present? && last.err == NO_ERROR then [PresentOrValidateResult(d, true)]
    else if last.GetClientComposition? || (last.Validate? && last.err == HWC2_ERROR_HAS_CHANGES)
    then [PresentOrValidateResult(d, false)]
    else []
  }

  /** What the client is told of a whole command. */
  ghost function ToldBy(index: nat, c: Command, calls: seq<Event>): seq<Entry> {
    Told(index, calls) + if c.presentOrValidateDisplay && calls != [] then Outcome(c.display, calls) else []
  }

  lemma {:induction false} ToldConcat(index: nat, a: seq<Event>, b: seq<Event>)
    ensures Told(index, a + b) == Told(index, a) + Told(index, b)
  {
    hide ToldOf;
    if a == [] {
      assert a + b == b;
    } else {
      ToldConcat(index, a[1..], b);
      assert (a + b)[0] == a[0] && (a + b)[1..] == a[1..] + b;
      assert Told(index, a + b) == ToldOf(index, a[0]) + (Told(index, a[1..]) + Told(index, b));
    }
  }

  /** Two stretches of calls, and what the client is told of them. */
  lemma Onward(index: nat, log: seq<Event>, a: seq<Event>, log1: seq<Event>, b: seq<Event>, log2: seq<Event>,
               told: seq<Entry>, told1: seq<Entry>, told2: seq<Entry>, more: seq<Entry>)
    requires log1 == log + a && log2 == log1 + b
    requires told1 == told + Told(index, a) + [] && told2 == told1 + Told(index, b) + more
    ensures log2 == log + (a + b) && told2 == told + Told(index, a + b) + more
  {
    hide Told;
    ToldConcat(index, a, b);
  }

  lemma ToldOne(index: nat, e: Event)
    ensures Told(index, [e]) == ToldOf(index, e)
  {
  }

  // ---------------------------------------------------------------- the calls of a command

  /** The fallback of present-or-validate: validation, and presentation if the client has nothing to do. */
  ghost function Fallback(d: Display, hal: Hal, n: nat): (calls: seq<Event>)
    ensures calls != []
  {
    [Validate(d, hal.fate(n))]
    + if hal.fate(n) != NO_ERROR then []
      else [GetClientComposition(d, hal.fate(n + 1))]
           + if hal.fate(n + 1) == NO_ERROR && hal.clientComposition(n + 1) then []
             else [Accept(d, hal.fate(n + 2)), Present(d, hal.fate(n + 3), true)]
  }

  /** A display that is not to be validated first is presented at once, if the HAL agrees. */
  ghost function PresentOrValidate(d: Display, marked: bool, hal: Hal, n: nat): (calls: seq<Event>)
    ensures calls != []
  {
    var first := FirstTry(d, marked, hal, n);
    if !marked && hal.fate(n + 1) == NO_ERROR then first else first + Fallback(d, hal, n + |first|)
  }

  ghost function FirstTry(d: Display, marked: bool, hal: Hal, n: nat): (calls: seq<Event>)
    ensures calls != []
  {
    [PresentTime(d, hal.fate(n))] + if marked then [] else [Present(d, hal.fate(n + 1), true)]
  }

  ghost function Validation(c: Command, hal: Hal, n: nat): seq<Event> {
    if c.validateDisplay then [PresentTime(c.display, hal.fate(n)), Validate(c.display, hal.fate(n + 1))] else []
  }

  ghost function Acceptance(c: Command, hal: Hal, n: nat): seq<Event> {
    if c.acceptDisplayChanges then [Accept(c.display, hal.fate(n))] else []
  }

  ghost function Presentation(c: Command, hal: Hal, n: nat): seq<Event> {
    if c.presentDisplay then [Present(c.display, hal.fate(n), false)] else []
  }

  /** Validation comes before acceptance, and that before presentation. */
  ghost function Plainly(c: Command, hal: Hal, n: nat): seq<Event> {
    var v := Validation(c, hal, n);
    var a := Acceptance(c, hal, n + |v|);
    v + a + Presentation(c, hal, n + |v| + |a|)
  }

  /** Present-or-validate comes last. */
  ghost function Shown(c: Command, marked: bool, hal: Hal, n: nat): (calls: seq<Event>)
    ensures c.presentOrValidateDisplay ==> calls != []
  {
    var p := Plainly(c, hal, n);
    p + if c.presentOrValidateDisplay then PresentOrValidate(c.display, marked && !c.validateDisplay, hal, n + |p|) else []
  }

  ghost function Batches(d: Display, count: nat, hal: Hal, n: nat): (calls: seq<Event>)
    ensures |calls| == count
  {
    seq(count, i requires 0 <= i => Batch(d, hal.fate(n + i)))
  }

  ghost function Brightness(c: Command, hal: Hal, n: nat): seq<Event> {
    if c.brightness then [SetBrightness(c.display, hal.fate(n), hal.effect(n))] else []
  }

  ghost function Sets(d: Display, count: nat, hal: Hal, n: nat): (calls: seq<Event>)
    ensures |calls| == count
  {
    seq(count, i requires 0 <= i => Set(d, hal.fate(n + i)))
  }

  /**
   All calls that are made for a command, of which the first is the `n`-th of all: layers, brightness, other
   values, and then what shows the display.
   */
  ghost function Calls(c: Command, marked: bool, hal: Hal, n: nat): seq<Event> {
    var b := n + c.lifecycle;
    var l := Brightness(c, hal, b);
    Batches(c.display, c.lifecycle, hal, n) + l + Sets(c.display, c.settings, hal, b + |l|)
    + Shown(c, marked, hal, b + |l| + c.settings)
  }

  /**
   At most one present succeeds, and the result is `Presented` exactly if one does. It is `Validated` exactly if
   validation asks for changes, or does not and there is client composition; only if neither is the case are the
   changes accepted and the display presented.
   */
  lemma OneResult(d: Display, marked: bool, hal: Hal, n: nat)
    ensures
      var calls := PresentOrValidate(d, marked, hal, n);
      var m := if marked then n + 1 else n + 2;
      var atOnce := !marked && hal.fate(n + 1) == 0;
      var client := hal.fate(m + 1) == 0 && hal.clientComposition(m + 1);
      && Successes(calls) <= 1 && (Outcome(d, calls) == [PresentOrValidateResult(d, true)] <==> Successes(calls) == 1)
      && Outcome(d, calls) == (
           if atOnce then [PresentOrValidateResult(d, true)]
           else if hal.fate(m) == 5 || (hal.fate(m) == 0 && client)
           then [PresentOrValidateResult(d, false)]
           else if hal.fate(m) == 0 && hal.fate(m + 3) == 0 then [PresentOrValidateResult(d, true)]
           else [])
  {
    var calls := PresentOrValidate(d, marked, hal, n);
    assert calls == calls[..|calls| - 1] + [calls[|calls| - 1]];
    FewSuccesses(calls);
  }

  lemma {:induction false} FewSuccesses(calls: seq<Event>)
    requires forall i :: 0 <= i < |calls| - 1 ==> !(calls[i].Present? && calls[i].err == NO_ERROR)
    ensures Successes(calls) == if calls != [] && calls[|calls| - 1].Present? && calls[|calls| - 1].err == NO_ERROR then 1 else 0
  {
    if calls != [] {
      FewSuccesses(calls[..|calls| - 1]);
    }
  }

  /** How many presents succeeded. */
  ghost function Successes(log: seq<Event>): nat {
    if log == [] then 0
    else
      var last := log[|log| - 1];
      Successes(log[..|log| - 1]) + if last.Present? && last.err == NO_ERROR then 1 else 0
  }

  /** How many calls have been made. */
  ghost function CallCount(log: seq<Event>): nat {
    if log == [] then 0
    else CallCount(log[..|log| - 1]) + if log[|log| - 1].Refresh? then 0 else 1
  }

  /** Every call has returned what it was fated to. */
  ghost predicate Answered(log: seq<Event>, fate: nat -> int) {
    forall n :: 0 <= n < |log| && !log[n].Refresh? ==> log[n].err == fate(CallCount(log[..n]))
  }

  lemma AnsweredStep(log: seq<Event>, e: Event, fate: nat -> int)
    requires Answered(log, fate) && (!e.Refresh? ==> e.err == fate(CallCount(log)))
    ensures Answered(log + [e], fate) && CallCount(log + [e]) == CallCount(log) + if e.Refresh? then 0 else 1
  {
    hide CallCount;
    var next := log + [e];
    CallCountStep(log, e);
    forall n | 0 <= n < |next|
      ensures next[..n] == if n < |log| then log[..n] else log
    {
    }
  }

  lemma CallCountStep(log: seq<Event>, e: Event)
    ensures CallCount(log + [e]) == CallCount(log) + if e.Refresh? then 0 else 1
  {
    assert (log + [e])[..|log|] == log;
  }

  lemma LogStep(log: seq<Event>, e: Event)
    ensures forall d :: Stale(log + [e], d)
                        <==> e == Refresh(d) || (!(e.Validate? && e.display == d) && Stale(log, d))
    ensures Successes(log + [e]) == Successes(log) + if e.Present? && e.err == NO_ERROR then 1 else 0
    ensures NeverStale(log) && !(e.Present? && e.checked && Stale(log, e.display)) ==> NeverStale(log + [e])
  {
    var next := log + [e];
    assert next[..|next| - 1] == log;
    forall n | 0 <= n < |next|
      ensures next[..n] == if n < |log| then log[..n] else log
    {
    }
  }

  /** Everything that a command asks for is done: layers, brightness, other values, and then what shows the display. */
  ghost predicate Dispatched(calls: seq<Event>, c: Command) {
    var a := c.lifecycle;
    var b := a + if c.brightness then 1 else 0;
    && b + c.settings <= |calls|
    && (forall n :: 0 <= n < a ==> calls[n].Batch?)
    && (c.brightness ==> calls[a].SetBrightness?)
    && (forall n :: b <= n < b + c.settings ==> calls[n].Set?)
    && (forall n :: 0 <= n < |calls| ==> calls[n].display == c.display && !calls[n].Refresh? && !calls[n].FlushBrightness?)
    && (forall n :: 0 <= n < |calls| && calls[n].SetBrightness? ==> c.brightness && n == a)
    && (forall n :: b + c.settings <= n < |calls| ==> !calls[n].Batch? && !calls[n].Set?)
    && InOrder(calls[b + c.settings..], c)
  }

  /** What shows the display: time and validation, acceptance, and presentation, each once if asked for, and then present-or-validate. */
  ghost predicate InOrder(shown: seq<Event>, c: Command) {
    var a := if c.validateDisplay then 2 else 0;
    var p := a + if c.acceptDisplayChanges then 1 else 0;
    var q := p + if c.presentDisplay then 1 else 0;
    && q <= |shown|
    && (c.validateDisplay ==> shown[0].PresentTime? && shown[1].Validate?)
    && (c.acceptDisplayChanges ==> shown[a].Accept?)
    && (c.presentDisplay ==> shown[p].Present? && !shown[p].checked)
    && if c.presentOrValidateDisplay then TriesToPresent(shown[q..]) else |shown| == q
  }

  /**
   Present-or-validate, by the errors returned: a first present, if the display may be presented; when that has not
   succeeded, validation; when that has, client composition is asked for; and then both, acceptance and the second
   present, or neither.
   */
  ghost predicate TriesToPresent(calls: seq<Event>) {
    && |calls| >= 2 && calls[0].PresentTime?
    && (calls[1].Present? ==> calls[1].checked && (|calls| == 2 <==> calls[1].err == NO_ERROR))
    && var v := if calls[1].Present? then 2 else 1;
       |calls| > v ==>
         && calls[v].Validate? && (|calls| == v + 1 <==> calls[v].err != NO_ERROR)
         && (|calls| > v + 1 ==> calls[v + 1].GetClientComposition? && |calls| in {v + 2, v + 4})
         && (|calls| > v + 2 ==> calls[v + 2].Accept? && calls[v + 3].Present? && calls[v + 3].checked)
  }

  /** Calls that only show a display. */
  ghost predicate OnlyShows(calls: seq<Event>, d: Display) {
    forall n :: 0 <= n < |calls| ==>
      calls[n].display == d && (calls[n].PresentTime? || calls[n].Validate? || calls[n].Present? || calls[n].Accept?
                                || calls[n].GetClientComposition?)
  }

  lemma OnlyShowsConcat(a: seq<Event>, b: seq<Event>, d: Display)
    requires OnlyShows(a, d) && OnlyShows(b, d)
    ensures OnlyShows(a + b, d)
  {
  }

  lemma PlainlyOnlyShows(c: Command, hal: Hal, n: nat)
    ensures OnlyShows(Plainly(c, hal, n), c.display)
  {
    var v := Validation(c, hal, n);
    var a := Acceptance(c, hal, n + |v|);
    var p := Presentation(c, hal, n + |v| + |a|);
    assert OnlyShows(v, c.display) && OnlyShows(a, c.display) && OnlyShows(p, c.display);
    hide OnlyShows, Validation, Acceptance, Presentation;
    OnlyShowsConcat(v, a, c.display);
    OnlyShowsConcat(v + a, p, c.display);
  }

  lemma PresentOrValidateOnlyShows(d: Display, marked: bool, hal: Hal, n: nat)
    ensures OnlyShows(PresentOrValidate(d, marked, hal, n), d)
  {
  }

  lemma ShownOnlyShows(c: Command, marked: bool, hal: Hal, n: nat)
    ensures OnlyShows(Shown(c, marked, hal, n), c.display)
  {
    hide OnlyShows, Plainly, PresentOrValidate;
    var p := Plainly(c, hal, n);
    PlainlyOnlyShows(c, hal, n);
    if c.presentOrValidateDisplay {
      PresentOrValidateOnlyShows(c.display, marked && !c.validateDisplay, hal, n + |p|);
      OnlyShowsConcat(p, PresentOrValidate(c.display, marked && !c.validateDisplay, hal, n + |p|), c.display);
    } else {
      assert p + [] == p;
    }
  }

  lemma PlainlyInOrder(c: Command, hal: Hal, n: nat)
    ensures !c.presentOrValidateDisplay ==> InOrder(Plainly(c, hal, n), c)
    ensures InOrder(Plainly(c, hal, n), c.(presentOrValidateDisplay := false))
  {
  }

  lemma PresentOrValidateTries(d: Display, marked: bool, hal: Hal, n: nat)
    ensures TriesToPresent(PresentOrValidate(d, marked, hal, n))
  {
  }

  lemma ShownInOrder(c: Command, marked: bool, hal: Hal, n: nat)
    ensures InOrder(Shown(c, marked, hal, n), c)
  {
    hide Plainly, PresentOrValidate, TriesToPresent;
    var p := Plainly(c, hal, n);
    PlainlyInOrder(c, hal, n);
    if c.presentOrValidateDisplay {
      var t := PresentOrValidate(c.display, marked && !c.validateDisplay, hal, n + |p|);
      PresentOrValidateTries(c.display, marked && !c.validateDisplay, hal, n + |p|);
      assert Shown(c, marked, hal, n)[|p|..] == t;
    } else {
      assert p + [] == p;
    }
  }

  lemma CallsAreDispatched(c: Command, marked: bool, hal: Hal, n: nat)
    ensures Dispatched(Calls(c, marked, hal, n), c)
  {
    hide Shown, OnlyShows, Dispatched, InOrder;
    var b := n + c.lifecycle;
    var l := Brightness(c, hal, b);
    ShownOnlyShows(c, marked, hal, b + |l| + c.settings);
    ShownInOrder(c, marked, hal, b + |l| + c.settings);
    PartsAreDispatched(c, Batches(c.display, c.lifecycle, hal, n), l, Sets(c.display, c.settings, hal, b + |l|),
                       Shown(c, marked, hal, b + |l| + c.settings));
  }

  lemma PartsAreDispatched(c: Command, x: seq<Event>, y: seq<Event>, z: seq<Event>, w: seq<Event>)
    requires |x| == c.lifecycle && forall i :: 0 <= i < |x| ==> x[i].Batch? && x[i].display == c.display
    requires |y| == (if c.brightness then 1 else 0) && (c.brightness ==> y[0].SetBrightness? && y[0].display == c.display)
    requires |z| == c.settings && forall i :: 0 <= i < |z| ==> z[i].Set? && z[i].display == c.display
    requires OnlyShows(w, c.display) && InOrder(w, c)
    ensures Dispatched(x + y + z + w, c)
  {
    hide InOrder;
    var calls := x + y + z + w;
    forall i | 0 <= i < |calls|
      ensures calls[i] == if i < |x| then x[i] else if i < |x| + |y| then y[i - |x|]
                          else if i < |x| + |y| + |z| then z[i - |x| - |y|] else w[i - |x| - |y| - |z|]
    {
    }
    assert calls[|x + y + z|..] == w;
  }

  /** A brightness change that nothing has brought into effect. */
  ghost predicate Unapplied(log: seq<Event>, d: Display) {
    log != [] &&
    var e := log[|log| - 1];
    if e.Pends(d) then true
    else if e.Applies(d) then false
    else Unapplied(log[..|log| - 1], d)
  }

  /** The events since the log was `was` are calls about one display that set no brightness. */
  ghost predicate Quiet(was: seq<Event>, log: seq<Event>, d: Display) {
    was <= log
    && forall n :: |was| <= n < |log| ==>
         log[n].display == d && !log[n].Refresh? && !log[n].SetBrightness? && !log[n].FlushBrightness?
  }

  lemma BrightnessSet(was: seq<Event>, log: seq<Event>)
    requires was <= log && |log| == |was| + 1 && log[|was|].SetBrightness?
    ensures forall x :: Unapplied(log, x) <==> log[|was|].Pends(x) || (!log[|was|].Applies(x) && Unapplied(was, x))
  {
    assert log[..|log| - 1] == was;
  }

  lemma {:induction false} QuietSince(was: seq<Event>, log: seq<Event>, d: Display)
    requires Quiet(was, log, d)
    ensures forall x :: x != d ==> (Unapplied(log, x) <==> Unapplied(was, x))
    ensures Unapplied(log, d) <==> Unapplied(was, d) && forall n :: |was| <= n < |log| ==> !log[n].Applies(d)
    decreases |log|
  {
    if |log| > |was| {
      QuietSince(was, log[..|log| - 1], d);
    } else {
      assert log == was;
    }
  }

  /** The calls made for a command leave a brightness change pending, or nothing pending. */
  ghost predicate Takes(calls: seq<Event>, d: Display) {
    exists n :: 0 <= n < |calls| && calls[n].Pends(d)
  }

  ghost predicate Commits(calls: seq<Event>, d: Display) {
    exists n :: 0 <= n < |calls| && calls[n].Applies(d)
  }

  /** What a command's calls do to brightness changes. */
  lemma DispatchedEffect(log: seq<Event>, calls: seq<Event>, c: Command, x: Display)
    requires Dispatched(calls, c)
    ensures Unapplied(log + calls, x)
            <==> if x == c.display then !Commits(calls, x) && (Takes(calls, x) || Unapplied(log, x)) else Unapplied(log, x)
  {
    hide Unapplied, InOrder;
    var a, d := c.lifecycle, c.display;
    var b := a + if c.brightness then 1 else 0;
    var made, bright, all := log + calls[..a], log + calls[..b], log + calls;
    assert Quiet(log, made, d) && Quiet(bright, all, d);
    QuietSince(log, made, d);
    QuietSince(bright, all, d);
    forall n | |log| <= n < |made|
      ensures !made[n].Applies(d)
    {
      assert made[n] == calls[n - |log|];
    }
    assert forall n :: |bright| <= n < |all| ==> all[n] == calls[n - |log|];
    assert Commits(calls, d) <==> (c.brightness && calls[a].Applies(d)) || exists n :: |bright| <= n < |all| && all[n].Applies(d) by {
      if n :| 0 <= n < |calls| && calls[n].Applies(d) {
        assert all[|log| + n].Applies(d);
      }
    }
    if c.brightness {
      assert bright[|made|] == calls[a];
      BrightnessSet(made, bright);
    } else {
      assert bright == made;
    }
  }

  // ---------------------------------------------------------------- pending brightness

  /** The displays whose brightness waits after the first `n` commands. */
  function Pending(commands: seq<Command>, n: nat): set<Display>
    requires n <= |commands|
  {
    if n == 0 then {}
    else
      var c := commands[n - 1];
      if c.Shows() then Pending(commands, n - 1) - {c.display}
      else if c.brightness then Pending(commands, n - 1) + {c.display}
      else Pending(commands, n - 1)
  }

  /** The command `i` changes the brightness of `d` by itself, and no later one shows the display. */
  ghost predicate Waits(commands: seq<Command>, n: nat, d: Display, i: int) {
    && 0 <= i < n <= |commands| && commands[i].display == d && commands[i].StandaloneBrightness()
    && forall j :: i < j < n && commands[j].display == d ==> !commands[j].Shows()
  }

  lemma {:induction false} PendingIffWaits(commands: seq<Command>, n: nat, d: Display)
    requires n <= |commands|
    ensures d in Pending(commands, n) <==> exists i :: Waits(commands, n, d, i)
  {
    if n > 0 {
      PendingIffWaits(commands, n - 1, d);
      var c := commands[n - 1];
      if d in Pending(commands, n) {
        if c.StandaloneBrightness() && c.display == d {
          assert Waits(commands, n, d, n - 1);
        } else {
          var i :| Waits(commands, n - 1, d, i);
          assert Waits(commands, n, d, i);
        }
      }
      if exists i :: Waits(commands, n, d, i) {
        var i :| Waits(commands, n, d, i);
        if i < n - 1 {
          assert Waits(commands, n - 1, d, i);
        }
      }
    }
  }

  // ---------------------------------------------------------------- what becomes of brightness changes

  ghost predicate AllRefresh(events: seq<Event>) {
    forall n :: 0 <= n < |events| ==> events[n].Refresh?
  }

  /** What is logged for one command of a list: refresh requests that come before it, and its calls. */
  datatype Turn = Turn(requests: seq<Event>, calls: seq<Event>)

  ghost predicate Performed(commands: seq<Command>, turns: seq<Turn>) {
    |turns| <= |commands|
    && forall i :: 0 <= i < |turns| ==> AllRefresh(turns[i].requests) && Dispatched(turns[i].calls, commands[i])
  }

  ghost function Requests(displays: seq<Display>): (events: seq<Event>)
    ensures AllRefresh(events)
  {
    seq(|displays|, i requires 0 <= i < |displays| => Refresh(displays[i]))
  }

  /** The first `n` turns: what the HAL has logged before and its answers determine them. */
  ghost function Turns(commands: seq<Command>, refreshes: nat -> seq<Display>, hal: Hal, was: seq<Event>, n: nat): (turns: seq<Turn>)
    requires n <= |commands|
    ensures |turns| == n
  {
    if n == 0 then []
    else
      var turns := Turns(commands, refreshes, hal, was, n - 1);
      var c, requests := commands[n - 1], Requests(refreshes(n - 1));
      var log := LogAfter(was, turns, n - 1) + requests;
      turns + [Turn(requests, Calls(c, Stale(log, c.display), hal, CallCount(log)))]
  }

  lemma {:induction false} TurnsPerformed(commands: seq<Command>, refreshes: nat -> seq<Display>, hal: Hal, was: seq<Event>, n: nat)
    requires n <= |commands|
    ensures Performed(commands, Turns(commands, refreshes, hal, was, n))
  {
    hide Dispatched, Calls, Stale, CallCount;
    if n > 0 {
      TurnsPerformed(commands, refreshes, hal, was, n - 1);
      var turns := Turns(commands, refreshes, hal, was, n - 1);
      var c, log := commands[n - 1], LogAfter(was, turns, n - 1) + Requests(refreshes(n - 1));
      CallsAreDispatched(c, Stale(log, c.display), hal, CallCount(log));
    }
  }

  /** What the client is told of the first `n` commands. */
  ghost function AllTold(commands: seq<Command>, turns: seq<Turn>, n: nat): seq<Entry>
    requires n <= |commands| && n <= |turns|
  {
    if n == 0 then [] else AllTold(commands, turns, n - 1) + ToldBy(n - 1, commands[n - 1], turns[n - 1].calls)
  }

  lemma {:induction false} AllToldSame(commands: seq<Command>, turns: seq<Turn>, more: seq<Turn>, n: nat)
    requires n <= |turns| && n <= |commands| && turns <= more
    ensures AllTold(commands, turns, n) == AllTold(commands, more, n)
  {
    hide ToldBy;
    if n > 0 {
      AllToldSame(commands, turns, more, n - 1);
    }
  }

  lemma {:induction false} ToldIffFails(index: nat, calls: seq<Event>, i: nat, err: int)
    ensures Error(i, err) in Told(index, calls) <==> i == index && exists k :: 0 <= k < |calls| && calls[k].Fails(err)
  {
    if calls != [] {
      ToldIffFails(index, calls[1..], i, err);
      assert Error(i, err) in ToldOf(index, calls[0]) <==> i == index && calls[0].Fails(err);
      if k :| 0 <= k < |calls| && calls[k].Fails(err) {
        assert k > 0 ==> calls[1..][k - 1].Fails(err);
      }
      if k :| 0 <= k < |calls| - 1 && calls[1..][k].Fails(err) {
        assert calls[k + 1].Fails(err);
      }
    }
  }

  /** The client is told of exactly the failures that matter, each with its command's index. */
  lemma {:induction false} ErrorsAreFailures(commands: seq<Command>, turns: seq<Turn>, n: nat, i: nat, err: int)
    requires n <= |commands| && n <= |turns|
    ensures Error(i, err) in AllTold(commands, turns, n)
            <==> i < n && exists k :: 0 <= k < |turns[i].calls| && turns[i].calls[k].Fails(err)
  {
    hide Told;
    if n > 0 {
      ErrorsAreFailures(commands, turns, n - 1, i, err);
      ToldIffFails(n - 1, turns[n - 1].calls, i, err);
    }
  }

  /** A present of the display succeeded. */
  ghost predicate Presented(calls: seq<Event>, d: Display) {
    exists k :: 0 <= k < |calls| && calls[k].Present? && calls[k].display == d && calls[k].err == 0
  }

  /** A validation of the display succeeded, perhaps asking for changes. */
  ghost predicate Validated(calls: seq<Event>, d: Display) {
    exists k :: 0 <= k < |calls| && calls[k].Validate? && calls[k].display == d && calls[k].err in {0, 5}
  }

  lemma {:induction false} ToldIffShown(index: nat, calls: seq<Event>, d: Display)
    ensures Fences(d) in Told(index, calls) <==> Presented(calls, d)
    ensures Changes(d) in Told(index, calls) <==> Validated(calls, d)
  {
    if calls != [] {
      ToldIffShown(index, calls[1..], d);
      forall k | 0 <= k < |calls[1..]|
        ensures calls[1..][k] == calls[k + 1]
      {
      }
      if k :| 0 <= k < |calls| && calls[k].display == d && (calls[k].Present? || calls[k].Validate?) {
        assert k > 0 ==> calls[1..][k - 1] == calls[k];
      }
      ShownStep(calls, d);
    }
  }

  lemma ShownStep(calls: seq<Event>, d: Display)
    requires calls != []
    ensures Presented(calls, d) <==> Presented(calls[..1], d) || Presented(calls[1..], d)
    ensures Validated(calls, d) <==> Validated(calls[..1], d) || Validated(calls[1..], d)
  {
    forall k | 0 < k < |calls|
      ensures calls[k] == calls[1..][k - 1]
    {
    }
    assert calls[..1][0] == calls[0];
    if k :| 0 <= k < |calls| && calls[k].Present? && calls[k].display == d && calls[k].err == 0 {
      assert k > 0 ==> calls[1..][k - 1].Present?;
    }
    if k :| 0 <= k < |calls| && calls[k].Validate? && calls[k].display == d && calls[k].err in {0, 5} {
      assert k > 0 ==> calls[1..][k - 1].Validate?;
    }
  }

  /** Present-or-validate ended with a successful present, or with validation that leaves work to the client. */
  ghost predicate Concludes(c: Command, calls: seq<Event>, d: Display, presented: bool) {
    && c.presentOrValidateDisplay && c.display == d && calls != []
    && var last := calls[|calls| - 1];
       if presented then last.Present? && last.err == 0 else last.GetClientComposition? || (last.Validate? && last.err == 5)
  }

  /** Fences, changes and results are handed out for exactly the displays for which some command of the list earns them. */
  lemma {:induction false} EntriesAreSuccesses(commands: seq<Command>, turns: seq<Turn>, n: nat, d: Display, presented: bool)
    requires n <= |commands| && n <= |turns|
    ensures Fences(d) in AllTold(commands, turns, n) <==> exists i :: 0 <= i < n && Presented(turns[i].calls, d)
    ensures Changes(d) in AllTold(commands, turns, n) <==> exists i :: 0 <= i < n && Validated(turns[i].calls, d)
    ensures PresentOrValidateResult(d, presented) in AllTold(commands, turns, n)
            <==> exists i :: 0 <= i < n && Concludes(commands[i], turns[i].calls, d, presented)
  {
    hide ToldBy, Presented, Validated, Concludes;
    if n > 0 {
      EntriesAreSuccesses(commands, turns, n - 1, d, presented);
      TurnTells(n - 1, commands[n - 1], turns[n - 1].calls, d, presented);
    }
  }

  lemma TurnTells(index: nat, c: Command, calls: seq<Event>, d: Display, presented: bool)
    ensures Fences(d) in ToldBy(index, c, calls) <==> Presented(calls, d)
    ensures Changes(d) in ToldBy(index, c, calls) <==> Validated(calls, d)
    ensures PresentOrValidateResult(d, presented) in ToldBy(index, c, calls) <==> Concludes(c, calls, d, presented)
  {
    hide Told, Presented, Validated;
    ToldIffShown(index, calls, d);
    NoResult(index, calls, d, presented);
  }

  lemma {:induction false} NoResult(index: nat, calls: seq<Event>, d: Display, presented: bool)
    ensures PresentOrValidateResult(d, presented) !in Told(index, calls)
  {
    if calls != [] {
      NoResult(index, calls[1..], d, presented);
    }
  }

  /** The log after the first `n` turns. */
  ghost function LogAfter(was: seq<Event>, turns: seq<Turn>, n: nat): seq<Event>
    requires n <= |turns|
  {
    if n == 0 then was else LogAfter(was, turns, n - 1) + turns[n - 1].requests + turns[n - 1].calls
  }

  /** A brightness change of `d` is without effect after the first `n` commands, if one `was` before. */
  ghost predicate Left(was: bool, commands: seq<Command>, turns: seq<Turn>, n: nat, d: Display)
    requires n <= |commands| && n <= |turns|
  {
    if n == 0 then was
    else if commands[n - 1].display != d then Left(was, commands, turns, n - 1, d)
    else !Commits(turns[n - 1].calls, d) && (Takes(turns[n - 1].calls, d) || Left(was, commands, turns, n - 1, d))
  }

  lemma {:induction false} PerformedEffect(was: seq<Event>, commands: seq<Command>, turns: seq<Turn>, n: nat, d: Display)
    requires Performed(commands, turns) && n <= |turns|
    ensures Unapplied(LogAfter(was, turns, n), d) <==> Left(Unapplied(was, d), commands, turns, n, d)
  {
    hide Unapplied, Dispatched, Commits, Takes;
    if n > 0 {
      var mid, requests := LogAfter(was, turns, n - 1), turns[n - 1].requests;
      PerformedEffect(was, commands, turns, n - 1, d);
      RefreshesKeep(mid, requests, d);
      DispatchedEffect(mid + requests, turns[n - 1].calls, commands[n - 1], d);
    }
  }

  /** No command from `i` on has committed a frame of the display. */
  ghost predicate NoneCommits(commands: seq<Command>, turns: seq<Turn>, i: int, n: nat, d: Display)
    requires n <= |commands| && n <= |turns|
  {
    forall j :: 0 <= j && i <= j < n && commands[j].display == d ==> !Commits(turns[j].calls, d)
  }

  /** Command `i` hands over a brightness change, and no frame of the display is committed from then on. */
  ghost predicate LeftBy(commands: seq<Command>, turns: seq<Turn>, i: int, n: nat, d: Display)
    requires n <= |commands| && n <= |turns|
  {
    0 <= i < n && commands[i].display == d && Takes(turns[i].calls, d) && NoneCommits(commands, turns, i, n, d)
  }

  lemma {:induction false} LeftIff(was: bool, commands: seq<Command>, turns: seq<Turn>, n: nat, d: Display)
    requires n <= |commands| && n <= |turns|
    ensures Left(was, commands, turns, n, d)
            <==> (was && NoneCommits(commands, turns, 0, n, d)) || exists i :: LeftBy(commands, turns, i, n, d)
  {
    hide Commits, Takes;
    if n > 0 {
      LeftIff(was, commands, turns, n - 1, d);
      if Left(was, commands, turns, n, d) {
        if commands[n - 1].display == d && Takes(turns[n - 1].calls, d) {
          assert LeftBy(commands, turns, n - 1, n, d);
        } else if !(was && NoneCommits(commands, turns, 0, n - 1, d)) {
          var i :| LeftBy(commands, turns, i, n - 1, d);
          assert LeftBy(commands, turns, i, n, d);
        }
      }
      if i :| LeftBy(commands, turns, i, n, d) {
        if i < n - 1 {
          assert LeftBy(commands, turns, i, n - 1, d);
        }
      }
    }
  }

  /** The flush of `d` succeeded: only that of the last display flushed may have failed. */
  ghost predicate FlushedWell(flushed: seq<Display>, err: int, d: Display) {
    d in flushed && (err == NO_ERROR || d != flushed[|flushed| - 1])
  }

  /**
   What is still without effect after a list of commands whose flushes all succeeded: changes that were
   taken, were followed by no committed frame, and that the engine did not flush because a later part
   of the list was to show the display.
   */
  lemma {:induction false} StaysIff(was: bool, commands: seq<Command>, turns: seq<Turn>, flushed: seq<Display>, d: Display)
    requires |turns| == |commands| && (d in flushed <==> exists i :: Waits(commands, |commands|, d, i))
    ensures Left(was, commands, turns, |commands|, d) && !FlushedWell(flushed, NO_ERROR, d)
            <==> ((was && NoneCommits(commands, turns, 0, |commands|, d))
                  || exists i :: LeftBy(commands, turns, i, |commands|, d))
                 && !exists i :: Waits(commands, |commands|, d, i)
  {
    LeftIff(was, commands, turns, |commands|, d);
  }

  // ---------------------------------------------------------------- a HAL without faults

  /** No call fails, no display has client composition, and brightness changes always wait. */
  ghost predicate Faultless(hal: Hal) {
    forall n :: hal.fate(n) == 0 && !hal.clientComposition(n) && hal.effect(n) == Deferred
  }

  /** The command presents the display, at once or after validation. */
  predicate Presents(c: Command, d: Display) {
    c.display == d && (c.presentDisplay || c.presentOrValidateDisplay)
  }

  predicate Brightens(c: Command, d: Display) {
    c.display == d && c.brightness
  }

  /** Command `i` is the last one that changes the brightness of `d`. */
  ghost predicate LastChange(commands: seq<Command>, d: Display, i: int) {
    0 <= i < |commands| && Brightens(commands[i], d) && forall j :: i < j < |commands| ==> !Brightens(commands[j], d)
  }

  /**
   The last change of `d`, if the list has one, is not followed by anything that presents the display, but by a
   validation, which may be that of its own command; a list without one just leaves what `was` pending.
   */
  ghost predicate Stranded(was: bool, commands: seq<Command>, d: Display) {
    || (exists i ::
          && LastChange(commands, d, i) && (forall j :: i <= j < |commands| ==> !Presents(commands[j], d))
          && exists j :: i <= j < |commands| && commands[j].display == d && commands[j].validateDisplay)
    || (was && forall j :: 0 <= j < |commands| ==> !Presents(commands[j], d) && !Brightens(commands[j], d))
  }

  lemma FaultlessCalls(c: Command, marked: bool, hal: Hal, n: nat)
    requires Faultless(hal)
    ensures Takes(Calls(c, marked, hal, n), c.display) <==> c.brightness
    ensures Commits(Calls(c, marked, hal, n), c.display) <==> c.presentDisplay || c.presentOrValidateDisplay
  {
    hide Shown;
    var d, b := c.display, n + c.lifecycle;
    var l := Brightness(c, hal, b);
    var x, y, z := Batches(d, c.lifecycle, hal, n), l, Sets(d, c.settings, hal, b + |l|);
    var w := Shown(c, marked, hal, b + |l| + c.settings);
    var calls := x + y + z + w;
    ShownOnlyShows(c, marked, hal, b + |l| + c.settings);
    FaultlessShown(c, marked, hal, b + |l| + c.settings);
    forall i | 0 <= i < |calls|
      ensures calls[i] == if i < |x| then x[i] else if i < |x| + |y| then y[i - |x|]
                          else if i < |x| + |y| + |z| then z[i - |x| - |y|] else w[i - |x| - |y| - |z|]
    {
    }
    if c.brightness {
      assert calls[|x|].Pends(d);
    }
    if k :| 0 <= k < |w| && w[k].Applies(d) {
      assert calls[|x| + |y| + |z| + k].Applies(d);
    }
    if k :| 0 <= k < |calls| && calls[k].Applies(d) {
      assert w[k - |x| - |y| - |z|].Applies(d);
    }
  }

  lemma FaultlessShown(c: Command, marked: bool, hal: Hal, n: nat)
    requires Faultless(hal)
    ensures Commits(Shown(c, marked, hal, n), c.display) <==> c.presentDisplay || c.presentOrValidateDisplay
  {
    var d, p := c.display, Plainly(c, hal, n);
    var w := Shown(c, marked, hal, n);
    if c.presentDisplay {
      assert p[|p| - 1].Applies(d) && w[|p| - 1] == p[|p| - 1];
    }
    if c.presentOrValidateDisplay {
      var q := PresentOrValidate(d, marked && !c.validateDisplay, hal, n + |p|);
      assert q[|q| - 1].Applies(d) && w[|p| + |q| - 1] == q[|q| - 1];
    }
  }

  /** What is left after a list of commands can be told from the commands alone. */
  lemma {:induction false} FaultlessLeft(was: bool, commands: seq<Command>, refreshes: nat -> seq<Display>, hal: Hal,
                                         log: seq<Event>, d: Display)
    requires Faultless(hal)
    ensures
      var n := |commands|;
      Left(was, commands, Turns(commands, refreshes, hal, log, n), n, d)
      <==> (was && forall j :: 0 <= j < n ==> !Presents(commands[j], d))
           || exists i :: 0 <= i < n && Brightens(commands[i], d) && forall j :: i <= j < n ==> !Presents(commands[j], d)
  {
    hide Takes, Commits, Calls, Stale, CallCount, Left;
    var n := |commands|;
    var turns := Turns(commands, refreshes, hal, log, n);
    LeftIff(was, commands, turns, n, d);
    forall j | 0 <= j < n && commands[j].display == d
      ensures Takes(turns[j].calls, d) <==> Brightens(commands[j], d)
      ensures Commits(turns[j].calls, d) <==> Presents(commands[j], d)
    {
      TurnIs(commands, refreshes, hal, log, n, j);
      var before := LogAfter(log, Turns(commands, refreshes, hal, log, j), j) + Requests(refreshes(j));
      FaultlessCalls(commands[j], Stale(before, d), hal, CallCount(before));
    }
    if i :| LeftBy(commands, turns, i, n, d) {
      assert Brightens(commands[i], d) && forall j :: i <= j < n ==> !Presents(commands[j], d);
    }
    if i :| 0 <= i < n && Brightens(commands[i], d) && forall j :: i <= j < n ==> !Presents(commands[j], d) {
      assert LeftBy(commands, turns, i, n, d);
    }
  }

  lemma {:induction false} TurnIs(commands: seq<Command>, refreshes: nat -> seq<Display>, hal: Hal, was: seq<Event>, n: nat, j: nat)
    requires j < n <= |commands|
    ensures
      var c, log := commands[j], LogAfter(was, Turns(commands, refreshes, hal, was, j), j) + Requests(refreshes(j));
      Turns(commands, refreshes, hal, was, n)[j].calls == Calls(c, Stale(log, c.display), hal, CallCount(log))
    decreases n
  {
    hide Calls, Stale, CallCount, LogAfter;
    if j < n - 1 {
      TurnIs(commands, refreshes, hal, was, n - 1, j);
    }
  }

  /** Changes that nothing brings into effect: left by the commands, and not flushed either. */
  lemma {:induction false} FaultlessStrands(was: bool, commands: seq<Command>, refreshes: nat -> seq<Display>, hal: Hal,
                                            log: seq<Event>, d: Display)
    requires Faultless(hal)
    ensures
      var n := |commands|;
      Left(was, commands, Turns(commands, refreshes, hal, log, n), n, d) && !(exists i :: Waits(commands, n, d, i))
      <==> Stranded(was, commands, d)
  {
    hide Left, Turns;
    var n := |commands|;
    FaultlessLeft(was, commands, refreshes, hal, log, d);
    WaitsBrightens(commands, n, d);
    if exists i :: 0 <= i < n && Brightens(commands[i], d) {
      var last := LastOne(commands, n, d);
      assert LastChange(commands, d, last);
      assert forall i :: LastChange(commands, d, i) ==> i == last;
      assert (exists i :: Waits(commands, n, d, i)) <==> Waits(commands, n, d, last) by {
        if i :| Waits(commands, n, d, i) {
          assert i <= last;
          assert i < last ==> !commands[last].Shows();
        }
      }
    } else {
      assert forall i :: 0 <= i < n ==> !Brightens(commands[i], d);
    }
  }

  lemma WaitsBrightens(commands: seq<Command>, n: nat, d: Display)
    requires n <= |commands|
    ensures forall i :: Waits(commands, n, d, i) ==> 0 <= i < n && Brightens(commands[i], d)
  {
  }

  lemma {:induction false} LastOne(commands: seq<Command>, n: nat, d: Display) returns (i: int)
    requires n <= |commands| && exists j :: 0 <= j < n && Brightens(commands[j], d)
    ensures 0 <= i < n && Brightens(commands[i], d) && forall j :: i < j < n ==> !Brightens(commands[j], d)
  {
    if Brightens(commands[n - 1], d) {
      i := n - 1;
    } else {
      i := LastOne(commands, n - 1, d);
    }
  }

  // ---------------------------------------------------------------- the engine

  class Engine {
    const hal: Hal
    var calls: nat
    var mustValidate: set<Display>
    var commandIndex: nat
    var writer: seq<Entry>
    ghost var log: seq<Event>

    /** Displays are marked exactly while a refresh waits for validation. */
    ghost predicate Valid()
      reads this`mustValidate, this`calls, this`log
    {
      && (forall d :: d in mustValidate <==> Stale(log, d)) && NeverStale(log)
      && calls == CallCount(log) && Answered(log, hal.fate)
    }

    constructor (hal: Hal)
      ensures Valid() && log == [] && writer == [] && mustValidate == {} && this.hal == hal
    {
      this.hal := hal;
      calls, mustValidate, commandIndex := 0, {}, 0;
      writer, log := [], [];
    }

    /** A refresh request from the HAL. */
    method OnRefresh(d: Display)
      requires Valid()
      modifies this`mustValidate, this`log
      ensures Valid() && log == old(log) + [Refresh(d)] && mustValidate == old(mustValidate) + {d}
    {
      hide Stale, NeverStale, CallCount, Answered;
      LogStep(log, Refresh(d));
      AnsweredStep(log, Refresh(d), hal.fate);
      mustValidate := mustValidate + {d};
      log := log + [Refresh(d)];
    }

    /** The calls made, and nothing else; the client is told of them, and `more`. */
    twostate predicate Did(part: seq<Event>, more: seq<Entry>)
      reads this`log, this`calls, this`writer, this`commandIndex
    {
      && log == old(log) + part && calls == old(calls) + |part| && commandIndex == old(commandIndex)
      && writer == old(writer) + Told(commandIndex, part) + more
    }

    /** A call that does not matter to the validation of displays. */
    method Call(ghost e: int -> Event) returns (err: int)
      requires Valid()
      requires forall r :: !e(r).Refresh? && !e(r).Validate? && !e(r).Present? && e(r).err == r
      modifies this`calls, this`log
      ensures Valid() && log == old(log) + [e(err)] && err == hal.fate(old(calls)) && calls == old(calls) + 1
    {
      hide Stale, NeverStale, CallCount, Answered;
      err := hal.fate(calls);
      calls := calls + 1;
      LogStep(log, e(err));
      AnsweredStep(log, e(err), hal.fate);
      log := log + [e(err)];
    }

    method SetError(err: int)
      modifies this`writer
      ensures writer == old(writer) + [Error(commandIndex, err)]
    {
      writer := writer + [Error(commandIndex, err)];
    }

    /** Presents, unless the HAL refuses. */
    method ExecutePresentDisplay(d: Display, ghost checked: bool) returns (err: int)
      requires Valid() && (checked ==> d !in mustValidate)
      modifies this`calls, this`log, this`writer
      ensures Valid() && err == hal.fate(old(calls)) && Did([Present(d, err, checked)], [])
    {
      hide Stale, NeverStale, CallCount, Answered;
      err := hal.fate(calls);
      calls := calls + 1;
      LogStep(log, Present(d, err, checked));
      AnsweredStep(log, Present(d, err, checked), hal.fate);
      log := log + [Present(d, err, checked)];
      ToldOne(commandIndex, Present(d, err, checked));
      if err == NO_ERROR {
        writer := writer + [Fences(d)];
      }
    }

    /** Validates; whatever comes of it, the display counts as validated. */
    method ExecuteValidateDisplayInternal(d: Display) returns (err: int)
      requires Valid()
      modifies this`calls, this`log, this`writer, this`mustValidate
      ensures Valid() && err == hal.fate(old(calls)) && Did([Validate(d, err)], []) && mustValidate == old(mustValidate) - {d}
    {
      hide Stale, NeverStale, CallCount, Answered;
      err := hal.fate(calls);
      calls := calls + 1;
      LogStep(log, Validate(d, err));
      AnsweredStep(log, Validate(d, err), hal.fate);
      log := log + [Validate(d, err)];
      mustValidate := mustValidate - {d};
      ToldOne(commandIndex, Validate(d, err));
      if err == NO_ERROR || err == HWC2_ERROR_HAS_CHANGES {
        writer := writer + [Changes(d)];
      } else {
        SetError(err);
      }
    }

    method ExecuteAcceptDisplayChanges(d: Display)
      requires Valid()
      modifies this`calls, this`log, this`writer
      ensures Valid() && Did([Accept(d, hal.fate(old(calls)))], [])
    {
      hide Stale, NeverStale, CallCount, Answered, Engine.Valid;
      var err := Call(r => Accept(d, r));
      ToldOne(commandIndex, Accept(d, err));
      if err != NO_ERROR {
        SetError(err);
      }
    }

    method SetResult(d: Display, presented: bool)
      modifies this`writer
      ensures writer == old(writer) + [PresentOrValidateResult(d, presented)]
    {
      writer := writer + [PresentOrValidateResult(d, presented)];
    }

    /** The expected present time; the HAL's answer does not matter. */
    method SetPresentTime(d: Display)
      requires Valid()
      modifies this`calls, this`log
      ensures Valid() && Did([PresentTime(d, hal.fate(old(calls)))], [])
    {
      hide Stale, NeverStale, CallCount, Answered, Engine.Valid;
      var err := Call(r => PresentTime(d, r));
      ToldOne(commandIndex, PresentTime(d, err));
    }

    method ExecutePresentOrValidateDisplay(d: Display)
      requires Valid()
      modifies this`calls, this`log, this`writer, this`mustValidate
      ensures var part := PresentOrValidate(d, d in old(mustValidate), hal, old(calls)); Valid() && Did(part, Outcome(d, part))
      ensures mustValidate == old(mustValidate) - {d}
    {
      hide Stale, NeverStale, CallCount, Answered, Engine.Valid, Told, Fallback;
      ghost var n, l, t := calls, log, writer;
      ghost var first := FirstTry(d, d in mustValidate, hal, n);
      var presentErr := PresentAsIs(d);
      if presentErr == NO_ERROR {
        SetResult(d, true);
        return;
      }
      ghost var l1, t1, rest := log, writer, Fallback(d, hal, calls);
      ValidateThenPresent(d);
      LastOfAll(first, rest);
      Onward(commandIndex, l, first, l1, rest, log, t, t1, writer, Outcome(d, rest));
    }

    /** A display that has to be validated counts as refused. */
    method PresentAsIs(d: Display) returns (presentErr: int)
      requires Valid()
      modifies this`calls, this`log, this`writer
      ensures Valid() && Did(FirstTry(d, d in mustValidate, hal, old(calls)), [])
      ensures presentErr == if d in mustValidate then EX_NOT_VALIDATED else hal.fate(old(calls) + 1)
    {
      hide Stale, NeverStale, CallCount, Answered, Engine.Valid, Told;
      ghost var n, l, t := calls, log, writer;
      SetPresentTime(d);
      presentErr := EX_NOT_VALIDATED;
      ghost var l1, t1, time := log, writer, [PresentTime(d, hal.fate(n))];
      if d in mustValidate {
        assert FirstTry(d, true, hal, n) == time;
      } else {
        presentErr := ExecutePresentDisplay(d, true);
        assert FirstTry(d, false, hal, n) == time + [Present(d, presentErr, true)];
        Onward(commandIndex, l, time, l1, [Present(d, presentErr, true)], log, t, t1, writer, []);
      }
    }

    /** The fallback of present-or-validate. */
    method ValidateThenPresent(d: Display)
      requires Valid()
      modifies this`calls, this`log, this`writer, this`mustValidate
      ensures var part := Fallback(d, hal, old(calls)); Valid() && Did(part, Outcome(d, part))
      ensures mustValidate == old(mustValidate) - {d}
    {
      hide Stale, NeverStale, CallCount, Answered, Engine.Valid, Told;
      ghost var part := Fallback(d, hal, calls);
      var validateErr := ExecuteValidateDisplayInternal(d);
      ghost var done := [Validate(d, validateErr)];
      assert validateErr != NO_ERROR ==> done == part;
      if validateErr != NO_ERROR && validateErr != HWC2_ERROR_HAS_CHANGES {
        return;
      }
      var cannotPresent := validateErr == HWC2_ERROR_HAS_CHANGES;
      if !cannotPresent {
        var n := calls;
        var err := Call(r => GetClientComposition(d, r));
        ToldConcat(commandIndex, done, [GetClientComposition(d, err)]);
        ToldOne(commandIndex, GetClientComposition(d, err));
        done := done + [GetClientComposition(d, err)];
        cannotPresent := err == NO_ERROR && hal.clientComposition(n);
      }
      if cannotPresent {
        assert done == part;
        SetResult(d, false);
        return;
      }
      ghost var rest := [Accept(d, hal.fate(calls)), Present(d, hal.fate(calls + 1), true)];
      assert part == done + rest && part[|part| - 1] == rest[1];
      ToldConcat(commandIndex, done, rest);
      AcceptAndPresent(d);
    }

    /** The second attempt, just after validation. */
    method AcceptAndPresent(d: Display)
      requires Valid() && d !in mustValidate
      modifies this`calls, this`log, this`writer
      ensures var err := hal.fate(old(calls) + 1);
              && Valid() && Did([Accept(d, hal.fate(old(calls))), Present(d, err, true)],
                                if err == NO_ERROR then [PresentOrValidateResult(d, true)] else [])
    {
      hide Stale, NeverStale, CallCount, Answered, Engine.Valid, Told;
      ghost var n := calls;
      ExecuteAcceptDisplayChanges(d);
      var presentErr := ExecutePresentDisplay(d, true);
      ToldConcat(commandIndex, [Accept(d, hal.fate(n))], [Present(d, presentErr, true)]);
      assert [Accept(d, hal.fate(n))] + [Present(d, presentErr, true)] == [Accept(d, hal.fate(n)), Present(d, presentErr, true)];
      if presentErr == NO_ERROR {
        SetResult(d, true);
      }
    }

    // ------------------------------------------------------------ commands

    method ExecuteValidateDisplay(d: Display)
      requires Valid()
      modifies this`calls, this`log, this`writer, this`mustValidate
      ensures Valid() && Did([PresentTime(d, hal.fate(old(calls))), Validate(d, hal.fate(old(calls) + 1))], [])
      ensures mustValidate == old(mustValidate) - {d}
    {
      hide Stale, NeverStale, CallCount, Answered, Engine.Valid, Told;
      SetPresentTime(d);
      ghost var done := [PresentTime(d, hal.fate(old(calls)))];
      var err := ExecuteValidateDisplayInternal(d);
      ToldConcat(commandIndex, done, [Validate(d, err)]);
      assert done + [Validate(d, err)] == [PresentTime(d, hal.fate(old(calls))), Validate(d, err)];
    }

    /** Hands a value to the HAL, or has it create or destroy a layer; an error is reported. */
    method Setting(ghost e: int -> Event) returns (err: int)
      requires Valid() && forall r :: (e(r).Set? || e(r).Batch? || e(r).SetBrightness?) && e(r).err == r
      modifies this`calls, this`log, this`writer
      ensures Valid() && err == hal.fate(old(calls)) && Did([e(err)], [])
    {
      hide Stale, NeverStale, CallCount, Answered, Engine.Valid;
      err := Call(e);
      ToldOne(commandIndex, e(err));
      if err != NO_ERROR {
        SetError(err);
      }
    }

    method ValidateIfAsked(c: Command)
      requires Valid()
      modifies this`calls, this`log, this`writer, this`mustValidate
      ensures Valid() && Did(Validation(c, hal, old(calls)), [])
      ensures mustValidate == if c.validateDisplay then old(mustValidate) - {c.display} else old(mustValidate)
    {
      hide Stale, NeverStale, CallCount, Answered, Engine.Valid;
      if c.validateDisplay {
        ExecuteValidateDisplay(c.display);
      }
    }

    method AcceptIfAsked(c: Command)
      requires Valid()
      modifies this`calls, this`log, this`writer
      ensures Valid() && Did(Acceptance(c, hal, old(calls)), [])
    {
      hide Stale, NeverStale, CallCount, Answered, Engine.Valid;
      if c.acceptDisplayChanges {
        ExecuteAcceptDisplayChanges(c.display);
      }
    }

    method PresentIfAsked(c: Command)
      requires Valid()
      modifies this`calls, this`log, this`writer
      ensures Valid() && Did(Presentation(c, hal, old(calls)), [])
    {
      hide Stale, NeverStale, CallCount, Answered, Engine.Valid;
      if c.presentDisplay {
        var _ := ExecutePresentDisplay(c.display, false);
      }
    }

    /** Validation, acceptance and plain presentation, as far as the command asks for them. */
    method ShowPlainly(c: Command)
      requires Valid()
      modifies this`calls, this`log, this`writer, this`mustValidate
      ensures Valid() && Did(Plainly(c, hal, old(calls)), [])
      ensures mustValidate == if c.validateDisplay then old(mustValidate) - {c.display} else old(mustValidate)
    {
      hide Stale, NeverStale, CallCount, Answered, Engine.Valid, Told, Validation, Acceptance, Presentation;
      ghost var n, l, t := calls, log, writer;
      ghost var v := Validation(c, hal, n);
      ghost var a := Acceptance(c, hal, n + |v|);
      ValidateIfAsked(c);
      ghost var l1, t1 := log, writer;
      AcceptIfAsked(c);
      Onward(commandIndex, l, v, l1, a, log, t, t1, writer, []);
      ghost var l2, t2 := log, writer;
      PresentIfAsked(c);
      Onward(commandIndex, l, v + a, l2, Presentation(c, hal, n + |v| + |a|), log, t, t2, writer, []);
    }

    /** The same, with present-or-validate after it all. */
    method ShowDisplay(c: Command)
      requires Valid()
      modifies this`calls, this`log, this`writer, this`mustValidate
      ensures var part := Shown(c, c.display in old(mustValidate), hal, old(calls));
              Valid() && Did(part, if c.presentOrValidateDisplay then Outcome(c.display, part) else [])
    {
      hide Stale, NeverStale, CallCount, Answered, Engine.Valid, Told, Plainly, PresentOrValidate;
      ghost var n, l, t, marked := calls, log, writer, c.display in mustValidate;
      ghost var p := Plainly(c, hal, n);
      ShowPlainly(c);
      if c.presentOrValidateDisplay {
        ghost var l1, t1 := log, writer;
        ghost var q := PresentOrValidate(c.display, marked && !c.validateDisplay, hal, n + |p|);
        ExecutePresentOrValidateDisplay(c.display);
        LastOfAll(p, q);
        Onward(commandIndex, l, p, l1, q, log, t, t1, writer, Outcome(c.display, q));
      } else {
        assert p + [] == p;
      }
    }

    method BrightenIfAsked(c: Command)
      requires Valid()
      modifies this`calls, this`log, this`writer
      ensures Valid() && Did(Brightness(c, hal, old(calls)), [])
    {
      hide Stale, NeverStale, CallCount, Answered, Engine.Valid;
      if c.brightness {
        ghost var effect := hal.effect(calls);
        var _ := Setting(r => SetBrightness(c.display, r, effect));
      }
    }

    /** Layers are created and destroyed. */
    method DispatchLifecycle(d: Display, count: nat)
      requires Valid()
      modifies this`calls, this`log, this`writer
      ensures Valid() && Did(Batches(d, count, hal, old(calls)), [])
    {
      hide Stale, NeverStale, CallCount, Answered, Engine.Valid, ToldOf;
      for i := 0 to count
        invariant Valid() && Did(Batches(d, i, hal, old(calls)), [])
      {
        var err := Setting(r => Batch(d, r));
        ToldConcat(commandIndex, Batches(d, i, hal, old(calls)), [Batch(d, err)]);
        assert Batches(d, i, hal, old(calls)) + [Batch(d, err)] == Batches(d, i + 1, hal, old(calls));
      }
    }

    /** Values are handed to the HAL. */
    method DispatchSettings(d: Display, count: nat)
      requires Valid()
      modifies this`calls, this`log, this`writer
      ensures Valid() && Did(Sets(d, count, hal, old(calls)), [])
    {
      hide Stale, NeverStale, CallCount, Answered, Engine.Valid, ToldOf;
      for i := 0 to count
        invariant Valid() && Did(Sets(d, i, hal, old(calls)), [])
      {
        var err := Setting(r => Set(d, r));
        ToldConcat(commandIndex, Sets(d, i, hal, old(calls)), [Set(d, err)]);
        assert Sets(d, i, hal, old(calls)) + [Set(d, err)] == Sets(d, i + 1, hal, old(calls));
      }
    }

    /** Layers first, then brightness, then whatever only sets values; then the display is shown. */
    method DispatchDisplayCommand(c: Command)
      requires Valid()
      modifies this`calls, this`log, this`writer, this`mustValidate
      ensures var part := Calls(c, c.display in old(mustValidate), hal, old(calls));
              && Valid() && log == old(log) + part && writer == old(writer) + ToldBy(commandIndex, c, part)
              && Dispatched(part, c)
    {
      hide Stale, NeverStale, CallCount, Answered, Engine.Valid, Batches, Sets, Shown, Told, Brightness, Dispatched;
      ghost var n, l, t, marked := calls, log, writer, c.display in mustValidate;
      ghost var x, y := Batches(c.display, c.lifecycle, hal, n), Brightness(c, hal, n + c.lifecycle);
      ghost var z := Sets(c.display, c.settings, hal, n + c.lifecycle + |y|);
      ghost var w := Shown(c, marked, hal, n + c.lifecycle + |y| + c.settings);
      DispatchLifecycle(c.display, c.lifecycle);
      ghost var l1, t1 := log, writer;
      BrightenIfAsked(c);
      Onward(commandIndex, l, x, l1, y, log, t, t1, writer, []);
      ghost var l2, t2 := log, writer;
      DispatchSettings(c.display, c.settings);
      Onward(commandIndex, l, x + y, l2, z, log, t, t2, writer, []);
      ghost var l3, t3 := log, writer;
      ShowDisplay(c);
      Onward(commandIndex, l, x + y + z, l3, w, log, t, t3, writer,
             if c.presentOrValidateDisplay then Outcome(c.display, w) else []);
      LastOfAll(x + y + z, w);
      CallsAreDispatched(c, marked, hal, n);
    }

    /** Refresh requests, one after the other. */
    method RefreshAll(displays: seq<Display>)
      requires Valid()
      modifies this`mustValidate, this`log
      ensures Valid() && log == old(log) + Requests(displays)
      ensures forall d <- displays :: d in mustValidate
    {
      hide Stale, NeverStale, CallCount, Answered, Engine.Valid;
      for i := 0 to |displays|
        invariant Valid() && log == old(log) + Requests(displays[..i])
        invariant forall d <- displays[..i] :: d in mustValidate
      {
        OnRefresh(displays[i]);
        assert Requests(displays[..i]) + [Refresh(displays[i])] == Requests(displays[..i + 1]);
      }
      assert displays[..|displays|] == displays;
    }

    /** The next turn, as the HAL's log so far determines it. */
    lemma NextTurn(commands: seq<Command>, refreshes: nat -> seq<Display>, was: seq<Event>, i: nat, before: seq<Event>)
      requires i < |commands|
      requires before == LogAfter(was, Turns(commands, refreshes, hal, was, i), i) + Requests(refreshes(i))
      ensures
        var turns, c := Turns(commands, refreshes, hal, was, i), commands[i];
        var next, part := Turns(commands, refreshes, hal, was, i + 1), Calls(c, Stale(before, c.display), hal, CallCount(before));
        && next == turns + [Turn(Requests(refreshes(i)), part)] && LogAfter(was, next, i + 1) == before + part
        && AllTold(commands, next, i + 1) == AllTold(commands, turns, i) + ToldBy(i, c, part)
    {
      hide Calls, Stale, CallCount, ToldBy, Requests;
      var turns, next := Turns(commands, refreshes, hal, was, i), Turns(commands, refreshes, hal, was, i + 1);
      LogAfterSame(was, turns, next, i);
      AllToldSame(commands, turns, next, i);
    }

    lemma MarkedIffStale(d: Display)
      requires Valid()
      ensures d in mustValidate <==> Stale(log, d)
      ensures calls == CallCount(log)
    {
    }

    /**
     Executes a list of commands, with refresh requests arriving before any of them; standalone
     brightness changes that no later command follows up are flushed at the end.
     */
    method Execute(commands: seq<Command>, refreshes: nat -> seq<Display>)
      returns (err: int, result: seq<Entry>, ghost flushed: seq<Display>)
      requires Valid()
      modifies this
      ensures
        var turns := Turns(commands, refreshes, hal, old(log), |commands|);
        && Valid() && Performed(commands, turns) && writer == [] && result == old(writer) + AllTold(commands, turns, |commands|)
        && Flushes(LogAfter(old(log), turns, |turns|), log, flushed, err)
        && forall x :: Unapplied(log, x)
                       <==> Left(Unapplied(old(log), x), commands, turns, |commands|, x) && !FlushedWell(flushed, err, x)
      ensures Ascending(flushed) && forall x <- flushed :: exists i :: Waits(commands, |commands|, x, i)
      ensures forall x :: (exists i :: Waits(commands, |commands|, x, i)) && x !in flushed
                          ==> err != NO_ERROR && forall y <- flushed :: y < x
      ensures Faultless(hal) ==>
                err == NO_ERROR && forall x :: Unapplied(log, x) <==> Stranded(Unapplied(old(log), x), commands, x)
    {
      hide Stale, NeverStale, CallCount, Answered, Engine.Valid, Unapplied, Waits, Left, Calls, Turns, LogAfter, AllTold, ToldBy;
      hide Requests, Stranded, Flushes, FlushedWell, Faultless;
      var pending: set<Display> := {};
      commandIndex := 0;
      ghost var was := log;
      NoTurns(commands, refreshes, hal, was);
      for i := 0 to |commands|
        invariant Valid() && commandIndex == i && pending == Pending(commands, i)
        invariant log == LogAfter(was, Turns(commands, refreshes, hal, was, i), i)
        invariant writer == old(writer) + AllTold(commands, Turns(commands, refreshes, hal, was, i), i)
      {
        RefreshAll(refreshes(i));
        MarkedIffStale(commands[i].display);
        NextTurn(commands, refreshes, was, i, log);
        DispatchDisplayCommand(commands[i]);
        commandIndex := commandIndex + 1;
        if commands[i].validateDisplay || commands[i].presentDisplay || commands[i].presentOrValidateDisplay {
          pending := pending - {commands[i].display};
        } else if commands[i].brightness {
          pending := pending + {commands[i].display};
        }
      }
      result := writer;
      writer := [];
      ghost var mid, turns := log, Turns(commands, refreshes, hal, was, |commands|);
      forall x ensures x in pending <==> exists i :: Waits(commands, |commands|, x, i) {
        PendingIffWaits(commands, |commands|, x);
      }
      TurnsPerformed(commands, refreshes, hal, was, |commands|);
      forall x ensures Unapplied(mid, x) <==> Left(Unapplied(was, x), commands, turns, |commands|, x) {
        PerformedEffect(was, commands, turns, |turns|, x);
      }
      err, flushed := FlushAll(pending);
      if Faultless(hal) {
        forall x ensures Unapplied(log, x) <==> Stranded(Unapplied(was, x), commands, x) {
          FaultlessStrands(Unapplied(was, x), commands, refreshes, hal, was, x);
          FlushedIsWell(flushed, x);
        }
      }
    }

    /** In ascending order, up to the first failure. */
    method FlushAll(displays: set<Display>) returns (err: int, ghost flushed: seq<Display>)
      requires Valid()
      modifies this`calls, this`log
      ensures Valid() && Flushes(old(log), log, flushed, err) && Ascending(flushed)
      ensures forall x <- flushed :: x in displays
      ensures forall x <- displays :: x !in flushed ==> err != NO_ERROR && forall y <- flushed :: y < x
      ensures forall x :: Unapplied(log, x) <==> Unapplied(old(log), x) && !FlushedWell(flushed, err, x)
      ensures Faultless(hal) ==> err == NO_ERROR
    {
      hide Stale, NeverStale, CallCount, Answered, Engine.Valid, Unapplied, Flushes, Ascending;
      NoneFlushed(log);
      var rest := displays;
      flushed := [];
      while rest != {}
        invariant rest <= displays && Valid() && Flushes(old(log), log, flushed, NO_ERROR) && Ascending(flushed)
        invariant forall x <- displays :: x in rest || x in flushed
        invariant forall x <- flushed :: x in displays && forall y <- rest :: x < y
        invariant forall x :: Unapplied(log, x) <==> Unapplied(old(log), x) && x !in flushed
        decreases rest
      {
        LeastExists(rest);
        var d :| d in rest && forall y <- rest :: d <= y;
        ghost var before := log;
        err := Call(r => FlushBrightness(d, r));
        FlushStep(before, d, err);
        FlushOne(old(log), before, flushed, d, err);
        flushed := flushed + [d];
        rest := rest - {d};
        if err != NO_ERROR {
          return;
        }
      }
      err := NO_ERROR;
    }

    /** A client's commands and the HAL's refresh requests, in any order. */
    method Serve(actions: seq<Action>)
      requires Valid()
      modifies this
      ensures Valid() && NeverStale(log)
    {
      hide Stale, CallCount, Answered, Turns, AllTold, LogAfter, Stranded;
      for i := 0 to |actions|
        invariant Valid()
      {
        match actions[i]
        case Refreshed(d) => OnRefresh(d);
        case Commands(commands, refreshes) => var _, _, _ := Execute(commands, refreshes);
      }
    }
  }

  datatype Action = Refreshed(display: Display) | Commands(commands: seq<Command>, refreshes: nat -> seq<Display>)

  ghost predicate Ascending(displays: seq<Display>) {
    forall i, j :: 0 <= i < j < |displays| ==> displays[i] < displays[j]
  }

  /** The events since the log was `was` flush these displays, in this order; the last flush returned `err`, the others none. */
  ghost predicate Flushes(was: seq<Event>, log: seq<Event>, displays: seq<Display>, err: int) {
    && was <= log && |log| == |was| + |displays|
    && (forall n :: |was| <= n < |log| ==>
          log[n] == FlushBrightness(displays[n - |was|], if n == |log| - 1 then err else NO_ERROR))
    && (displays == [] ==> err == NO_ERROR)
  }

  lemma {:induction false} LogAfterSame(was: seq<Event>, turns: seq<Turn>, more: seq<Turn>, n: nat)
    requires n <= |turns| && turns <= more
    ensures LogAfter(was, turns, n) == LogAfter(was, more, n)
  {
    if n > 0 {
      LogAfterSame(was, turns, more, n - 1);
    }
  }

  lemma NoneFlushed(log: seq<Event>)
    ensures Flushes(log, log, [], NO_ERROR) && Ascending([])
  {
  }

  lemma FlushOne(was: seq<Event>, log: seq<Event>, displays: seq<Display>, d: Display, err: int)
    requires Flushes(was, log, displays, NO_ERROR)
    ensures Flushes(was, log + [FlushBrightness(d, err)], displays + [d], err)
    ensures Ascending(displays) && (forall x <- displays :: x < d) ==> Ascending(displays + [d])
  {
    assert forall i :: 0 <= i < |displays| ==> displays[i] in displays;
  }

  /** Refresh requests do nothing to brightness changes. */
  lemma {:induction false} RefreshesKeep(log: seq<Event>, requests: seq<Event>, x: Display)
    requires AllRefresh(requests)
    ensures Unapplied(log + requests, x) <==> Unapplied(log, x)
  {
    if requests == [] {
      assert log + requests == log;
    } else {
      var n := |requests| - 1;
      assert (log + requests)[..|log| + n] == log + requests[..n];
      RefreshesKeep(log, requests[..n], x);
    }
  }

  lemma FlushStep(log: seq<Event>, d: Display, err: int)
    ensures forall x :: Unapplied(log + [FlushBrightness(d, err)], x) <==> Unapplied(log, x) && !(x == d && err == NO_ERROR)
  {
    var next := log + [FlushBrightness(d, err)];
    assert next[..|next| - 1] == log;
  }

  lemma {:induction false} LeastExists(s: set<Display>)
    requires s != {}
    ensures exists d :: d in s && forall y <- s :: d <= y
    decreases s
  {
    assert exists x :: x in s by {
      assert (forall x :: x !in s) ==> s == {};
    }
    var x :| x in s;
    if s != {x} {
      LeastExists(s - {x});
      var d :| d in s - {x} && forall y <- s - {x} :: d <= y;
      assert s == s - {x} + {x};
      var least := if d <= x then d else x;
      assert least in s && forall y <- s :: least <= y;
    }
  }

  lemma NoTurns(commands: seq<Command>, refreshes: nat -> seq<Display>, hal: Hal, was: seq<Event>)
    ensures Turns(commands, refreshes, hal, was, 0) == [] && LogAfter(was, [], 0) == was && AllTold(commands, [], 0) == []
  {
  }

  lemma ToldNone(index: nat)
    ensures Told(index, []) == []
  {
  }

  /** Whatever lies in front of them, the last of the calls is the same. */
  lemma LastOfAll(front: seq<Event>, calls: seq<Event>)
    ensures calls != [] ==> (front + calls)[|front + calls| - 1] == calls[|calls| - 1]
  {
  }

  lemma FlushedIsWell(flushed: seq<Display>, d: Display)
    ensures FlushedWell(flushed, NO_ERROR, d) <==> d in flushed
  {
  }

  /** A brightness change together with a validation: nothing fails, nothing is flushed, and the change is without effect. */
  method LeavesBrightness() returns (engine: Engine, err: int)
    ensures Faultless(engine.hal) && err == NO_ERROR && Unapplied(engine.log, 0)
  {
    hide Stale, NeverStale, Unapplied, Flushes, CallCount, Turns, LogAfter, AllTold, Left, Engine.Valid;
    engine := new Engine(Hal(_ => NO_ERROR, _ => false, _ => Deferred));
    var c := Command(0, 0, true, 0, true, false, false, false);
    NothingLogged(0);
    ghost var flushed;
    var result;
    err, result, flushed := engine.Execute([c], _ => []);
    assert LastChange([c], 0, 0) && [c][0].validateDisplay;
  }

  lemma NothingLogged(d: Display)
    ensures !Unapplied([], d)
  {
  }
}
