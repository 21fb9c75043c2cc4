/** The buffer rings of the G-Scaler's output and capture modes, over a driver that works first in, first out. */
module GscRing {

  const MAX_BUFFERS_OUT := 10
  const MAX_BUFFERS_CAP := 1
  const MAX_RETRIES := 10

  /** What a request to the driver may come to. */
  datatype Answer = Done | Again | Failed

  /** The number of the buffer that is `k` places behind the oldest of `count` outstanding ones. */
  function Slot(next: nat, count: nat, k: nat, max: nat): int {
    var v := next - count + k;
    if v < 0 then v + max else v
  }

  lemma NextIndex(i: nat, max: nat)
    requires i < max
    ensures (i + 1) % max == if i + 1 == max then 0 else i + 1
  {
  }

  /** The last of up to `retries + 1` requests from the `n`-th on: the first that is not to be tried again. */
  function LastTry(answers: nat -> Answer, n: nat, retries: nat): (k: nat)
    ensures n <= k <= n + retries
    decreases retries
  {
    if retries == 0 || answers(n) != Again then n else LastTry(answers, n + 1, retries - 1)
  }

  lemma {:induction false} LastTryIs(answers: nat -> Answer, n: nat, retries: nat, k: nat)
    requires n <= k <= n + retries && (forall i: nat :: n <= i < k ==> answers(i) == Again)
    requires k == n + retries || answers(k) != Again
    ensures LastTry(answers, n, retries) == k
    decreases retries
  {
    if n < k {
      LastTryIs(answers, n + 1, retries - 1, k);
    }
  }

  class Ring {
    const max: nat
    const answers: nat -> Answer   // the answer to the n-th request
    var requests: nat
    var bufIdx: nat                // the buffer to be queued next
    var qbufCnt: nat
    var streamOn: bool
    ghost var outstanding: seq<nat>  // what the driver holds, oldest first

    /** The counters say exactly which buffers the driver holds. */
    ghost predicate InStep()
      reads this
    {
      && qbufCnt == |outstanding| <= max && bufIdx < max
      && forall k :: 0 <= k < qbufCnt ==> outstanding[k] == Slot(bufIdx, qbufCnt, k, max)
    }

    constructor (max: nat, answers: nat -> Answer)
      requires max > 0
      ensures InStep() && this.max == max && this.answers == answers && requests == 0
      ensures outstanding == [] && bufIdx == 0 && !streamOn
    {
      this.max, this.answers := max, answers;
      requests, bufIdx, qbufCnt, streamOn := 0, 0, 0, false;
      outstanding := [];
    }

    /** No buffer is outstanding twice, and the next one is not outstanding unless all are. */
    lemma Distinct()
      requires InStep()
      ensures forall j, k :: 0 <= j < k < |outstanding| ==> outstanding[j] != outstanding[k]
      ensures qbufCnt < max ==> bufIdx !in outstanding
      ensures qbufCnt == max ==> outstanding[0] == bufIdx
      ensures forall k :: 0 <= k < |outstanding| ==> outstanding[k] < max
    {
    }

    method Ask() returns (a: Answer)
      modifies this`requests
      ensures requests == old(requests) + 1 && a == answers(old(requests))
    {
      a := answers(requests);
      requests := requests + 1;
    }

    /** The driver takes a buffer that it does not hold. */
    method QueueBuffer(index: nat) returns (a: Answer)
      requires index < max && index !in outstanding
      modifies this`requests, this`outstanding
      ensures requests == old(requests) + 1 && a == answers(old(requests))
      ensures outstanding == if a.Done? then old(outstanding) + [index] else old(outstanding)
    {
      a := Ask();
      if a.Done? {
        outstanding := outstanding + [index];
      }
    }

    /** The driver gives back the oldest buffer. */
    method DequeueBuffer() returns (a: Answer)
      requires outstanding != []
      modifies this`requests, this`outstanding
      ensures requests == old(requests) + 1 && a == answers(old(requests))
      ensures outstanding == if a.Done? then old(outstanding)[1..] else old(outstanding)
    {
      a := Ask();
      if a.Done? {
        outstanding := outstanding[1..];
      }
    }

    /** Takes the oldest buffer back, trying again while the driver says so, but not for ever. */
    method TakeOldest(retries: nat) returns (ok: bool)
      requires InStep() && qbufCnt == max
      modifies this`requests, this`outstanding, this`qbufCnt
      ensures InStep()
      ensures old(requests) < requests <= old(requests) + retries + 1
      ensures requests == LastTry(answers, old(requests), retries) + 1
      ensures forall n :: old(requests) <= n < requests - 1 ==> answers(n) == Again
      ensures ok <==> answers(requests - 1) == Done
      ensures !ok && requests <= old(requests) + retries ==> answers(requests - 1) == Failed
      ensures outstanding == if ok then old(outstanding)[1..] else old(outstanding)
    {
      var tried := 0;
      var a := DequeueBuffer();
      while a == Again && tried < retries
        invariant tried <= retries && requests == old(requests) + tried + 1
        invariant forall n :: old(requests) <= n < requests - 1 ==> answers(n) == Again
        invariant a == answers(requests - 1) && qbufCnt == old(qbufCnt)
        invariant outstanding == if a.Done? then old(outstanding)[1..] else old(outstanding)
      {
        tried := tried + 1;
        a := DequeueBuffer();
      }
      LastTryIs(answers, old(requests), retries, requests - 1);
      if a != Done {
        return false;
      }
      qbufCnt := qbufCnt - 1;
      return true;
    }

    method QueueNext() returns (ok: bool)
      requires InStep() && qbufCnt < max
      modifies this`requests, this`outstanding, this`qbufCnt, this`bufIdx
      ensures InStep() && requests == old(requests) + 1 && ok == (answers(old(requests)) == Done)
      ensures outstanding == if ok then old(outstanding) + [old(bufIdx)] else old(outstanding)
    {
      Distinct();
      var a := QueueBuffer(bufIdx);
      if a != Done {
        return false;
      }
      NextIndex(bufIdx, max);
      bufIdx := bufIdx + 1;
      bufIdx := bufIdx % max;
      qbufCnt := qbufCnt + 1;
      return true;
    }

    /** The outstanding buffers once there is room for another one. */
    ghost function Room(): seq<nat>
      reads this`outstanding, this`qbufCnt
    {
      if qbufCnt == max && outstanding != [] then outstanding[1..] else outstanding
    }

    /** The oldest buffer of a full ring comes back within the tries allowed. */
    predicate MakesRoom(retries: nat)
      reads this`requests, this`qbufCnt
    {
      qbufCnt == max ==> answers(LastTry(answers, requests, retries)) == Done
    }

    /** The request that queues the next buffer, once there is room. */
    function QueueRequest(retries: nat): nat
      reads this`requests, this`qbufCnt
    {
      if qbufCnt == max then LastTry(answers, requests, retries) + 1 else requests
    }

    /** Queues the next buffer, after making room for it if the driver holds them all, and starts streaming. */
    method Run(retries: nat, sizesKnown: bool) returns (ok: bool)
      requires InStep()
      modifies this`requests, this`outstanding, this`qbufCnt, this`bufIdx, this`streamOn
      ensures InStep() && old(requests) <= requests <= old(requests) + retries + 3
      ensures var n := old(QueueRequest(retries));
              ok <==> old(MakesRoom(retries)) && sizesKnown && answers(n) == Done && (old(streamOn) || answers(n + 1) == Done)
      ensures outstanding == if !old(MakesRoom(retries)) then old(outstanding)
                             else if sizesKnown && answers(old(QueueRequest(retries))) == Done then old(Room()) + [old(bufIdx)]
                             else old(Room())
      ensures streamOn == (old(streamOn) || ok)
    {
      hide Slot;
      if qbufCnt == max {
        ok := TakeOldest(retries);
        if !ok {
          return false;
        }
      }
      if !sizesKnown {
        return false;
      }
      ok := QueueNext();
      if !ok {
        return false;
      }
      if !streamOn {
        var b := Ask();
        if b != Done {
          return false;
        }
        streamOn := true;
      }
      return true;
    }

    /**
     A new configuration before streaming. The counters start again before the driver has let go of the
     buffers, so ring and driver stay in step whatever it answers if and only if none was counted before:
     one may be, after a buffer has been queued and streaming could not be started.
     */
    method Configure(sizesFit: bool, accepted: bool) returns (ok: bool)
      requires InStep()
      modifies this`requests, this`outstanding, this`qbufCnt, this`bufIdx
      ensures ok <==> !old(streamOn) && sizesFit && accepted && answers(old(requests)) == Done
      ensures InStep() <==> ok || old(streamOn) || !sizesFit || old(qbufCnt) == 0
      ensures outstanding == if ok then [] else old(outstanding)
      ensures old(streamOn) || !sizesFit ==> bufIdx == old(bufIdx) && qbufCnt == old(qbufCnt) && requests == old(requests)
      ensures !old(streamOn) && sizesFit ==> bufIdx == qbufCnt == 0
      ensures streamOn == old(streamOn) && old(requests) <= requests <= old(requests) + 1
    {
      if streamOn {
        return false;
      }
      if !sizesFit {
        return false;
      }
      bufIdx := 0;
      qbufCnt := 0;
      if !accepted {
        return false;
      }
      var a := Ask();
      if a != Done {
        return false;
      }
      outstanding := [];
      return true;
    }

    /** A configuration that may lose track of a buffer. */
    predicate Risks(step: Step)
      reads this`streamOn, this`qbufCnt
    {
      step.Configure? && step.sizesFit && !streamOn && qbufCnt > 0
    }

    /** The driver grants every request from now on. */
    ghost predicate Willing()
      reads this`requests
    {
      forall n :: n >= requests ==> answers(n) == Done
    }

    /**
     Any number of runs and configurations, whatever fails in them: the ring gets out of step with the driver
     only by a failing configuration while a buffer is outstanding. `done` counts the steps up to there, and
     with a driver that grants everything all runs succeed.
     */
    method RunAll(retries: nat, steps: seq<Step>) returns (done: nat, allRan: bool)
      requires InStep()
      modifies this`requests, this`outstanding, this`qbufCnt, this`bufIdx, this`streamOn
      ensures done <= |steps| && (done == |steps| <==> InStep())
      ensures InStep() ==> forall j, k :: 0 <= j < k < |outstanding| ==> outstanding[j] != outstanding[k]
      ensures done < |steps| ==> steps[done].Configure? && steps[done].sizesFit && !streamOn && qbufCnt == 0 < |outstanding|
      ensures (forall i :: 0 <= i < |steps| ==> steps[i].Run?) ==> InStep()
      ensures old(Willing()) && (forall i :: 0 <= i < |steps| && steps[i].Run? ==> steps[i].sizesKnown) ==> allRan
      ensures |outstanding| <= max && requests <= old(requests) + |steps| * (retries + 3)
    {
      allRan := true;
      for i := 0 to |steps|
        invariant InStep() && old(requests) <= requests <= old(requests) + i * (retries + 3)
        invariant old(Willing()) && (forall j :: 0 <= j < |steps| && steps[j].Run? ==> steps[j].sizesKnown) ==> allRan
      {
        MoreSteps(i, |steps|, retries + 3);
        match steps[i]
        case Run(sizesKnown) =>
          var ok := Run(retries, sizesKnown);
          allRan := allRan && ok;
        case Configure(sizesFit, accepted) =>
          var risky := Risks(steps[i]);
          var ok := Configure(sizesFit, accepted);
          if risky && !ok {
            return i, allRan;
          }
      }
      Distinct();
      return |steps|, allRan;
    }
  }

  lemma MoreSteps(i: nat, n: nat, c: nat)
    requires i < n
    ensures i * c + c == (i + 1) * c <= n * c
  {
    assert n * c == (i + 1) * c + (n - i - 1) * c;
  }

  datatype Step = Run(sizesKnown: bool) | Configure(sizesFit: bool, accepted: bool)

  /**
   The ring of the output mode holds ten buffers and asks again for a busy one; that of the capture mode neither,
   and its configuration is not part of this model.
   */
  method UseBoth(answers: nat -> Answer, output: seq<Step>, capture: seq<bool>) returns (src: Ring, dst: Ring, done: nat)
    ensures done <= |output| && (done == |output| <==> src.InStep()) && |src.outstanding| <= 10
    ensures dst.InStep() && |dst.outstanding| <= 1 && src.max == 10 && dst.max == 1
    ensures src.requests <= 13 * |output| && dst.requests <= 3 * |capture|
  {
    src := new Ring(MAX_BUFFERS_OUT, answers);
    var ran;
    done, ran := src.RunAll(MAX_RETRIES, output);
    dst := new Ring(MAX_BUFFERS_CAP, answers);
    var _, _ := dst.RunAll(0, seq(|capture|, i requires 0 <= i < |capture| => Run(capture[i])));
  }

  /**
   The first buffer is queued but streaming cannot be started; then a configuration fails. The ring
   believes that nothing is outstanding.
   */
  method LosesTrack() returns (ring: Ring)
    ensures !ring.InStep() && ring.qbufCnt == 0 && ring.outstanding == [0]
  {
    ring := new Ring(MAX_BUFFERS_OUT, n => if n == 0 then Done else Failed);
    var _ := ring.Run(MAX_RETRIES, true);
    var ok := ring.Configure(true, false);
  }

  /** Slots of a ring: consecutive places are consecutive numbers, round the ring. */
  lemma SlotsAreCyclic(next: nat, count: nat, k: nat, max: nat)
    requires next < max && count <= max && k < count
    ensures 0 <= Slot(next, count, k, max) < max
    ensures k + 1 < count ==> Slot(next, count, k + 1, max) == (Slot(next, count, k, max) + 1) % max
    ensures k + 1 == count ==> next == (Slot(next, count, k, max) + 1) % max
  {
    NextIndex(Slot(next, count, k, max), max);
  }
}
