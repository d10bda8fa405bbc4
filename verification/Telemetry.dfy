/**
 The telemetry emitter: accumulates event bits between frames and writes a
 frame at step 0, at every stride multiple and at the terminal step.
 */
module Telemetry {
  import opened Arithmetic
  import opened StagedVehicle

  datatype Observation = Observation(step: nat, vehicle: Vehicle, pitch: u16, events: set<Event>)

  datatype Frame = Frame(step: nat, events: set<Event>)

  /** Whether an observation is written out. */
  predicate Emits(o: Observation, stride: nat)
    requires stride > 0
  {
    o.step == 0 || o.step / stride * stride == o.step || End in o.events
  }

  class Emitter {
    const stride: nat
    var pending: set<Event>
    var framesWritten: nat
    var frames: seq<Frame>

    constructor (stride: nat)
      requires stride > 0
      ensures this.stride == stride && pending == {} && framesWritten == 0 && frames == []
    {
      this.stride := stride;
      pending, framesWritten, frames := {}, 0, [];
    }

    /** `accepts` says whether the sink takes this write. A refused frame keeps
        its events pending. */
    method Observe(o: Observation, accepts: bool) returns (ok: bool)
      requires stride > 0
      modifies this
      ensures !Emits(o, stride) ==>
                ok && pending == old(pending) + o.events && frames == old(frames) && framesWritten == old(framesWritten)
      ensures Emits(o, stride) && accepts ==>
                ok && pending == {} && framesWritten == old(framesWritten) + 1
                && frames == old(frames) + [Frame(o.step, old(pending) + o.events)]
      ensures Emits(o, stride) && !accepts ==>
                !ok && pending == old(pending) + o.events
                && frames == old(frames) && framesWritten == old(framesWritten)
    {
      pending := pending + o.events;
      ok := true;
      if o.step == 0 || (o.step / stride) * stride == o.step || End in o.events {
        if !accepts {
          return false;
        }
        frames := frames + [Frame(o.step, pending)];
        framesWritten := framesWritten + 1;
        pending := {};
      }
    }
  }

  // ----- whole runs

  /** Observations of consecutive steps from 0. */
  ghost predicate Consecutive(obs: seq<Observation>) {
    forall k :: 0 <= k < |obs| ==> obs[k].step == k
  }

  /** Events raised after the last frame strictly before step `j`, up to `j`. */
  function Since(obs: seq<Observation>, stride: nat, j: nat): set<Event>
    requires stride > 0 && j < |obs|
  {
    obs[j].events + (if j > 0 && !Emits(obs[j - 1], stride) then Since(obs, stride, j - 1) else {})
  }

  /** The frames a run should leave: one per emitting step, in order, each with
      the events since the previous one. */
  function ExpectedFrames(obs: seq<Observation>, stride: nat, n: nat): seq<Frame>
    requires stride > 0 && n <= |obs|
  {
    if n == 0 then []
    else
      ExpectedFrames(obs, stride, n - 1)
      + (if Emits(obs[n - 1], stride) then [Frame(obs[n - 1].step, Since(obs, stride, n - 1))] else [])
  }

  /** What is still pending after the first `n` observations. */
  function Unwritten(obs: seq<Observation>, stride: nat, n: nat): set<Event>
    requires stride > 0 && n <= |obs|
  {
    if n == 0 || Emits(obs[n - 1], stride) then {} else Since(obs, stride, n - 1)
  }

  /** A new emitter observes a whole run; its sink accepts every write. */
  method Feed(emitter: Emitter, obs: seq<Observation>)
    requires emitter.stride > 0 && emitter.pending == {} && emitter.framesWritten == 0 && emitter.frames == []
    modifies emitter
    ensures emitter.frames == ExpectedFrames(obs, emitter.stride, |obs|)
    ensures emitter.pending == Unwritten(obs, emitter.stride, |obs|)
    ensures emitter.framesWritten == |emitter.frames|
  {
    hide Emits;
    for n := 0 to |obs|
      invariant emitter.frames == ExpectedFrames(obs, emitter.stride, n)
      invariant emitter.pending == Unwritten(obs, emitter.stride, n)
      invariant emitter.framesWritten == |emitter.frames|
    {
      assert Unwritten(obs, emitter.stride, n) + obs[n].events == Since(obs, emitter.stride, n);
      var ok := emitter.Observe(obs[n], true);
    }
  }

  /** The frames of a whole run, and what it leaves pending. */
  method EmitAll(obs: seq<Observation>, stride: nat) returns (frames: seq<Frame>, pending: set<Event>)
    requires stride > 0
    ensures frames == ExpectedFrames(obs, stride, |obs|)
    ensures pending == Unwritten(obs, stride, |obs|)
  {
    var emitter := new Emitter(stride);
    Feed(emitter, obs);
    return emitter.frames, emitter.pending;
  }

  /** Frames come in step order, and there is one for a step exactly when that
      step emits; it carries the events since the previous frame. */
  lemma {:induction false} FramesAtEmittingSteps(obs: seq<Observation>, stride: nat, n: nat)
    requires stride > 0 && Consecutive(obs) && n <= |obs|
    ensures var frames := ExpectedFrames(obs, stride, n);
            && (forall i :: 0 <= i < |frames| ==>
                  frames[i].step < n && Emits(obs[frames[i].step], stride)
                  && frames[i].events == Since(obs, stride, frames[i].step))
            && (forall i, k :: 0 <= i < k < |frames| ==> frames[i].step < frames[k].step)
            && (forall j :: 0 <= j < n && Emits(obs[j], stride) ==> Frame(j, Since(obs, stride, j)) in frames)
  {
    hide Emits, Since;
    if n > 0 {
      FramesAtEmittingSteps(obs, stride, n - 1);
      var earlier, frames := ExpectedFrames(obs, stride, n - 1), ExpectedFrames(obs, stride, n);
      forall j | 0 <= j < n && Emits(obs[j], stride)
        ensures Frame(j, Since(obs, stride, j)) in frames
      {
        if j < n - 1 {
          assert Frame(j, Since(obs, stride, j)) in earlier;
        } else {
          assert frames[|frames| - 1] == Frame(j, Since(obs, stride, j));
        }
      }
    }
  }

  /** So a step has a frame exactly when it is a multiple of the stride or the
      last step of the mission. */
  lemma {:induction false} FrameExactly(obs: seq<Observation>, stride: nat, j: nat)
    requires stride > 0 && Consecutive(obs) && j < |obs|
    ensures (exists i :: 0 <= i < |ExpectedFrames(obs, stride, |obs|)|
                         && ExpectedFrames(obs, stride, |obs|)[i].step == j)
       <==> j % stride == 0 || End in obs[j].events
  {
    hide ExpectedFrames, Since;
    FramesAtEmittingSteps(obs, stride, |obs|);
    MultipleByDivision(j, stride);
    assert obs[j].step == j;
    var frames := ExpectedFrames(obs, stride, |obs|);
    if Emits(obs[j], stride) {
      var i :| 0 <= i < |frames| && frames[i] == Frame(j, Since(obs, stride, j));
      assert frames[i].step == j;
    }
  }

  lemma {:induction false} MultipleByDivision(n: nat, d: nat)
    requires d > 0
    ensures n / d * d == n <==> n % d == 0
  {
    assert n == n / d * d + n % d;
  }

  /** An event raised at step `k` is carried by the first frame at or after
      `k`, wherever that is. */
  lemma {:induction false} EventReachesNextFrame(obs: seq<Observation>, stride: nat, k: nat, j: nat, e: Event)
    requires stride > 0 && k <= j < |obs| && e in obs[k].events
    requires forall i :: k <= i < j ==> !Emits(obs[i], stride)
    ensures e in Since(obs, stride, j)
    decreases j
  {
    if k < j {
      EventReachesNextFrame(obs, stride, k, j - 1, e);
    }
  }

  /** And a frame carries nothing that was not raised since the one before. */
  lemma {:induction false} FrameEventsWereRaised(obs: seq<Observation>, stride: nat, j: nat, e: Event) returns (k: nat)
    requires stride > 0 && j < |obs| && e in Since(obs, stride, j)
    ensures k <= j && e in obs[k].events && forall i :: k <= i < j ==> !Emits(obs[i], stride)
    decreases j
  {
    if e in obs[j].events {
      k := j;
    } else {
      k := FrameEventsWereRaised(obs, stride, j - 1, e);
    }
  }

  /** A run that ends in End leaves nothing pending: every raised event is in
      exactly the first frame at or after its step. */
  lemma {:induction false} NoEventLost(obs: seq<Observation>, stride: nat, k: nat, e: Event) returns (j: nat)
    requires stride > 0 && Consecutive(obs) && k < |obs| && e in obs[k].events
    requires End in obs[|obs| - 1].events
    ensures k <= j < |obs| && Emits(obs[j], stride) && (forall i :: k <= i < j ==> !Emits(obs[i], stride))
    ensures Frame(j, Since(obs, stride, j)) in ExpectedFrames(obs, stride, |obs|)
    ensures e in Since(obs, stride, j) && Unwritten(obs, stride, |obs|) == {}
  {
    hide ExpectedFrames, Since;
    j := k;
    while !Emits(obs[j], stride)
      invariant k <= j < |obs|
      invariant forall i :: k <= i < j ==> !Emits(obs[i], stride)
      decreases |obs| - j
    {
      j := j + 1;
    }
    EventReachesNextFrame(obs, stride, k, j, e);
    FramesAtEmittingSteps(obs, stride, |obs|);
  }
}
