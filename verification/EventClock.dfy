/**
 The exact Q18 event clock: avionics releases every 8192 ticks, interleaved with
 physical deadlines. `Run` drives one clock the way the executors do and proves
 that releases and deadlines together tile time.
 */
module EventClock {
  import opened Arithmetic
  import opened Wrappers

  const PERIOD: int := 8192
  /** The first epoch whose release time no longer fits `i32`. */
  const EPOCH_LIMIT: int := 262_144

  datatype ExactClockError = NegativeTime | NonIncreasingDeadline | ReleasePending | TimeMismatch | EpochOverflow

  type Result<T> = Wrappers.Result<T, ExactClockError>

  datatype ExactSegment = ExactSegment(start: i32, end: i32, endsAtRelease: bool, endsAtDeadline: bool)

  class ExactEventClock {
    var epoch: u32
    var nextReleaseRaw: i32

    /** Holds until the first EpochOverflow. */
    ghost predicate InStep()
      reads this
    {
      nextReleaseRaw == epoch * PERIOD
    }

    constructor ()
      ensures epoch == 0 && nextReleaseRaw == 0 && InStep()
    {
      epoch, nextReleaseRaw := 0, 0;
    }

    predicate ReleaseDue(now: i32)
      reads this
    {
      now == nextReleaseRaw
    }

    /** A successful release moves the next one forward by one period. On
        overflow of the multiplication the epoch has already been counted. */
    method ConsumeRelease(now: i32) returns (r: Result<u32>)
      modifies this
      ensures now < 0 ==> r == Err(NegativeTime) && unchanged(this)
      ensures 0 <= now != old(nextReleaseRaw) ==> r == Err(TimeMismatch) && unchanged(this)
      ensures 0 <= now == old(nextReleaseRaw) && old(epoch) == MAX_U32 ==>
                r == Err(EpochOverflow) && unchanged(this)
      ensures 0 <= now == old(nextReleaseRaw) && EPOCH_LIMIT <= old(epoch) + 1 <= MAX_U32 ==>
                r == Err(EpochOverflow) && epoch == old(epoch) + 1 && nextReleaseRaw == old(nextReleaseRaw)
      ensures 0 <= now == old(nextReleaseRaw) && old(epoch) + 1 < EPOCH_LIMIT ==>
                r == Ok(old(epoch)) && epoch == old(epoch) + 1 && InStep()
    {
      if now < 0 {
        return Err(NegativeTime);
      }
      if now != nextReleaseRaw {
        return Err(TimeMismatch);
      }
      var released := epoch;
      if epoch + 1 > MAX_U32 {
        return Err(EpochOverflow);
      }
      epoch := epoch + 1;
      if epoch > MAX_I32 || epoch * PERIOD > MAX_I32 {
        return Err(EpochOverflow);
      }
      nextReleaseRaw := epoch * PERIOD;
      return Ok(released);
    }

    /** The segment up to whichever comes first, release or deadline. */
    method NextSegment(now: i32, deadline: i32) returns (r: Result<ExactSegment>)
      ensures now < 0 ==> r == Err(NegativeTime)
      ensures 0 <= now && deadline <= now ==> r == Err(NonIncreasingDeadline)
      ensures 0 <= now < deadline && now == nextReleaseRaw ==> r == Err(ReleasePending)
      ensures 0 <= now < deadline && nextReleaseRaw < now ==> r == Err(TimeMismatch)
      ensures 0 <= now < deadline && now < nextReleaseRaw ==>
                && r.Ok? && r.value.start == now
                && now < r.value.end <= deadline && r.value.end <= nextReleaseRaw
                && (r.value.end == deadline || r.value.end == nextReleaseRaw)
                && (r.value.endsAtRelease <==> r.value.end == nextReleaseRaw)
                && (r.value.endsAtDeadline <==> r.value.end == deadline)
    {
      if now < 0 {
        return Err(NegativeTime);
      }
      if deadline <= now {
        return Err(NonIncreasingDeadline);
      }
      if ReleaseDue(now) {
        return Err(ReleasePending);
      }
      var end := Min(deadline, nextReleaseRaw);
      if end <= now {
        return Err(TimeMismatch);
      }
      return Ok(ExactSegment(now, end, end == nextReleaseRaw, end == deadline));
    }
  }

  // ----- whole runs

  ghost predicate Increasing(deadlines: seq<i32>) {
    && (forall i :: 0 <= i < |deadlines| ==> 0 < deadlines[i])
    && (forall i, j :: 0 <= i < j < |deadlines| ==> deadlines[i] < deadlines[j])
  }

  predicate IsReleaseTime(t: int) {
    0 <= t && t % PERIOD == 0
  }

  /** No release and no deadline falls strictly inside the segment, and its
      flags say what it ends at. */
  ghost predicate Unbroken(s: ExactSegment, deadlines: seq<i32>) {
    && 0 <= s.start < s.end
    && (forall t: int :: s.start < t < s.end ==> !IsReleaseTime(t))
    && (forall j :: 0 <= j < |deadlines| ==> !(s.start < deadlines[j] < s.end))
    && (s.endsAtRelease <==> IsReleaseTime(s.end))
    && (s.endsAtDeadline <==> s.end in deadlines)
  }

  /** The segments cover [0, now] end to end. */
  ghost predicate Tiles(segments: seq<ExactSegment>, deadlines: seq<i32>, now: int) {
    && (segments == [] ==> now == 0)
    && (segments != [] ==> segments[0].start == 0 && segments[|segments| - 1].end == now)
    && (forall i :: 0 <= i < |segments| - 1 ==> segments[i].end == segments[i + 1].start)
    && (forall i :: 0 <= i < |segments| ==> Unbroken(segments[i], deadlines))
  }

  datatype Release = Release(epoch: u32, time: i32)

  /** Epoch k is released once, in turn, at 8192 * k. */
  ghost predicate ReleasedInTurn(releases: seq<Release>) {
    forall k :: 0 <= k < |releases| ==> releases[k].epoch == k && releases[k].time == k * PERIOD
  }

  /** The first `n` deadlines were each the end of a segment. */
  ghost predicate Met(segments: seq<ExactSegment>, deadlines: seq<i32>, n: nat)
    requires n <= |deadlines|
  {
    forall j :: 0 <= j < n ==> exists i :: 0 <= i < |segments| && segments[i].end == deadlines[j]
  }

  lemma {:induction false} ExtendTiling(segments: seq<ExactSegment>, deadlines: seq<i32>, now: int, s: ExactSegment,
                                        n: nat)
    requires Tiles(segments, deadlines, now) && Unbroken(s, deadlines) && s.start == now
    requires n <= |deadlines| && Met(segments, deadlines, n)
    ensures Tiles(segments + [s], deadlines, s.end)
    ensures Met(segments + [s], deadlines, n)
    ensures n < |deadlines| && s.end == deadlines[n] ==> Met(segments + [s], deadlines, n + 1)
  {
    var longer := segments + [s];
    forall j | 0 <= j < n
      ensures exists i :: 0 <= i < |longer| && longer[i].end == deadlines[j]
    {
      var i :| 0 <= i < |segments| && segments[i].end == deadlines[j];
      assert longer[i].end == deadlines[j];
    }
    assert longer[|segments|] == s;
  }

  /** A segment cut at the next release or the next deadline is unbroken. */
  lemma {:induction false} CutIsUnbroken(s: ExactSegment, deadlines: seq<i32>, n: nat, epoch: int)
    requires Increasing(deadlines) && n < |deadlines|
    requires n > 0 ==> deadlines[n - 1] <= s.start
    requires 0 <= s.start < s.end <= deadlines[n]
    requires 1 <= epoch && (epoch - 1) * PERIOD <= s.start && s.end <= epoch * PERIOD
    requires s.endsAtRelease <==> s.end == epoch * PERIOD
    requires s.endsAtDeadline <==> s.end == deadlines[n]
    ensures Unbroken(s, deadlines)
  {
    forall t: int | s.start < t <= s.end
      ensures IsReleaseTime(t) <==> t == epoch * PERIOD
    {
    }
    forall j | 0 <= j < |deadlines|
      ensures !(s.start < deadlines[j] < s.end)
      ensures deadlines[j] == s.end ==> j == n
    {
      if j < n {
        assert deadlines[j] <= deadlines[n - 1];
      } else if j > n {
        assert deadlines[n] < deadlines[j];
      }
    }
  }

  /** Alternates releases and segments over any increasing deadlines. The
      segments tile time, every release happens once and on time, no deadline
      is moved, and the only way to stop early is the first epoch overflow. */
  method Run(deadlines: seq<i32>)
    returns (segments: seq<ExactSegment>, releases: seq<Release>, now: i32, overflowed: bool)
    requires Increasing(deadlines)
    ensures Tiles(segments, deadlines, now)
    ensures ReleasedInTurn(releases)
    ensures (|releases| - 1) * PERIOD <= now <= |releases| * PERIOD
    ensures !overflowed ==> Met(segments, deadlines, |deadlines|)
    ensures !overflowed ==> now == if deadlines == [] then 0 else deadlines[|deadlines| - 1]
    ensures overflowed <==> deadlines != [] && deadlines[|deadlines| - 1] > (EPOCH_LIMIT - 1) * PERIOD
    ensures overflowed ==> |releases| == EPOCH_LIMIT - 1 && now == (EPOCH_LIMIT - 1) * PERIOD
  {
    hide Unbroken, Tiles, Met;
    var clock := new ExactEventClock();
    segments, releases, now, overflowed := [], [], 0, false;
    NothingYet(deadlines);
    var n := 0;
    while n < |deadlines|
      invariant n <= |deadlines|
      invariant fresh(clock) && clock.InStep() && clock.epoch < EPOCH_LIMIT
      invariant 0 <= now <= clock.nextReleaseRaw && clock.nextReleaseRaw - PERIOD <= now
      invariant n < |deadlines| ==> now < deadlines[n]
      invariant n > 0 ==> deadlines[n - 1] <= now
      invariant n == |deadlines| ==> now == if deadlines == [] then 0 else deadlines[|deadlines| - 1]
      invariant Tiles(segments, deadlines, now) && Met(segments, deadlines, n)
      invariant ReleasedInTurn(releases) && |releases| == clock.epoch
      decreases |deadlines| - n, if n < |deadlines| then deadlines[n] - now else 0, clock.ReleaseDue(now)
    {
      if clock.ReleaseDue(now) {
        var released := clock.ConsumeRelease(now);
        if released.Err? {
          assert deadlines[n] <= deadlines[|deadlines| - 1];
          overflowed := true;
          return;
        }
        releases := releases + [Release(released.value, now)];
      } else {
        var next := clock.NextSegment(now, deadlines[n]);
        var segment := next.value;
        CutIsUnbroken(segment, deadlines, n, clock.epoch);
        ExtendTiling(segments, deadlines, now, segment, n);
        segments := segments + [segment];
        now := segment.end;
        if segment.endsAtDeadline {
          n := n + 1;
        }
      }
    }
  }

  lemma {:induction false} NothingYet(deadlines: seq<i32>)
    ensures Tiles([], deadlines, 0) && Met([], deadlines, 0)
  {}
}
