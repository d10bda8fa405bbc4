/**
 The four-surface canard actuator: command lag through an eight-slot ring, slew
 and travel limits, faults, and hinge-load limiting fed back from the surface
 evaluation.
 */
module Canards {
  import opened Arithmetic
  import opened Numeric
  import opened TwoWord
  import opened Effectors
  import opened Wrappers

  const RING: nat := 8

  datatype Fault = Healthy | JamAtCurrent | FailNeutral | HardoverPositive | HardoverNegative

  datatype CanardError = InvalidPack | ModelEnvelopeExceeded | Numeric

  type Result<T> = Wrappers.Result<T, CanardError>

  // ----- one surface as a value

  datatype RawSurface = RawSurface(applied: i16, ring: seq<i16>)

  type Surface = s: RawSurface | |s.ring| == RING witness RawSurface(0, seq(RING, _ => 0))

  function Limited(request: int, c: Canard): i16
    requires c.limit > 0
  {
    Clamp(request, -c.limit as int, c.limit)
  }

  /** Where a surface is heading, once the ring holds the new request. */
  function Target(ring: seq<i16>, cursor: nat, applied: i16, c: Canard, fault: Fault): i16
    requires |ring| == RING && c.IsValid()
  {
    match fault
    case Healthy => ring[(cursor + 8 - c.lag) % RING]
    case JamAtCurrent => applied
    case FailNeutral => 0
    case HardoverPositive => c.limit
    case HardoverNegative => 0 - c.limit
  }

  /** One release: store the clamped request, then move toward the target by
      at most the slew. */
  function Released(s: Surface, cursor: nat, request: i16, c: Canard, fault: Fault): Surface
    requires c.IsValid() && cursor < RING
  {
    var ring := s.ring[cursor := Limited(request, c)];
    RawSurface(Slewed(s.applied, Target(ring, cursor, s.applied, c, fault), c), ring)
  }

  function Slewed(applied: i16, target: i16, c: Canard): i16
    requires c.IsValid()
  {
    applied + Clamp(target - applied, -c.slew as int, c.slew)
  }

  /** Where each fault sends a surface; a healthy one follows the slot of its
      lag, which is the request just stored for lags 0 and 8. */
  function Goal(s: Surface, cursor: nat, stored: int, c: Canard, fault: Fault): int
    requires cursor < RING && c.lag <= 8
  {
    match fault
    case Healthy => if c.lag % 8 == 0 then stored else s.ring[(cursor + 8 - c.lag) % 8]
    case JamAtCurrent => s.applied
    case FailNeutral => 0
    case HardoverPositive => c.limit
    case HardoverNegative => 0 - c.limit
  }

  /** A release stores the request clamped to the travel, and takes the surface
      to its goal if that is within one slew, else one slew toward it. */
  lemma {:induction false} ReleaseMeans(s: Surface, cursor: nat, request: i16, c: Canard, fault: Fault)
    requires c.IsValid() && cursor < RING
    ensures var n, stored := Released(s, cursor, request, c, fault), Min(Max(request, 0 - c.limit), c.limit);
            var goal := Goal(s, cursor, stored, c, fault);
            && n.ring == s.ring[cursor := stored]
            && n.applied == if Abs(goal - s.applied) <= c.slew then goal
                            else if goal > s.applied then s.applied + c.slew else s.applied - c.slew
  {}

  ghost predicate Bounded(s: Surface, c: Canard) {
    Abs(s.applied) <= c.limit && BoundedRing(s.ring, c)
  }

  predicate BoundedRing(ring: seq<i16>, c: Canard) {
    forall i :: 0 <= i < |ring| ==> Abs(ring[i]) <= c.limit
  }

  // ----- load limiting

  /** The deflection left after hinge-load limiting. */
  function EffectiveTurn(turn: i16, c: Canard, hinge: nat, hingeLimit: nat): int
    requires c.limit > 0
  {
    var requested := Limited(turn, c);
    if hinge > hingeLimit then
      RoundHalfAway(requested * Clamp(RoundHalfAway(hingeLimit * Pow2(30), hinge), 0, Pow2(30)), Pow2(30))
    else requested
  }

  /** Limiting never enlarges or reverses a deflection. */
  lemma {:induction false} EffectiveTurnShrinks(turn: i16, c: Canard, hinge: nat, hingeLimit: nat)
    requires c.limit > 0
    ensures var e, r := EffectiveTurn(turn, c, hinge, hingeLimit), Limited(turn, c);
            && Abs(e) <= Abs(r) <= c.limit
            && (0 <= r ==> 0 <= e <= r)
            && (r <= 0 ==> r <= e <= 0)
  {
    hide Pow2, RoundHalfAway;
    if hinge > hingeLimit {
      FractionOf(Limited(turn, c), Clamp(RoundHalfAway(hingeLimit * Pow2(30), hinge), 0, Pow2(30)), Pow2(30));
    }
  }

  /** Within its hinge limit a surface takes the request clamped to its travel.
      Beyond it, the part of that request that the limit is of the hinge moment,
      off by at most half a unit and half a 2^-15th. */
  ghost predicate LoadShared(turn: int, travel: int, hinge: int, hingeLimit: int, effective: int) {
    var request := Min(Max(turn, -travel), travel);
    if hinge > hingeLimit then 0x1_0000 * Abs(effective * hinge - request * hingeLimit) <= 0x8001 * hinge
    else effective == request
  }

  lemma {:induction false} LoadIsShared(turn: i16, c: Canard, hinge: nat, hingeLimit: nat)
    requires c.limit > 0
    ensures LoadShared(turn, c.limit, hinge, hingeLimit, EffectiveTurn(turn, c, hinge, hingeLimit))
  {
    hide RoundHalfAway;
    OneQ30();
    if hinge > hingeLimit {
      var r, ratio := Limited(turn, c), RoundHalfAway(hingeLimit * Pow2(30), hinge);
      RoundHalfAwayIsNearest(hingeLimit * Pow2(30), hinge);
      MulMonotone(0, hingeLimit, Pow2(30));
      MulMonotone(hingeLimit, hinge, Pow2(30));
      RoundBetween(0, hingeLimit * Pow2(30), Pow2(30), hinge);
      var e := RoundHalfAway(r * ratio, Pow2(30));
      RoundHalfAwayIsNearest(r * ratio, Pow2(30));
      ShareError(e, r, ratio, hinge, hingeLimit);
    }
  }

  /** A rounded product of a rounded ratio, against the exact product. */
  lemma {:induction false} ShareError(e: int, r: int, ratio: int, hinge: nat, hingeLimit: int)
    requires Abs(r) <= 0x8000 && 2 * Abs(hingeLimit * 0x4000_0000 - ratio * hinge) <= hinge
    requires 2 * Abs(r * ratio - e * 0x4000_0000) <= 0x4000_0000
    ensures 0x1_0000 * Abs(e * hinge - r * hingeLimit) <= 0x8001 * hinge
  {
    var ratioError, productError := hingeLimit * 0x4000_0000 - ratio * hinge, r * ratio - e * 0x4000_0000;
    ErrorsAdd(e, r, ratio, hinge, hingeLimit);
    ProductSize(productError, hinge, 0x2000_0000);
    ProductSize(2 * ratioError, r, hinge);
    MulMonotone(Abs(r), 0x8000, hinge);
    Doubled(ratioError, r);
  }

  lemma {:induction false} Doubled(a: int, b: int)
    ensures 2 * a * b == 2 * (a * b)
  {}

  lemma {:induction false} ErrorsAdd(e: int, r: int, ratio: int, hinge: int, hingeLimit: int)
    ensures 0x4000_0000 * (e * hinge - r * hingeLimit)
         == 0 - (r * ratio - e * 0x4000_0000) * hinge - (hingeLimit * 0x4000_0000 - ratio * hinge) * r
  {
    var product, part, share := r * ratio, e * hinge, r * hingeLimit;
    assert (product - e * 0x4000_0000) * hinge == product * hinge - 0x4000_0000 * part;
    assert (hingeLimit * 0x4000_0000 - ratio * hinge) * r == 0x4000_0000 * share - ratio * hinge * r;
    assert product * hinge == ratio * hinge * r;
  }

  /** The load-limit path of one surface evaluation, for any hinge moment. */
  method LimitLoad(turn: i16, c: Canard, hinge: i32, hingeLimit: i32, status: NumericStatus)
    returns (effective: i16, limited: bool, after: NumericStatus)
    requires c.IsValid() && 0 <= hinge && 0 < hingeLimit
    ensures effective == EffectiveTurn(turn, c, hinge, hingeLimit)
    ensures LoadShared(turn, c.limit, hinge, hingeLimit, effective)
    ensures limited <==> hinge > hingeLimit
    ensures after == status
  {
    var requested := Limited(turn, c);
    after := status;
    EffectiveTurnShrinks(turn, c, hinge, hingeLimit);
    LoadIsShared(turn, c, hinge, hingeLimit);
    limited := hinge > hingeLimit;
    if limited {
      QuotientOfPart(hingeLimit, hinge, 30, after);
      var ratio, scaled;
      ratio, after := DivideScaled(hingeLimit, hinge, 30, after);
      ratio := Clamp(ratio, 0, 0x4000_0000);
      OneQ30();
      ProductByFraction(requested, ratio, 30, after);
      scaled, after := MultiplyScaled(requested, ratio, 30, after);
      effective := scaled;
    } else {
      effective := requested;
    }
  }

  lemma {:induction false} OneQ30()
    ensures Pow2(30) == 0x4000_0000
  {
    Pow2Of32();
  }

  // ----- the actuator object

  class ActuatorState {
    var applied: seq<i16>
    var queue: seq<seq<i16>>
    var cursor: u8

    ghost predicate Valid()
      reads this
    {
      && |applied| == MAX_CANARDS && |queue| == RING && cursor < RING
      && forall k :: 0 <= k < RING ==> |queue[k]| == MAX_CANARDS
    }

    ghost function SurfaceAt(i: nat): (s: Surface)
      requires Valid() && i < MAX_CANARDS
      reads this
      ensures s.applied == applied[i] && forall k :: 0 <= k < RING ==> s.ring[k] == queue[k][i]
    {
      RawSurface(applied[i], seq(RING, k requires 0 <= k < RING && Valid() reads this => queue[k][i]))
    }

    ghost function Surfaces(): (all: seq<Surface>)
      requires Valid()
      reads this
      ensures |all| == MAX_CANARDS && forall i :: 0 <= i < MAX_CANARDS ==> all[i] == SurfaceAt(i)
    {
      seq(MAX_CANARDS, i requires 0 <= i < MAX_CANARDS && Valid() reads this => SurfaceAt(i))
    }

    constructor ()
      ensures Valid() && cursor == 0
      ensures forall i :: 0 <= i < MAX_CANARDS ==> SurfaceAt(i) == Neutral()
      ensures forall i :: 0 <= i < MAX_CANARDS ==> applied[i] == 0 && forall k :: 0 <= k < RING ==> queue[k][i] == 0
    {
      applied := seq(MAX_CANARDS, _ => 0);
      queue := seq(RING, _ => seq(MAX_CANARDS, _ => 0));
      cursor := 0;
    }

    method Release(requested: seq<i16>, pack: Pack, faults: seq<Fault>) returns (r: Result<seq<i16>>)
      requires Valid() && |requested| == |faults| == MAX_CANARDS
      modifies this
      ensures Valid()
      ensures !(ValidPack(pack) && pack.effectors.HasCanards()) ==> r == Err(InvalidPack) && unchanged(this)
      ensures ValidPack(pack) && pack.effectors.HasCanards() ==>
                && r == Ok(applied) && cursor == (old(cursor) + 1) % RING
                && (forall i :: 0 <= i < MAX_CANARDS ==>
                      && pack.canards[i].IsValid()
                      && SurfaceAt(i) == Released(old(SurfaceAt(i)), old(cursor), requested[i], pack.canards[i],
                                                  faults[i]))
    {
      hide Slewed;
      var valid := IsValid(pack);
      if !valid || !pack.effectors.HasCanards() {
        return Err(InvalidPack);
      }
      ghost var before := Surfaces();
      var row := StoreRequests(requested, pack);
      queue := queue[cursor := row];
      var index := 0;
      while index < MAX_CANARDS
        invariant index <= MAX_CANARDS && Valid() && cursor == old(cursor) && queue == old(queue)[cursor := row]
        invariant forall i :: 0 <= i < index ==>
                    applied[i] == Released(before[i], cursor, requested[i], pack.canards[i], faults[i]).applied
        invariant forall i :: index <= i < MAX_CANARDS ==> applied[i] == before[i].applied
      {
        MoveSurface(index, pack.canards[index], faults[index],
                    before[index].ring[cursor := Limited(requested[index], pack.canards[index])]);
        index := index + 1;
      }
      forall i | 0 <= i < MAX_CANARDS
        ensures SurfaceAt(i).ring == before[i].ring[cursor := Limited(requested[i], pack.canards[i])]
      {
      }
      cursor := (cursor + 1) % RING;
      return Ok(applied);
    }

    /** The second loop of a release, for one surface. */
    method MoveSurface(index: nat, c: Canard, fault: Fault, ghost ring: seq<i16>)
      requires Valid() && index < MAX_CANARDS && c.IsValid()
      requires |ring| == RING && forall k :: 0 <= k < RING ==> ring[k] == queue[k][index]
      modifies this`applied
      ensures Valid()
      ensures var was := old(applied);
              applied == was[index := Slewed(was[index], Target(ring, cursor, was[index], c, fault), c)]
    {
      hide Slewed;
      if fault == JamAtCurrent {
        StayPut(applied[index], c);
        return;
      }
      var delayed := (cursor + 8 - c.lag) % RING;
      var target: i16;
      if fault == Healthy {
        target := queue[delayed][index];
      } else if fault == FailNeutral {
        target := 0;
      } else if fault == HardoverPositive {
        target := c.limit;
      } else {
        target := 0 - c.limit;
      }
      var moved := MoveToward(applied[index], target, c);
      applied := applied[index := moved];
    }

    /** Load limits replace the applied deflections. */
    method AcceptLoadLimits(effective: seq<i16>)
      requires Valid() && |effective| == MAX_CANARDS
      modifies this`applied
      ensures Valid() && applied == effective
    {
      applied := effective;
    }
  }

  function Neutral(): Surface {
    RawSurface(0, seq(RING, _ => 0))
  }

  method StoreRequests(requested: seq<i16>, pack: Pack) returns (row: seq<i16>)
    requires |requested| == MAX_CANARDS && forall i :: 0 <= i < MAX_CANARDS ==> pack.canards[i].limit > 0
    ensures |row| == MAX_CANARDS
    ensures forall i :: 0 <= i < MAX_CANARDS ==> row[i] == Limited(requested[i], pack.canards[i])
  {
    row := [];
    for index := 0 to MAX_CANARDS
      invariant |row| == index
      invariant forall i :: 0 <= i < index ==> row[i] == Limited(requested[i], pack.canards[i])
    {
      row := row + [Limited(requested[index], pack.canards[index])];
    }
  }

  method MoveToward(applied: i16, target: i16, c: Canard) returns (moved: i16)
    requires c.IsValid()
    ensures moved == Slewed(applied, target, c)
  {
    var delta := target - applied;
    var bounded := Clamp(delta, 0 - c.slew, c.slew);
    moved := applied + bounded;
  }

  lemma {:induction false} StayPut(applied: i16, c: Canard)
    requires c.IsValid()
    ensures Slewed(applied, applied, c) == applied
  {}

  // ----- runs of one surface

  /** A release, or load feedback for some hinge moment. */
  datatype Op = Command(request: i16, fault: Fault) | Feedback(hinge: nat)

  datatype Track = Track(surface: Surface, cursor: nat, requests: seq<i16>)

  ghost predicate GoodTrack(t: Track, c: Canard) {
    && Bounded(t.surface, c) && t.cursor == |t.requests| % RING
    && (forall j :: 0 <= j < RING ==> t.surface.ring[(|t.requests| + 7 - j) % RING] == RequestAgo(t.requests, j))
  }

  /** The clamped request stored `j` releases before the latest one; zero
      before the first release. */
  function RequestAgo(requests: seq<i16>, j: nat): i16 {
    if j < |requests| then requests[|requests| - 1 - j] else 0
  }

  ghost function Next(t: Track, op: Op, c: Canard, hingeLimit: nat): Track
    requires c.IsValid() && GoodTrack(t, c)
  {
    match op
    case Command(request, fault) =>
      Track(Released(t.surface, t.cursor, request, c, fault), (t.cursor + 1) % RING, t.requests + [Limited(request, c)])
    case Feedback(hinge) =>
      EffectiveTurnShrinks(t.surface.applied, c, hinge, hingeLimit);
      t.(surface := RawSurface(EffectiveTurn(t.surface.applied, c, hinge, hingeLimit), t.surface.ring))
  }

  lemma {:induction false} SlewedFacts(applied: i16, target: i16, c: Canard)
    requires c.IsValid() && Abs(applied) <= c.limit && Abs(target) <= c.limit
    ensures var next := Slewed(applied, target, c);
            && Abs(next) <= c.limit && Abs(next - applied) <= c.slew
            && Abs(target - next) == Max(0, Abs(target - applied) - c.slew)
  {}

  /** Every step keeps the surface within its travel, moves it by at most the
      slew on a release, and keeps the ring in step with the history. */
  lemma {:induction false} NextKeeps(t: Track, op: Op, c: Canard, hingeLimit: nat)
    requires c.IsValid() && GoodTrack(t, c)
    ensures GoodTrack(Next(t, op, c, hingeLimit), c)
    ensures op.Command? ==> Abs(Next(t, op, c, hingeLimit).surface.applied - t.surface.applied) <= c.slew
  {
    match op
    case Feedback(hinge) => FeedbackKeeps(t, hinge, c, hingeLimit);
    case Command(request, fault) => CommandKeeps(t, request, fault, c, hingeLimit);
  }

  lemma {:induction false} FeedbackKeeps(t: Track, hinge: nat, c: Canard, hingeLimit: nat)
    requires c.IsValid() && GoodTrack(t, c)
    ensures GoodTrack(Next(t, Feedback(hinge), c, hingeLimit), c)
  {
    hide EffectiveTurn, Released;
    EffectiveTurnShrinks(t.surface.applied, c, hinge, hingeLimit);
  }

  lemma {:induction false} CommandKeeps(t: Track, request: i16, fault: Fault, c: Canard, hingeLimit: nat)
    requires c.IsValid() && GoodTrack(t, c)
    ensures var n := Next(t, Command(request, fault), c, hingeLimit);
            GoodTrack(n, c) && Abs(n.surface.applied - t.surface.applied) <= c.slew
  {
    hide Slewed, EffectiveTurn, Target;
    var ring := t.surface.ring[t.cursor := Limited(request, c)];
    RingStep(t, Limited(request, c), c);
    TargetInTravel(ring, t.cursor, t.surface.applied, c, fault);
    SlewedFacts(t.surface.applied, Target(ring, t.cursor, t.surface.applied, c, fault), c);
  }

  lemma {:induction false} TargetInTravel(ring: seq<i16>, cursor: nat, applied: i16, c: Canard, fault: Fault)
    requires c.IsValid() && |ring| == RING && BoundedRing(ring, c) && Abs(applied) <= c.limit
    ensures Abs(Target(ring, cursor, applied, c, fault)) <= c.limit
  {}

  lemma {:induction false} RingStep(t: Track, stored: i16, c: Canard)
    requires GoodTrack(t, c) && Abs(stored) <= c.limit
    ensures var ring, requests := t.surface.ring[t.cursor := stored], t.requests + [stored];
            && BoundedRing(ring, c)
            && forall j :: 0 <= j < RING ==> ring[(|requests| + 7 - j) % RING] == RequestAgo(requests, j)
  {
    var ring, requests := t.surface.ring[t.cursor := stored], t.requests + [stored];
    var n := |t.requests|;
    forall j | 0 <= j < RING
      ensures ring[(|requests| + 7 - j) % RING] == RequestAgo(requests, j)
    {
      if j > 0 {
        assert t.surface.ring[(n + 7 - (j - 1)) % RING] == RequestAgo(t.requests, j - 1);
        assert (n + 8 - j) % RING != n % RING;
      }
    }
  }

  /** The request a healthy surface follows: `lag` releases back, except that
      the eight-slot ring makes lag 8 the same as no lag at all. */
  lemma {:induction false} HealthyTarget(t: Track, request: i16, c: Canard, hingeLimit: nat)
    requires c.IsValid() && GoodTrack(t, c)
    ensures var n := Next(t, Command(request, Healthy), c, hingeLimit);
            var followed := RequestAgo(n.requests, if c.lag == 8 then 0 else c.lag);
            Abs(followed) <= c.limit
            && n.surface.applied == Slewed(t.surface.applied, followed, c)
  {
    hide Slewed;
    var n := Next(t, Command(request, Healthy), c, hingeLimit);
    RingStep(t, Limited(request, c), c);
    RingIndex(|t.requests|, c.lag);
  }

  /** A healthy release follows the clamped request of exactly `lag` releases
      earlier. */
  ghost predicate FollowsLag(t: Track, request: i16, c: Canard, hingeLimit: nat)
    requires c.IsValid() && GoodTrack(t, c)
  {
    var n := Next(t, Command(request, Healthy), c, hingeLimit);
    n.surface.applied == Slewed(t.surface.applied, RequestAgo(n.requests, c.lag), c)
  }

  /** The declared lag is honoured in every reachable state exactly when it is
      at most 7; lag 8 is accepted but answers at once. */
  lemma {:induction false} LagHonouredExactly(c: Canard, hingeLimit: nat)
    requires c.IsValid()
    ensures (forall t, request :: GoodTrack(t, c) ==> FollowsLag(t, request, c, hingeLimit)) <==> c.lag <= 7
  {
    hide GoodTrack, Slewed, Next;
    if c.lag <= 7 {
      forall t, request | GoodTrack(t, c)
        ensures FollowsLag(t, request, c, hingeLimit)
      {
        HealthyTarget(t, request, c, hingeLimit);
      }
    } else {
      var t := Track(Neutral(), 0, []);
      NeutralIsGood(c);
      LagEightAnswersAtOnce(c, hingeLimit);
      assert !FollowsLag(t, c.limit, c, hingeLimit);
    }
  }

  /** From rest, the first full request under lag 8 moves the surface. */
  lemma {:induction false} LagEightAnswersAtOnce(c: Canard, hingeLimit: nat)
    requires c.IsValid() && c.lag == 8
    ensures GoodTrack(Track(Neutral(), 0, []), c)
    ensures !FollowsLag(Track(Neutral(), 0, []), c.limit, c, hingeLimit)
  {
    var t := Track(Neutral(), 0, []);
    NeutralIsGood(c);
    HealthyTarget(t, c.limit, c, hingeLimit);
    var n := Next(t, Command(c.limit, Healthy), c, hingeLimit);
    assert n.requests == [c.limit];
  }

  lemma {:induction false} RingIndex(n: nat, lag: nat)
    requires lag <= 8
    ensures (n % RING + 8 - lag) % RING == (n + 1 + 7 - (if lag == 8 then 0 else lag)) % RING
  {}

  ghost function Run(ops: seq<Op>, c: Canard, hingeLimit: nat): (t: Track)
    requires c.IsValid()
    ensures GoodTrack(t, c)
  {
    if ops == [] then
      NeutralIsGood(c);
      Track(Neutral(), 0, [])
    else
      var prior := Run(ops[..|ops| - 1], c, hingeLimit);
      NextKeeps(prior, ops[|ops| - 1], c, hingeLimit);
      Next(prior, ops[|ops| - 1], c, hingeLimit)
  }

  lemma {:induction false} NeutralIsGood(c: Canard)
    requires c.IsValid()
    ensures GoodTrack(Track(Neutral(), 0, []), c)
  {}

  /** Over any run of releases, faults and load feedback the surface stays
      within its travel and no release moves it further than its slew. */
  lemma {:induction false} RunStaysInTravel(ops: seq<Op>, op: Op, c: Canard, hingeLimit: nat)
    requires c.IsValid()
    ensures var t := Run(ops, c, hingeLimit);
            var n := Run(ops + [op], c, hingeLimit);
            && Abs(n.surface.applied) <= c.limit
            && (op.Command? ==> Abs(n.surface.applied - t.surface.applied) <= c.slew)
            && (op.Feedback? ==> Abs(n.surface.applied) <= Abs(t.surface.applied))
  {
    hide Next, GoodTrack;
    var t := Run(ops, c, hingeLimit);
    assert (ops + [op])[..|ops|] == ops;
    NextKeeps(t, op, c, hingeLimit);
    FeedbackShrinks(t, op, c, hingeLimit);
  }

  lemma {:induction false} FeedbackShrinks(t: Track, op: Op, c: Canard, hingeLimit: nat)
    requires c.IsValid() && GoodTrack(t, c)
    ensures op.Feedback? ==> Abs(Next(t, op, c, hingeLimit).surface.applied) <= Abs(t.surface.applied)
    ensures Abs(Next(t, op, c, hingeLimit).surface.applied) <= c.limit
  {
    hide EffectiveTurn, Slewed;
    NextKeeps(t, op, c, hingeLimit);
    if op.Feedback? {
      EffectiveTurnShrinks(t.surface.applied, c, op.hinge, hingeLimit);
    }
  }

  // ----- the closed loop

  /** Load limiting of all four surfaces. Below the directional pressure floor
      no hinge moment acts and the deflections are only clamped. */
  method EvaluateTurns(pack: Pack, deflections: seq<i16>, hinges: seq<i32>, directional: bool, status: NumericStatus)
    returns (effective: seq<i16>, limitedMask: set<nat>, after: NumericStatus)
    requires |deflections| == |hinges| == MAX_CANARDS
    requires forall i :: 0 <= i < MAX_CANARDS ==>
               pack.canards[i].IsValid() && pack.canards[i].limit > 0 && pack.hingeLimits[i] > 0 && 0 <= hinges[i]
    ensures |effective| == MAX_CANARDS && after == status
    ensures forall i :: 0 <= i < MAX_CANARDS ==>
              effective[i] == EffectiveTurn(deflections[i], pack.canards[i], ActingHinge(hinges[i], directional),
                                            pack.hingeLimits[i])
    ensures forall i :: 0 <= i < MAX_CANARDS ==>
              LoadShared(deflections[i], pack.canards[i].limit, if directional then hinges[i] else 0,
                         pack.hingeLimits[i], effective[i])
    ensures limitedMask == set i: nat | i < MAX_CANARDS && directional && hinges[i] > pack.hingeLimits[i]
  {
    hide EffectiveTurn, LoadShared;
    effective, limitedMask, after := [], {}, status;
    for index := 0 to MAX_CANARDS
      invariant |effective| == index && after == status
      invariant forall i :: 0 <= i < index ==>
                  effective[i] == EffectiveTurn(deflections[i], pack.canards[i], ActingHinge(hinges[i], directional),
                                                pack.hingeLimits[i])
      invariant forall i :: 0 <= i < index ==>
                  LoadShared(deflections[i], pack.canards[i].limit, ActingHinge(hinges[i], directional),
                             pack.hingeLimits[i], effective[i])
      invariant limitedMask == set i: nat | i < index && directional && hinges[i] > pack.hingeLimits[i]
    {
      var turn, limited;
      turn, limited, after := LimitLoad(deflections[index], pack.canards[index],
                                        ActingHinge(hinges[index], directional), pack.hingeLimits[index], after);
      effective := effective + [turn];
      if limited {
        limitedMask := limitedMask + {index};
      }
    }
  }

  function ActingHinge(hinge: i32, directional: bool): i32 {
    if directional then hinge else 0
  }

  /** The object agrees with the tracks of its four surfaces. */
  ghost predicate Tracked(state: ActuatorState, tracks: seq<Track>, pack: Pack)
    reads state
  {
    && state.Valid() && |tracks| == MAX_CANARDS
    && forall i :: 0 <= i < MAX_CANARDS ==>
         && pack.canards[i].IsValid() && GoodTrack(tracks[i], pack.canards[i])
         && state.SurfaceAt(i) == tracks[i].surface && state.cursor == tracks[i].cursor
  }

  /** One release followed by load feedback: the actuator object does to its
      four surfaces exactly what the track of each one says. */
  method ReleaseAndLimit(state: ActuatorState, ghost tracks: seq<Track>, requested: seq<i16>, faults: seq<Fault>,
                         hinges: seq<i32>, directional: bool, pack: Pack, status: NumericStatus)
    returns (ghost after: seq<Track>)
    requires Tracked(state, tracks, pack) && ValidPack(pack) && pack.effectors.HasCanards()
    requires |requested| == |faults| == |hinges| == MAX_CANARDS
    requires forall i :: 0 <= i < MAX_CANARDS ==> 0 <= hinges[i]
    modifies state
    ensures |after| == MAX_CANARDS && Tracked(state, after, pack)
    ensures forall i :: 0 <= i < MAX_CANARDS ==>
              && pack.hingeLimits[i] > 0
              && after[i] == Cycle(tracks[i], requested[i], faults[i], ActingHinge(hinges[i], directional),
                                   pack.canards[i], pack.hingeLimits[i])
  {
    hide GoodTrack, Released, EffectiveTurn;
    var r := state.Release(requested, pack, faults);
    var effective, mask, s := EvaluateTurns(pack, state.applied, hinges, directional, status);
    ghost var released := state.Surfaces();
    state.AcceptLoadLimits(effective);
    after := seq(MAX_CANARDS, i requires 0 <= i < MAX_CANARDS && |tracks| == MAX_CANARDS
                                         && pack.canards[i].IsValid() && GoodTrack(tracks[i], pack.canards[i])
                                         && pack.hingeLimits[i] > 0 && 0 <= hinges[i] =>
                 Cycle(tracks[i], requested[i], faults[i], ActingHinge(hinges[i], directional),
                       pack.canards[i], pack.hingeLimits[i]));
    forall i | 0 <= i < MAX_CANARDS
      ensures state.SurfaceAt(i) == after[i].surface && state.cursor == after[i].cursor
    {
      assert state.SurfaceAt(i).ring == released[i].ring;
    }
  }

  /** Release, then feedback. */
  ghost function Cycle(t: Track, request: i16, fault: Fault, hinge: nat, c: Canard, hingeLimit: nat): (n: Track)
    requires c.IsValid() && GoodTrack(t, c)
    ensures GoodTrack(n, c)
  {
    NextKeeps(t, Command(request, fault), c, hingeLimit);
    var released := Next(t, Command(request, fault), c, hingeLimit);
    NextKeeps(released, Feedback(hinge), c, hingeLimit);
    Next(released, Feedback(hinge), c, hingeLimit)
  }

  // ----- convergence

  /** `n` healthy releases of the same request after `t`. */
  ghost function Hold(t: Track, request: i16, n: nat, c: Canard, hingeLimit: nat): (r: Track)
    requires c.IsValid() && GoodTrack(t, c)
    ensures GoodTrack(r, c)
  {
    if n == 0 then t
    else
      var prior := Hold(t, request, n - 1, c, hingeLimit);
      NextKeeps(prior, Command(request, Healthy), c, hingeLimit);
      Next(prior, Command(request, Healthy), c, hingeLimit)
  }

  lemma {:induction false} HoldHistory(t: Track, request: i16, n: nat, c: Canard, hingeLimit: nat, j: nat)
    requires c.IsValid() && GoodTrack(t, c) && j < n
    ensures RequestAgo(Hold(t, request, n, c, hingeLimit).requests, j) == Limited(request, c)
    ensures |Hold(t, request, n, c, hingeLimit).requests| == |t.requests| + n
  {
    hide Released, GoodTrack, Limited;
    if j > 0 {
      HoldHistory(t, request, n - 1, c, hingeLimit, j - 1);
    } else if n > 1 {
      HoldHistory(t, request, n - 1, c, hingeLimit, 0);
    }
  }

  /** A held release after the lag moves toward the held request. */
  lemma {:induction false} HeldStep(t: Track, request: i16, n: nat, c: Canard, hingeLimit: nat)
    requires c.IsValid() && GoodTrack(t, c) && n > c.lag
    ensures var goal := Limited(request, c);
            var gap := Abs(goal - Hold(t, request, n - 1, c, hingeLimit).surface.applied);
            Abs(goal - Hold(t, request, n, c, hingeLimit).surface.applied) == Max(0, gap - c.slew)
  {
    hide Next, Slewed, RequestAgo;
    var prior := Hold(t, request, n - 1, c, hingeLimit);
    HealthyTarget(prior, request, c, hingeLimit);
    HoldHistory(t, request, n, c, hingeLimit, if c.lag == 8 then 0 else c.lag);
    SlewedFacts(prior.surface.applied, Limited(request, c), c);
  }

  /** What is left of the full travel after `k` slews. */
  function GapAfter(c: Canard, k: nat): nat {
    if k == 0 then Max(0, 2 * c.limit) else Max(0, GapAfter(c, k - 1) - c.slew)
  }

  lemma {:induction false} GapFormula(c: Canard, k: nat)
    requires c.IsValid()
    ensures GapAfter(c, k) == Max(0, 2 * c.limit - k * c.slew)
  {
    if k > 0 {
      GapFormula(c, k - 1);
      assert k * c.slew == (k - 1) * c.slew + c.slew;
    }
  }

  /** After the lag has passed, each held release closes the gap by the slew. */
  lemma {:induction false} GapCloses(t: Track, request: i16, n: nat, c: Canard, hingeLimit: nat)
    requires c.IsValid() && GoodTrack(t, c) && n >= c.lag
    ensures Abs(Limited(request, c) - Hold(t, request, n, c, hingeLimit).surface.applied) <= GapAfter(c, n - c.lag)
    decreases n
  {
    hide Hold;
    if n > c.lag {
      GapCloses(t, request, n - 1, c, hingeLimit);
      HeldStep(t, request, n, c, hingeLimit);
    }
  }

  /** Enough whole slews to cross the full travel. */
  function FullTravelReleases(c: Canard): nat
    requires c.IsValid()
  {
    (2 * c.limit + c.slew - 1) / c.slew
  }

  /** From any reachable state a held request is reached, and kept, after the
      lag plus the releases needed to cross the full travel. */
  lemma {:induction false} HeldCommandIsReached(t: Track, request: i16, n: nat, c: Canard, hingeLimit: nat)
    requires c.IsValid() && GoodTrack(t, c) && n >= c.lag + FullTravelReleases(c)
    ensures Hold(t, request, n, c, hingeLimit).surface.applied == Limited(request, c)
  {
    hide Hold, GoodTrack, Limited;
    GapCloses(t, request, n, c, hingeLimit);
    var k := FullTravelReleases(c);
    GapFormula(c, n - c.lag);
    CeilingCovers(2 * c.limit, c.slew);
    MulMonotone(k, n - c.lag, c.slew);
  }

  /** Commands under a lasting fault. */
  ghost function Suffer(t: Track, requests: seq<i16>, fault: Fault, c: Canard, hingeLimit: nat): (r: Track)
    requires c.IsValid() && GoodTrack(t, c)
    ensures GoodTrack(r, c)
  {
    if requests == [] then t
    else
      var last := |requests| - 1;
      var prior := Suffer(t, requests[..last], fault, c, hingeLimit);
      NextKeeps(prior, Command(requests[last], fault), c, hingeLimit);
      Next(prior, Command(requests[last], fault), c, hingeLimit)
  }

  /** Where a lasting fault leaves the surface in the end. */
  function Rest(t: Track, c: Canard, fault: Fault): int {
    match fault
    case FailNeutral => 0
    case HardoverPositive => c.limit
    case HardoverNegative => 0 - c.limit
    case _ => t.surface.applied
  }

  lemma {:induction false} FaultCloses(t: Track, requests: seq<i16>, fault: Fault, c: Canard, hingeLimit: nat)
    requires c.IsValid() && GoodTrack(t, c) && fault != Healthy
    ensures Abs(Rest(t, c, fault) - Suffer(t, requests, fault, c, hingeLimit).surface.applied)
         <= GapAfter(c, |requests|)
    ensures fault == JamAtCurrent ==> Suffer(t, requests, fault, c, hingeLimit).surface.applied == t.surface.applied
  {
    hide GoodTrack;
    if requests == [] {
      InTravel(t, c);
    } else {
      var last := |requests| - 1;
      FaultCloses(t, requests[..last], fault, c, hingeLimit);
      var prior := Suffer(t, requests[..last], fault, c, hingeLimit);
      InTravel(prior, c);
      ReleaseMeans(prior.surface, prior.cursor, requests[last], c, fault);
    }
  }

  lemma {:induction false} InTravel(t: Track, c: Canard)
    requires c.IsValid() && GoodTrack(t, c)
    ensures Abs(t.surface.applied) <= c.limit && t.cursor < RING
  {}

  /** Whatever is commanded, a hardover ends at its stop, a neutral failure at
      zero, within the releases that cross the travel; a jam never moves. */
  lemma {:induction false} HeldFaultSettles(t: Track, requests: seq<i16>, fault: Fault, c: Canard, hingeLimit: nat)
    requires c.IsValid() && GoodTrack(t, c) && fault != Healthy
    requires fault == JamAtCurrent || |requests| >= FullTravelReleases(c)
    ensures var end := Suffer(t, requests, fault, c, hingeLimit).surface.applied;
            && (fault == JamAtCurrent ==> end == t.surface.applied)
            && (fault == FailNeutral ==> end == 0)
            && (fault == HardoverPositive ==> end == c.limit)
            && (fault == HardoverNegative ==> end == 0 - c.limit)
  {
    hide Suffer, GoodTrack;
    FaultCloses(t, requests, fault, c, hingeLimit);
    GapFormula(c, |requests|);
    CeilingCovers(2 * c.limit, c.slew);
    if fault != JamAtCurrent {
      MulMonotone(FullTravelReleases(c), |requests|, c.slew);
    }
  }

  lemma {:induction false} CeilingCovers(distance: nat, step: nat)
    requires step > 0
    ensures (distance + step - 1) / step * step >= distance
  {
    var q, r := (distance + step - 1) / step, (distance + step - 1) % step;
    assert distance + step - 1 == q * step + r;
  }
}
