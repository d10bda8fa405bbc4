/**
 Leap-aware UTC to TAI conversion over a table of positive leap seconds, and
 elapsed mission time.
 */
module LeapSeconds {
  import opened Arithmetic
  import opened Residual
  import opened Wrappers

  const MAX_LEAP_TRANSITIONS: nat := 32
  const SECONDS_PER_DAY: int := 86_400
  const GLOBAL_MAX_DURATION_RAW: int := 943_718_400

  datatype TimeError = Table | Reserved | Second | LeapSecond | NegativeElapsed | MissionDuration

  type Result<T> = Wrappers.Result<T, TimeError>

  datatype UtcInstant = UtcInstant(day: i32, second: u32, subsecond: u16)

  datatype Transition = Transition(day: i32, offsetAfter: i16)

  const EMPTY_TRANSITION := Transition(0, 0)

  datatype RawTable = RawTable(count: u8, initial: i16, transitions: seq<Transition>)

  type LeapSecondTable = t: RawTable | |t.transitions| == MAX_LEAP_TRANSITIONS
    witness RawTable(0, 10, seq(MAX_LEAP_TRANSITIONS, _ => EMPTY_TRANSITION))

  lemma {:induction false} WrapStep(v: int)
    ensures Wrap16(Wrap16(v) + 1) == Wrap16(v + 1)
  {}

  lemma {:induction false} WrapIdentity(v: i16)
    ensures Wrap16(v) == v
  {}

  // ----- the table

  /** The first `k` transitions are each later than the ones before and each
      raise the offset by one second. */
  ghost predicate OrderedUpTo(t: LeapSecondTable, k: nat)
    requires k <= MAX_LEAP_TRANSITIONS
  {
    && (forall i :: 0 <= i < k ==> MIN_I32 < t.transitions[i].day)
    && (forall i, j :: 0 <= i < j < k ==> t.transitions[i].day < t.transitions[j].day)
    && (forall i :: 0 <= i < k ==> t.transitions[i].offsetAfter == Wrap16(t.initial + i + 1))
  }

  ghost predicate InOrder(t: LeapSecondTable) {
    t.count <= MAX_LEAP_TRANSITIONS && OrderedUpTo(t, t.count)
  }

  /** What the scan checks at entry `k`, against its predecessor only. */
  predicate FollowsPredecessor(t: LeapSecondTable, k: nat)
    requires k < MAX_LEAP_TRANSITIONS
  {
    && (if k == 0 then MIN_I32 else t.transitions[k - 1].day) < t.transitions[k].day
    && t.transitions[k].offsetAfter == Wrap16(t.initial + k + 1)
  }

  lemma {:induction false} OrderedStep(t: LeapSecondTable, k: nat)
    requires k < MAX_LEAP_TRANSITIONS
    ensures OrderedUpTo(t, k + 1) <==> OrderedUpTo(t, k) && FollowsPredecessor(t, k)
  {
    hide Wrap16;
    if OrderedUpTo(t, k) && FollowsPredecessor(t, k) {
      forall i | 0 <= i < k
        ensures t.transitions[i].day < t.transitions[k].day
      {
        assert i < k - 1 ==> t.transitions[i].day < t.transitions[k - 1].day;
      }
    }
  }

  lemma {:induction false} OrderedNone(t: LeapSecondTable)
    ensures OrderedUpTo(t, 0)
  {}

  lemma {:induction false} OrderedPrefix(t: LeapSecondTable, k: nat, n: nat)
    requires k <= n <= MAX_LEAP_TRANSITIONS
    ensures OrderedUpTo(t, n) ==> OrderedUpTo(t, k)
  {}

  ghost predicate UnusedClear(t: LeapSecondTable) {
    forall i :: t.count <= i < MAX_LEAP_TRANSITIONS ==> t.transitions[i] == EMPTY_TRANSITION
  }

  ghost predicate Valid(t: LeapSecondTable) {
    InOrder(t) && UnusedClear(t)
  }

  /** The declared part of the table. */
  function Declared(t: LeapSecondTable): seq<Transition>
    requires t.count <= MAX_LEAP_TRANSITIONS
  {
    t.transitions[..t.count]
  }

  /** The neighbour-by-neighbour scan accepts exactly the ordered tables. */
  method Validate(t: LeapSecondTable) returns (r: Result<()>)
    ensures !InOrder(t) ==> r == Err(Table)
    ensures InOrder(t) && !UnusedClear(t) ==> r == Err(Reserved)
    ensures Valid(t) ==> r == Ok(())
  {
    hide Wrap16, OrderedUpTo, UnusedClear;
    if t.count > MAX_LEAP_TRANSITIONS {
      return Err(Table);
    }
    WrapIdentity(t.initial);
    var previousDay: i32 := MIN_I32;
    var previousOffset: i16 := t.initial;
    var index := 0;
    OrderedNone(t);
    while index < t.count
      invariant index <= t.count
      invariant previousDay == if index == 0 then MIN_I32 else t.transitions[index - 1].day
      invariant previousOffset == Wrap16(t.initial + index)
      invariant OrderedUpTo(t, index)
    {
      var transition := t.transitions[index];
      WrapStep(t.initial + index);
      OrderedStep(t, index);
      OrderedPrefix(t, index + 1, t.count);
      if transition.day <= previousDay || transition.offsetAfter != Wrap16(previousOffset + 1) {
        return Err(Table);
      }
      previousDay, previousOffset := transition.day, transition.offsetAfter;
      index := index + 1;
    }
    var clear := UnusedEntriesClear(t);
    return if clear then Ok(()) else Err(Reserved);
  }

  method UnusedEntriesClear(t: LeapSecondTable) returns (clear: bool)
    requires t.count <= MAX_LEAP_TRANSITIONS
    ensures clear <==> UnusedClear(t)
  {
    var index := t.count;
    while index < MAX_LEAP_TRANSITIONS
      invariant t.count <= index <= MAX_LEAP_TRANSITIONS
      invariant forall i :: t.count <= i < index ==> t.transitions[i] == EMPTY_TRANSITION
    {
      if t.transitions[index] != EMPTY_TRANSITION {
        return false;
      }
      index := index + 1;
    }
    return true;
  }

  /** How many of the transitions are in force on `day`. */
  function InForce(transitions: seq<Transition>, day: int): nat {
    if transitions == [] then 0
    else
      var last := |transitions| - 1;
      InForce(transitions[..last], day) + (if transitions[last].day <= day then 1 else 0)
  }

  /** The day after which an extra second is inserted. */
  ghost predicate IsLeapDay(transitions: seq<Transition>, day: int) {
    exists i :: 0 <= i < |transitions| && transitions[i].day == day + 1
  }

  ghost predicate Sorted(transitions: seq<Transition>) {
    forall i, j :: 0 <= i < j < |transitions| ==> transitions[i].day < transitions[j].day
  }

  lemma {:induction false} InForcePrefix(transitions: seq<Transition>, day: int, k: nat)
    requires k <= |transitions|
    requires forall i :: 0 <= i < k ==> transitions[i].day <= day
    requires forall i :: k <= i < |transitions| ==> day < transitions[i].day
    ensures InForce(transitions, day) == k
  {
    if transitions != [] {
      var last := |transitions| - 1;
      InForcePrefix(transitions[..last], day, if k <= last then k else last);
    }
  }

  /** The offset on a day is the initial one plus the transitions in force. */
  method OffsetAtDay(t: LeapSecondTable, day: i32) returns (r: Result<i16>)
    ensures !Valid(t) ==> r == Err(if InOrder(t) then Reserved else Table)
    ensures Valid(t) ==> r == Ok(Wrap16(t.initial + InForce(Declared(t), day)))
  {
    var accepted := Validate(t);
    if accepted.Err? {
      return Err(accepted.error);
    }
    var offset := t.initial;
    var index := 0;
    while index < t.count
      invariant index <= t.count
      invariant offset == Wrap16(t.initial + index)
      invariant forall i :: 0 <= i < index ==> t.transitions[i].day <= day
    {
      if day < t.transitions[index].day {
        break;
      }
      offset := t.transitions[index].offsetAfter;
      index := index + 1;
    }
    InForcePrefix(Declared(t), day, index);
    return Ok(offset);
  }

  /** The day comparison wraps at the last day, which no transition follows. */
  method IsPositiveLeapDay(t: LeapSecondTable, day: i32) returns (r: Result<bool>)
    ensures !Valid(t) ==> r == Err(if InOrder(t) then Reserved else Table)
    ensures Valid(t) ==> r == Ok(IsLeapDay(Declared(t), day))
  {
    var accepted := Validate(t);
    if accepted.Err? {
      return Err(accepted.error);
    }
    var found := false;
    var index := 0;
    while index < t.count && !found
      invariant index <= t.count
      invariant found ==> IsLeapDay(Declared(t), day)
      invariant !found ==> forall i :: 0 <= i < index ==> t.transitions[i].day != day + 1
    {
      if t.transitions[index].day == Wrap32(day + 1) {
        assert Declared(t)[index].day == day + 1;
        found := true;
      }
      index := index + 1;
    }
    return Ok(found);
  }

  // ----- the conversion

  /** An instant the table admits: second 86400 only on a leap day. */
  ghost predicate Accepted(t: LeapSecondTable, u: UtcInstant)
    requires t.count <= MAX_LEAP_TRANSITIONS
  {
    u.second < SECONDS_PER_DAY || (u.second == SECONDS_PER_DAY && IsLeapDay(Declared(t), u.day))
  }

  /** Whole TAI seconds as the code forms them, with the 16-bit offset. */
  function WholeSeconds(t: LeapSecondTable, u: UtcInstant): int
    requires t.count <= MAX_LEAP_TRANSITIONS
  {
    u.day * SECONDS_PER_DAY + u.second + Wrap16(t.initial + InForce(Declared(t), u.day))
  }

  /** The complete contract of the conversion, errors included. */
  ghost function UtcToTai(t: LeapSecondTable, u: UtcInstant): Result<i64> {
    if u.second > SECONDS_PER_DAY then Err(Second)
    else if !InOrder(t) then Err(Table)
    else if !UnusedClear(t) then Err(Reserved)
    else if !Accepted(t, u) then Err(LeapSecond)
    else
      TicksFit(WholeSeconds(t, u), u.subsecond);
      Ok(Wrap64(WholeSeconds(t, u) * 0x1_0000) + u.subsecond)
  }

  lemma {:induction false} TicksFit(whole: int, subsecond: u16)
    ensures MIN_I64 <= Wrap64(whole * 0x1_0000) + subsecond <= MAX_I64
    ensures Wrap64(whole * 0x1_0000) == whole * 0x1_0000 <==> -0x8000_0000_0000 <= whole < 0x8000_0000_0000
  {
    var turns := (whole * 0x1_0000 + 0x8000_0000_0000_0000) / 0x1_0000_0000_0000_0000;
    var kept := whole - turns * 0x1_0000_0000_0000;
    assert Wrap64(whole * 0x1_0000) == kept * 0x1_0000;
    assert -0x8000_0000_0000 <= kept < 0x8000_0000_0000;
  }

  method UtcToTaiQ16(t: LeapSecondTable, u: UtcInstant) returns (r: Result<i64>)
    ensures r == UtcToTai(t, u)
  {
    if u.second > SECONDS_PER_DAY {
      return Err(Second);
    }
    if u.second == SECONDS_PER_DAY {
      var leapDay := IsPositiveLeapDay(t, u.day);
      if leapDay.Err? {
        return Err(leapDay.error);
      }
      if !leapDay.value {
        return Err(LeapSecond);
      }
    }
    var offset := OffsetAtDay(t, u.day);
    if offset.Err? {
      return Err(offset.error);
    }
    var whole := u.day * SECONDS_PER_DAY + u.second + offset.value;
    TicksFit(whole, u.subsecond);
    return Ok(Wrap64(whole * 0x1_0000) + u.subsecond);
  }

  /** Why a conversion is refused, in the order of the tests; otherwise it
      succeeds. Second 86400 exists only on the day before a transition. */
  lemma {:induction false} ConversionRefusals(t: LeapSecondTable, u: UtcInstant)
    ensures UtcToTai(t, u) == Err(Second) <==> u.second > 86_400
    ensures UtcToTai(t, u) == Err(Table) <==> u.second <= 86_400 && !InOrder(t)
    ensures UtcToTai(t, u) == Err(Reserved) <==> u.second <= 86_400 && InOrder(t) && !UnusedClear(t)
    ensures UtcToTai(t, u) == Err(LeapSecond) <==>
            u.second == 86_400 && Valid(t) && forall i :: 0 <= i < t.count ==> t.transitions[i].day != u.day + 1
    ensures UtcToTai(t, u).Err? ==> UtcToTai(t, u).error in {Second, Table, Reserved, LeapSecond}
  {
    hide OrderedUpTo, UnusedClear, WholeSeconds, Wrap64;
    if t.count <= MAX_LEAP_TRANSITIONS {
      assert IsLeapDay(Declared(t), u.day) <==>
             exists i :: 0 <= i < t.count && t.transitions[i].day == u.day + 1;
    }
  }

  // ----- order isomorphism

  /** The table never pushes the 16-bit offset past its top. */
  predicate OffsetsFit(t: LeapSecondTable) {
    t.initial + t.count <= 0x7fff
  }

  /** First TAI second of a UTC day. */
  ghost function DayStart(t: LeapSecondTable, day: int): int
    requires t.count <= MAX_LEAP_TRANSITIONS
  {
    day * SECONDS_PER_DAY + t.initial + InForce(Declared(t), day)
  }

  /** Seconds in a UTC day. */
  ghost function DayLength(t: LeapSecondTable, day: int): int
    requires t.count <= MAX_LEAP_TRANSITIONS
  {
    if IsLeapDay(Declared(t), day) then SECONDS_PER_DAY + 1 else SECONDS_PER_DAY
  }

  /** The mathematical TAI tick of an instant. */
  ghost function Tick(t: LeapSecondTable, u: UtcInstant): int
    requires t.count <= MAX_LEAP_TRANSITIONS
  {
    (DayStart(t, u.day) + u.second) * 0x1_0000 + u.subsecond
  }

  /** Calendar order of instants. */
  predicate Before(u: UtcInstant, v: UtcInstant) {
    || u.day < v.day
    || (u.day == v.day && u.second < v.second)
    || (u.day == v.day && u.second == v.second && u.subsecond < v.subsecond)
  }

  lemma {:induction false} InForceStep(transitions: seq<Transition>, day: int)
    requires Sorted(transitions)
    ensures InForce(transitions, day + 1)
         == InForce(transitions, day) + (if IsLeapDay(transitions, day) then 1 else 0)
  {
    if transitions != [] {
      var last := |transitions| - 1;
      var front := transitions[..last];
      InForceStep(front, day);
      if IsLeapDay(front, day) {
        var i :| 0 <= i < |front| && front[i].day == day + 1;
        assert transitions[i].day == day + 1 && transitions[i].day < transitions[last].day;
        assert IsLeapDay(transitions, day);
      } else if transitions[last].day == day + 1 {
        assert IsLeapDay(transitions, day);
      }
    }
  }

  lemma {:induction false} InForceBound(transitions: seq<Transition>, day: int)
    ensures InForce(transitions, day) <= |transitions|
  {
    if transitions != [] {
      InForceBound(transitions[..|transitions| - 1], day);
    }
  }

  /** Days abut: each starts where the previous one, leap second included, ends. */
  lemma {:induction false} DaysAbut(t: LeapSecondTable, day: int)
    requires Valid(t)
    ensures DayStart(t, day + 1) == DayStart(t, day) + DayLength(t, day)
  {
    InForceStep(Declared(t), day);
  }

  lemma {:induction false} DaysOrdered(t: LeapSecondTable, day: int, later: int)
    requires Valid(t) && day < later
    ensures DayStart(t, day) + DayLength(t, day) <= DayStart(t, later)
    decreases later - day
  {
    DaysAbut(t, day);
    if day + 1 < later {
      DaysOrdered(t, day + 1, later);
    }
  }

  /** Calendar order is tick order. */
  lemma {:induction false} TickStrictlyIncreases(t: LeapSecondTable, u: UtcInstant, v: UtcInstant)
    requires Valid(t) && Accepted(t, u) && Accepted(t, v)
    ensures Before(u, v) <==> Tick(t, u) < Tick(t, v)
    ensures u == v <==> Tick(t, u) == Tick(t, v)
  {
    hide DayStart;
    if u.day < v.day {
      DaysOrdered(t, u.day, v.day);
    } else if v.day < u.day {
      DaysOrdered(t, v.day, u.day);
    }
  }

  /** The next representable instant. */
  ghost function Next(t: LeapSecondTable, u: UtcInstant): UtcInstant
    requires t.count <= MAX_LEAP_TRANSITIONS && u.day < MAX_I32 && u.second <= SECONDS_PER_DAY
  {
    if u.subsecond < 0xffff then u.(subsecond := u.subsecond + 1)
    else if u.second + 1 < DayLength(t, u.day) then u.(second := u.second + 1, subsecond := 0)
    else UtcInstant(u.day + 1, 0, 0)
  }

  /** No gap and no repeat: the next instant is the next tick. */
  lemma {:induction false} NextIsNextTick(t: LeapSecondTable, u: UtcInstant)
    requires Valid(t) && Accepted(t, u) && u.day < MAX_I32
    ensures Accepted(t, Next(t, u)) && Tick(t, Next(t, u)) == Tick(t, u) + 1
  {
    hide DayStart;
    DaysAbut(t, u.day);
  }

  /** Every tick from an instant up to the last day belongs to an instant. */
  lemma {:induction false} EveryTickHasAnInstant(t: LeapSecondTable, u: UtcInstant, tick: int) returns (v: UtcInstant)
    requires Valid(t) && Accepted(t, u)
    requires Tick(t, u) <= tick < DayStart(t, MAX_I32) * 0x1_0000
    ensures Accepted(t, v) && Tick(t, v) == tick
    decreases tick - Tick(t, u)
  {
    hide DayStart;
    if Tick(t, u) == tick {
      v := u;
    } else {
      NextIsNextTick(t, u);
      v := EveryTickHasAnInstant(t, Next(t, u), tick);
    }
  }

  // ----- the 16-bit offset

  /** The transition that pushes the 16-bit offset past its top. */
  function WrapDay(t: LeapSecondTable): i32
    requires t.count <= MAX_LEAP_TRANSITIONS && !OffsetsFit(t)
  {
    t.transitions[0x7fff - t.initial].day
  }

  /** Days on which the offset has not wrapped. */
  predicate Unwrapped(t: LeapSecondTable, day: int)
    requires t.count <= MAX_LEAP_TRANSITIONS
  {
    OffsetsFit(t) || day < WrapDay(t)
  }

  /** What the 16-bit offset adds to the mathematical one. */
  function Shift(t: LeapSecondTable, day: int): int
    requires t.count <= MAX_LEAP_TRANSITIONS
  {
    if Unwrapped(t, day) then 0 else -0x1_0000
  }

  lemma {:induction false} InForceAbove(transitions: seq<Transition>, day: int, k: nat)
    requires k < |transitions| && Sorted(transitions)
    ensures InForce(transitions, day) > k <==> transitions[k].day <= day
  {
    var last := |transitions| - 1;
    if k < last {
      InForceAbove(transitions[..last], day, k);
    } else {
      InForceBound(transitions[..last], day);
      if transitions[k].day <= day {
        InForcePrefix(transitions, day, |transitions|);
      }
    }
  }

  /** The offset of the code is the mathematical one, shifted from the
      wrapping transition on. */
  lemma {:induction false} ShiftIsExact(t: LeapSecondTable, u: UtcInstant)
    requires Valid(t)
    ensures WholeSeconds(t, u) == DayStart(t, u.day) + u.second + Shift(t, u.day)
  {
    InForceBound(Declared(t), u.day);
    if !OffsetsFit(t) {
      InForceAbove(Declared(t), u.day, 0x7fff - t.initial);
    }
  }

  /** Whole seconds that survive the shift by 16 bits. */
  predicate Shiftable(whole: int) {
    -0x8000_0000_0000 <= whole < 0x8000_0000_0000
  }

  ghost predicate Converts(t: LeapSecondTable, u: UtcInstant) {
    Valid(t) && Accepted(t, u) && Shiftable(WholeSeconds(t, u))
  }

  /** A convertible instant converts to its tick, shifted as its day is. */
  lemma {:induction false} ConvertedTick(t: LeapSecondTable, u: UtcInstant)
    requires Converts(t, u)
    ensures UtcToTai(t, u) == Ok(Tick(t, u) + Shift(t, u.day) * 0x1_0000)
  {
    hide Wrap64, WholeSeconds, Shift;
    ShiftIsExact(t, u);
    TicksFit(WholeSeconds(t, u), u.subsecond);
  }

  /** Where the code returns the mathematical tick: exactly while the offset
      has not wrapped and the whole seconds survive the 16-bit shift, which
      they do for about 1.6 billion days on either side of the epoch. */
  lemma {:induction false} ConversionIsTick(t: LeapSecondTable, u: UtcInstant)
    requires Valid(t) && Accepted(t, u)
    ensures UtcToTai(t, u) == Ok(Tick(t, u)) <==> Unwrapped(t, u.day) && Shiftable(DayStart(t, u.day) + u.second)
  {
    hide WholeSeconds, DayStart;
    ShiftIsExact(t, u);
    TicksFit(WholeSeconds(t, u), u.subsecond);
  }

  /** The first second, in exact TAI, whose offset has wrapped. */
  function WrapSecond(t: LeapSecondTable): int
    requires t.count <= MAX_LEAP_TRANSITIONS && !OffsetsFit(t)
  {
    WrapDay(t) * SECONDS_PER_DAY + 0x8000
  }

  /** The offset never wraps, or wraps so early or so late that all
      convertible instants lie on one side of it. */
  predicate OrderSafe(t: LeapSecondTable)
    requires t.count <= MAX_LEAP_TRANSITIONS
  {
    OffsetsFit(t) || WrapSecond(t) <= -0x8000_0000_0000 || WrapSecond(t) >= 0x8000_0001_0000
  }

  lemma {:induction false} WrapDayStart(t: LeapSecondTable)
    requires Valid(t) && !OffsetsFit(t)
    ensures DayStart(t, WrapDay(t)) == WrapSecond(t)
    ensures MIN_I32 < WrapDay(t) && IsLeapDay(Declared(t), WrapDay(t) - 1)
  {
    var k := 0x7fff - t.initial;
    assert Declared(t)[k].day == WrapDay(t);
    InForcePrefix(Declared(t), WrapDay(t), k + 1);
  }

  /** An instant is before the wrap exactly when its exact second is. */
  lemma {:induction false} SideOfWrap(t: LeapSecondTable, u: UtcInstant)
    requires Valid(t) && !OffsetsFit(t) && Accepted(t, u)
    ensures u.day < WrapDay(t) <==> DayStart(t, u.day) + u.second < WrapSecond(t)
  {
    hide DayStart, WrapDay, WrapSecond;
    WrapDayStart(t);
    if u.day < WrapDay(t) {
      DaysOrdered(t, u.day, WrapDay(t));
    } else if WrapDay(t) < u.day {
      DaysOrdered(t, WrapDay(t), u.day);
    }
  }

  lemma {:induction false} SameSide(t: LeapSecondTable, u: UtcInstant, v: UtcInstant)
    requires Converts(t, u) && Converts(t, v) && OrderSafe(t)
    ensures Shift(t, u.day) == Shift(t, v.day)
  {
    hide DayStart, WrapDay, WrapSecond, WholeSeconds;
    ShiftIsExact(t, u);
    ShiftIsExact(t, v);
    if !OffsetsFit(t) {
      SideOfWrap(t, u);
      SideOfWrap(t, v);
    }
  }

  /** Main result: on convertible instants the conversion preserves and
      reflects calendar order, hence is one-to-one. */
  lemma {:induction false} ConversionIsOrderIsomorphism(t: LeapSecondTable, u: UtcInstant, v: UtcInstant)
    requires Converts(t, u) && Converts(t, v) && OrderSafe(t)
    ensures UtcToTai(t, u).Ok? && UtcToTai(t, v).Ok?
    ensures Before(u, v) <==> UtcToTai(t, u).value < UtcToTai(t, v).value
    ensures u == v <==> UtcToTai(t, u).value == UtcToTai(t, v).value
    ensures UtcToTai(t, v).value == UtcToTai(t, u).value + 1 <==> u.day < MAX_I32 && v == Next(t, u)
  {
    hide WholeSeconds, DayStart, UtcToTai, Shift, OrderSafe;
    ConvertedTick(t, u);
    ConvertedTick(t, v);
    SameSide(t, u, v);
    TickStrictlyIncreases(t, u, v);
    NotLastDay(t, u);
    NextIsNextTick(t, u);
    TickStrictlyIncreases(t, v, Next(t, u));
  }

  /** ... and onto: every tick between two converted instants is the tick of
      some instant. */
  lemma {:induction false} ConversionIsOnto(t: LeapSecondTable, u: UtcInstant, w: UtcInstant, tick: i64)
    returns (v: UtcInstant)
    requires Converts(t, u) && Converts(t, w) && OrderSafe(t)
    requires UtcToTai(t, u).Ok? && UtcToTai(t, w).Ok? && UtcToTai(t, u).value <= tick <= UtcToTai(t, w).value
    ensures Converts(t, v) && UtcToTai(t, v) == Ok(tick)
  {
    hide WholeSeconds, DayStart, UtcToTai, Shift, OrderSafe;
    ConvertedTick(t, u);
    ConvertedTick(t, w);
    SameSide(t, u, w);
    NotLastDay(t, w);
    DaysOrdered(t, w.day, MAX_I32);
    TickInDay(t, w);
    v := EveryTickHasAnInstant(t, u, tick - Shift(t, u.day) * 0x1_0000);
    BetweenConverts(t, u, v, w);
    ConvertedTick(t, v);
  }

  /** Between convertible instants on one side of the wrap all are. */
  lemma {:induction false} BetweenConverts(t: LeapSecondTable, u: UtcInstant, v: UtcInstant, w: UtcInstant)
    requires Converts(t, u) && Converts(t, w) && Accepted(t, v)
    requires Tick(t, u) <= Tick(t, v) <= Tick(t, w) && Shift(t, u.day) == Shift(t, w.day)
    ensures Converts(t, v) && Shift(t, v.day) == Shift(t, u.day)
  {
    hide WholeSeconds, DayStart, WrapDay;
    ShiftIsExact(t, u);
    ShiftIsExact(t, v);
    ShiftIsExact(t, w);
    TickStrictlyIncreases(t, v, u);
    TickStrictlyIncreases(t, w, v);
  }

  lemma {:induction false} TickInDay(t: LeapSecondTable, u: UtcInstant)
    requires Valid(t) && Accepted(t, u)
    ensures Tick(t, u) < (DayStart(t, u.day) + DayLength(t, u.day)) * 0x1_0000
  {
    hide DayStart;
  }

  /** Convertible instants are far from the last day. */
  lemma {:induction false} NotLastDay(t: LeapSecondTable, u: UtcInstant)
    requires Converts(t, u)
    ensures u.day < MAX_I32
  {}

  /** The far future is not ordered: 2^31 - 1 days out the tick has wrapped. */
  lemma {:induction false} FarFutureWraps(t: LeapSecondTable)
    requires Valid(t)
    ensures UtcToTai(t, UtcInstant(MAX_I32, 0, 0)).value < UtcToTai(t, UtcInstant(0, 0, 0)).value
  {
    hide Wrap16, InForce;
  }

  /** The conversion keeps calendar order on all convertible instants. */
  ghost predicate KeepsOrder(t: LeapSecondTable) {
    forall u, v :: Converts(t, u) && Converts(t, v) ==>
                     (Before(u, v) <==> UtcToTai(t, u).value < UtcToTai(t, v).value)
  }

  /** A table that lets the 16-bit offset wrap is accepted. It breaks the order
      of the returned values exactly when some convertible instant comes before
      the wrapping transition and some convertible instant after it. */
  lemma {:induction false} OrderKeptExactly(t: LeapSecondTable)
    requires Valid(t)
    ensures KeepsOrder(t) <==> OrderSafe(t)
  {
    hide WholeSeconds, WrapDay, WrapSecond;
    if OrderSafe(t) {
      forall u, v | Converts(t, u) && Converts(t, v)
        ensures Before(u, v) <==> UtcToTai(t, u).value < UtcToTai(t, v).value
      {
        ConversionIsOrderIsomorphism(t, u, v);
      }
    } else {
      var u := LastBeforeWrap(t);
      var v := FirstAfterWrap(t);
      WrapBreaksOrder(t, u, v);
    }
  }

  lemma {:induction false} WrapBreaksOrder(t: LeapSecondTable, u: UtcInstant, v: UtcInstant)
    requires Converts(t, u) && Converts(t, v) && !OrderSafe(t)
    requires u.day < WrapDay(t) <= v.day && u.subsecond == v.subsecond == 0
    requires WholeSeconds(t, u) == Min(WrapSecond(t), 0x8000_0000_0000) - 1
    requires WholeSeconds(t, v) == Max(WrapSecond(t) - 0x1_0000, -0x8000_0000_0000)
    ensures Before(u, v) && UtcToTai(t, u).value >= UtcToTai(t, v).value
  {
    hide WholeSeconds, DayStart, WrapDay, WrapSecond;
    ShiftIsExact(t, u);
    ShiftIsExact(t, v);
    ConvertedTick(t, u);
    ConvertedTick(t, v);
  }

  /** The exact second of the last convertible instant before the wrap. */
  lemma {:induction false} LastBeforeWrap(t: LeapSecondTable) returns (u: UtcInstant)
    requires Valid(t) && !OrderSafe(t)
    ensures Converts(t, u) && u.day < WrapDay(t) && u.subsecond == 0
    ensures WholeSeconds(t, u) == Min(WrapSecond(t), 0x8000_0000_0000) - 1
  {
    DaysAreFar(t);
    hide DayStart, WholeSeconds, WrapDay;
    WrapDayStart(t);
    if WrapSecond(t) <= 0x8000_0000_0000 {
      u := UtcInstant(WrapDay(t) - 1, SECONDS_PER_DAY, 0);
      DaysAbut(t, u.day);
    } else {
      u := SecondHasAnInstant(t, UtcInstant(0, 0, 0), 0x7fff_ffff_ffff);
    }
    SideOfWrap(t, u);
    ShiftIsExact(t, u);
  }

  lemma {:induction false} FirstAfterWrap(t: LeapSecondTable) returns (v: UtcInstant)
    requires Valid(t) && !OrderSafe(t)
    ensures Converts(t, v) && WrapDay(t) <= v.day && v.subsecond == 0
    ensures WholeSeconds(t, v) == Max(WrapSecond(t) - 0x1_0000, -0x8000_0000_0000)
  {
    hide DayStart, WholeSeconds, WrapDay;
    WrapDayStart(t);
    v := UtcInstant(WrapDay(t), 0, 0);
    if WrapSecond(t) < -0x7fff_ffff_0000 {
      v := SecondHasAnInstant(t, v, -0x7fff_ffff_0000);
    }
    SideOfWrap(t, v);
    ShiftIsExact(t, v);
  }

  /** Every exact second from an instant on, short of the last day, begins at
      an instant. */
  lemma {:induction false} SecondHasAnInstant(t: LeapSecondTable, from: UtcInstant, second: int)
    returns (u: UtcInstant)
    requires Valid(t) && Accepted(t, from) && from.subsecond == 0
    requires DayStart(t, from.day) + from.second <= second <= 0x8000_0001_0000
    ensures Accepted(t, u) && u.subsecond == 0 && DayStart(t, u.day) + u.second == second
  {
    DaysAreFar(t);
    hide DayStart;
    u := EveryTickHasAnInstant(t, from, second * 0x1_0000);
  }

  lemma {:induction false} DaysAreFar(t: LeapSecondTable)
    requires t.count <= MAX_LEAP_TRANSITIONS
    ensures DayStart(t, MAX_I32) > 0x8000_0001_0000 && DayStart(t, 0) < 0x1_0000
  {
    hide InForce;
    InForceBound(Declared(t), 0);
  }

  // ----- two accepted tables whose offset wraps

  /** One transition, on `day`, from the largest 16-bit offset. */
  function WrappingTable(day: i32): LeapSecondTable {
    RawTable(1, 0x7fff, seq(MAX_LEAP_TRANSITIONS, i => if i == 0 then Transition(day, -0x8000) else EMPTY_TRANSITION))
  }

  /** Both tables pass validation. The one that wraps on day 0 breaks order;
      the one that wraps on the last day keeps it. */
  lemma {:induction false} WrappingTables()
    ensures Valid(WrappingTable(0)) && !OffsetsFit(WrappingTable(0)) && !KeepsOrder(WrappingTable(0))
    ensures Valid(WrappingTable(MAX_I32)) && !OffsetsFit(WrappingTable(MAX_I32)) && KeepsOrder(WrappingTable(MAX_I32))
  {
    hide KeepsOrder;
    OrderKeptExactly(WrappingTable(0));
    OrderKeptExactly(WrappingTable(MAX_I32));
  }

  // ----- elapsed time

  ghost function ElapsedTai(t: LeapSecondTable, epoch: UtcInstant, instant: UtcInstant): Result<u32> {
    var from := UtcToTai(t, epoch);
    var to := UtcToTai(t, instant);
    if from.Err? then Err(from.error)
    else if to.Err? then Err(to.error)
    else if to.value - from.value > MAX_I64 || to.value < from.value then Err(NegativeElapsed)
    else if to.value - from.value > GLOBAL_MAX_DURATION_RAW then Err(MissionDuration)
    else Ok(to.value - from.value)
  }

  method Elapsed(t: LeapSecondTable, epoch: UtcInstant, instant: UtcInstant) returns (r: Result<u32>)
    ensures r == ElapsedTai(t, epoch, instant)
  {
    hide UtcToTai;
    var from := UtcToTaiQ16(t, epoch);
    if from.Err? {
      return Err(from.error);
    }
    var to := UtcToTaiQ16(t, instant);
    if to.Err? {
      return Err(to.error);
    }
    var elapsed := Gap(from.value, to.value);
    if elapsed < MIN_I64 || elapsed > MAX_I64 {
      return Err(NegativeElapsed);
    }
    if elapsed < 0 {
      return Err(NegativeElapsed);
    }
    if elapsed > MAX_U32 {
      return Err(MissionDuration);
    }
    if elapsed > GLOBAL_MAX_DURATION_RAW {
      return Err(MissionDuration);
    }
    return Ok(elapsed);
  }

  /** Between convertible instants on one side of any wrap, elapsed time is the
      difference of their ticks, refused as negative when it is or when it does
      not fit 64 bits, and for its length when that exceeds four hours. */
  lemma {:induction false} ElapsedIsTickDifference(t: LeapSecondTable, a: UtcInstant, b: UtcInstant)
    requires Converts(t, a) && Converts(t, b) && Unwrapped(t, a.day) == Unwrapped(t, b.day)
    ensures ElapsedTai(t, a, b) ==
              if Before(b, a) || Tick(t, b) - Tick(t, a) > MAX_I64 then Err(NegativeElapsed)
              else if Tick(t, b) - Tick(t, a) > 943_718_400 then Err(MissionDuration)
              else Ok(Tick(t, b) - Tick(t, a))
  {
    hide UtcToTai, DayStart, WholeSeconds, Unwrapped;
    ConvertedTick(t, a);
    ConvertedTick(t, b);
    TickStrictlyIncreases(t, a, b);
    TickStrictlyIncreases(t, b, a);
  }

  /** Successful elapsed times add up; the sum is refused only for length. */
  lemma {:induction false} ElapsedAdds(t: LeapSecondTable, a: UtcInstant, b: UtcInstant, c: UtcInstant)
    requires ElapsedTai(t, a, b).Ok? && ElapsedTai(t, b, c).Ok?
    ensures var total := ElapsedTai(t, a, b).value + ElapsedTai(t, b, c).value;
            ElapsedTai(t, a, c) == (if total <= GLOBAL_MAX_DURATION_RAW then Ok(total) else Err(MissionDuration))
  {
    hide UtcToTai;
  }
}
