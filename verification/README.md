# KSA64 verification model

KSA64 is a deterministic fixed-point flight simulator. This project models the
parts of its portable core on which everything else rests and proves what they
promise: for all inputs of the arithmetic, and for all runs of the state
machines.

| files | what they model |
|---|---|
| `Wrappers`, `Arithmetic` | shared result shapes, widths, rounding and shifts |
| `Numeric`, `TwoWord`, `Roots`, `Faultless` | the two-word kernel: 64-bit multiply, shift, long division and roots built from 32-bit words, ties-away rounding, saturation, sticky faults |
| `Interpolation`, `Guidance`, `Environment` | the general and the fast table lookup, pitch guidance, the tabulated atmosphere |
| `Residual` | integration with exact residual carry, and the rounded blend |
| `LeapSeconds` | UTC to TAI over a table of positive leap seconds (section 2.2 of the operational rules in ITU-R TF.460-6), elapsed time |
| `EventClock` | the exact event clock and its tiling of time |
| `Effectors` | validity of the effector pack |
| `RcsValves`, `Rcs`, `RcsFlow`, `RcsLaws`, `RcsWorld`, `RcsExample` | the cold-gas valve machine, supply, propellant flow and the laws its results obey, the loop in which the clock, the valves and the tank meet, and packs at the edge of its promises |
| `Canards`, `AirData` | canard actuators with load feedback, the pitot delay ring |
| `StagedVehicle`, `StagedMission`, `StagedTimeline`, `StagedExample`, `Telemetry` | the planar staged mission, its mass accounting, its timeline, small examples and its telemetry |
| `HobbyFlight`, `HobbyMission`, `HobbyTimeline` | the eight-phase hobby flight, its runs, and when and how each step of one happens |

Objects the source updates in place are classes with a function that gives
their abstract value; loops are loops with invariants; `NumericStatus` and
`Unsigned64`, which the source passes by mutable reference, are passed in and
handed back. Event masks and valve masks are sets of the defined bits. Fixed
arrays are sequences of the same length. `i32`, `u32` and the other widths are
subset types; wherever the source's plain `+`, `-`, `<<` or `as` can leave its
type, the wrap-around of the release build is written out.

Every lemma carries `{:induction false}`: each proof is the one that is written.

Noise hashes, aerodynamic coefficients, hinge moments, planar physics, thrust
and drag enter as arbitrary parameters, so the results hold for whatever the
code outside this model computes.

## Where the code is narrower than its comments

Each point has a lemma that says exactly when the promise holds and, where the
statement itself does not name one, a lemma with an accepted input for which it
fails.

- The fast interpolation does not preserve the general rounding contract: in
  the last 1/131072 of a segment its fraction rounds to a whole. The two forms
  agree exactly outside that tail or when the values differ by at most 2^15
  (`Interpolation.FastFormAgreement`, `Interpolation.FastFormDiffers`).
- `tables_are_valid` computes spans in wrapping `i32`, so it accepts tables
  that descend once. An accepted table samples without a fault everywhere if
  and only if its last knot is no higher than its first drop
  (`Environment.NeverFaultsExactly`, `Environment.SomeAcceptedTableFaults`).
- `integrate_with_residual` accepts shifts up to 62, but adding half a cell can
  overflow from shift 32 on. The no-drift law holds for every run if and only
  if the shift is at most 31 (`Residual.DriftLawExactly`, whose proof names a
  failing input for each larger shift).
- `utc_to_tai_q16` shifts whole seconds left by 16 in `i64`: beyond about 1.6
  billion days the result wraps (`LeapSeconds.ConversionIsTick`,
  `LeapSeconds.FarFutureWraps`). A table whose 16-bit offset wraps is accepted.
  The converted times keep calendar order if and only if the offset never wraps,
  or wraps so early or so late that all convertible instants are on one side
  (`LeapSeconds.OrderKeptExactly`, `LeapSeconds.WrappingTables`).
- Pulse accumulators saturate at 255. Quanta are conserved over a run if and
  only if no accepted request overfills one (`RcsValves.BalancedExactly`,
  `RcsExample.FloodLosesQuanta`).
- Valve edges are added with saturation at the end of `i32` time, which is also
  the mark for no edge. Pulses stay well formed, ordered and disjoint, and last
  as long as what was emitted, if and only if no accepted release schedules one
  across that end; the clock's last release can, though the world loop stops
  long before it
  (`RcsValves.RunKeepsPulsesOrdered`, `RcsValves.RunAccountsForOpenTime`,
  `RcsExample.LastReleaseNeverCloses`).
- A valid jet may be given a pulse that, with its valve delay, outlasts the
  interval; a command at the next release is then refused and aborts the flight.
  The pulse is pending there if and only if delay plus length exceed 8 quanta
  (`RcsValves.PendingAtNextRelease`, `RcsExample.SlowPulseBlocks`); with jets
  whose longest pulse and delay fit an interval it never happens
  (`RcsWorld.PromptJetsSettle`).
- The world loop narrows the epoch to 16 bits, while a valid mission may last
  131072 releases: a flight is aborted by its release of epoch 65536, if and only
  if it gets that far (`RcsWorld.Fly`, `RcsExample.LongFlightStops`). The clock's
  own overflow is never reached.
- A depletion can round to zero ticks, and the rigid body refuses a step of no
  duration, so the world loop aborts instead of reaching the release. A segment
  has zero ticks if and only if the remaining propellant times 2^26 is below the
  flow (`RcsFlow.ZeroTicksExactly`, `RcsExample.VentingStops`); a pack whose
  valves together let out at most 2^26 never aborts this way
  (`RcsWorld.ModestFlowGoesOn`).
- Canard lag 8 is accepted but the eight-slot ring turns it into no lag at all;
  the declared lag is honoured if and only if it is at most 7
  (`Canards.LagHonouredExactly`).
- The pitot Mach field can round up past full scale and wrap negative in a
  valid reading; it is accurate if and only if the rounding stays in the field
  (`AirData.ValidMachIsAccurate`, `AirData.FullScaleMachWraps`).
- Quantising a pressure adds half a quantum with saturation, so near the end of
  `i32` a valid pressure can be off by almost a whole quantum; it is accurate if
  and only if it is at most half a quantum past the last grid point
  (`AirData.ValidReadingIsAccurate`, `AirData.FullScalePressureDrops`).
- The hobby rail top and main altitude are unchecked sums on a launch altitude
  that is bounded only below. Rail exit and main deployment happen on the right
  side of the true threshold if and only if the sum fits
  (`HobbyFlight.RailExitExactly`, `HobbyFlight.MainExactly`,
  `HobbyMission.HighestLaunchWraps`). When it wraps, the rocket leaves the rail
  in its first step, and the main comes out only at the landing
  (`HobbyMission.WrappedRailExitsAtOnce`,
  `HobbyMission.WrappedMainOnlyOnGround`).
- The hobby launch mass is an unchecked sum that wraps for the two largest
  admissible masses (`HobbyMission.LaunchMassSplit`,
  `HobbyMission.HeaviestLaunchWraps`).
- `consume_release` counts an epoch before it checks the multiplication, so its
  invariant ends at the first `EpochOverflow`
  (`EventClock.ExactEventClock.ConsumeRelease`).
- A stage whose load is exactly used up one step early burns one step less than
  planned; an empty stage burns for one step. Every other accepted stage burns
  its planned steps (`StagedTimeline.BurnEndsAtItsLength`,
  `StagedExample.ShortBurnsAreAccepted`).

## Model

| member | source | states |
|---|---|---|
| Arithmetic.RoundHalfAwayIsNearest | core/src/numeric.rs:243-282 | the rounding used throughout is the nearest integer, and a tie goes to the one of larger magnitude |
| Arithmetic.NearestIsUnique | core/src/numeric.rs:243-282 | no other integer satisfies that rule, so the rule is a complete contract |
| Arithmetic.RoundCancel | core/src/numeric.rs:308-313 | cancelling a common factor never moves the rounding decision |
| Numeric.ProductContract | core/src/numeric.rs:244-256 | whatever integer is nearest-away to a*b/2^shift, the product is that integer clamped to i32; Saturation is added exactly when clamping moved it and no fault is lost |
| Numeric.QuotientContract | core/src/numeric.rs:259-282 | the same for n*2^shift/d with either sign of d |
| Numeric.RefusedScaling | core/src/numeric.rs:244-282 | a zero divisor, and then a shift beyond 31, are refused with zero and their own fault |
| Numeric.Add | core/src/numeric.rs:442-452 | the overflow tests decide exactly the saturated sum and its fault |
| Numeric.Subtract | core/src/numeric.rs:454-464 | the overflow tests decide exactly the saturated difference and its fault |
| Numeric.ProductByFraction | core/src/numeric.rs:244-256 | scaling by a fraction in [0, 1] keeps the sign, never grows and never faults |
| TwoWord.Magnitude | core/src/numeric.rs:52-60 | absolute value of every i32, i32::MIN included |
| TwoWord.AddWords | core/src/numeric.rs:63-70 | carry by comparison is addition modulo 2^64 |
| TwoWord.MultiplyUnsigned32 | core/src/numeric.rs:72-91 | four half-word products add up to the exact 64-bit product |
| TwoWord.ShiftLeft32 | core/src/numeric.rs:94-106 | the pair denotes value * 2^shift without loss |
| TwoWord.ShiftRight | core/src/numeric.rs:109-118 | the joined words denote the floor of value / 2^shift |
| TwoWord.Increment | core/src/numeric.rs:121-126 | adds one with carry, modulo 2^64 |
| TwoWord.BitAt | core/src/numeric.rs:129-135 | the bit of the denoted integer across both words |
| TwoWord.SetBit | core/src/numeric.rs:138-144 | setting a clear bit adds its weight to the denoted integer |
| TwoWord.DivideUnsigned32By16 | core/src/numeric.rs:146-161 | exact quotient and remainder of the single-word scan |
| TwoWord.DivideUnsigned64By16Bits | core/src/numeric.rs:188-207 | exact quotient and remainder although only bitCount bits are scanned |
| TwoWord.DivideUnsigned64By32 | core/src/numeric.rs:209-223 | exact quotient and remainder; the 32-bit partial remainder never overflows |
| TwoWord.DividesPrefixStep | core/src/numeric.rs:214-221 | one restoring step extends the quotient of the consumed bits by one digit |
| TwoWord.SignedFromMagnitude | core/src/numeric.rs:225-241 | sign and clamp of a 64-bit magnitude, Saturation exactly when it does not fit |
| TwoWord.RoundByShift | core/src/numeric.rs:251-255 | adding half a unit and shifting is rounding to nearest |
| TwoWord.MultiplyScaled | core/src/numeric.rs:244-256 | the word algorithm computes the rounded, clamped product and its status for all inputs and shifts, invalid ones included |
| TwoWord.DivideScaled | core/src/numeric.rs:259-282 | the word algorithm computes the rounded, clamped quotient and its status, zero divisor and invalid shift included |
| TwoWord.DivideScaledReducedU16 | core/src/numeric.rs:314-359 | for every SHIFT, REDUCTION and NUMERATOR_BITS and all inputs, value and status equal those of the general division |
| TwoWord.ReductionCancels | core/src/numeric.rs:332-357 | dropping the common power of two leaves the rounding decision where it was |
| Roots.FloorRootUnique | core/src/numeric.rs:389-399 | the bracketing squares determine the root, so algorithms that establish them agree |
| Roots.SqrtFloorUnsigned64 | core/src/numeric.rs:361-387 | the binary search terminates with the floor root of every 64-bit target |
| Roots.SqrtFloorScaledU32 | core/src/numeric.rs:393-399 | floor root of value * 2^shift, InvalidShift beyond 31 |
| Roots.DigitStep | core/src/phase2_numeric.rs:14-22 | one digit of the shift-and-subtract root keeps the partial root's square bracket |
| Roots.SqrtFloorU32 | core/src/phase2_numeric.rs:7-24 | the digit-by-digit root is the same floor root as the binary search, for every value |
| Roots.AddUnsigned64Checked | core/src/numeric.rs:401-412 | exact sum, or all ones with Saturation exactly on 64-bit overflow |
| Roots.Magnitude3Floor | core/src/numeric.rs:428-441 | floor root of the exact sum of squares; never faults |
| Roots.Magnitude4Floor | core/src/numeric.rs:415-425 | floor root of the exact sum of squares; faults only when all four inputs are i32::MIN |
| Interpolation.InterpolateClamped | core/src/numeric.rs:467-503 | the scan computes the general interpolation in every case, malformed tables included |
| Interpolation.InterpolateBracketed | core/src/numeric.rs:466-503 | a good table never faults, clamps at both ends and stays between the knots that bracket x |
| Interpolation.InterpolateMonotone | core/src/numeric.rs:466-503 | monotone in x wherever the knot values are, across segment borders and into the clamped ends |
| Interpolation.KnotBounds | core/src/numeric.rs:466-503 | a knot's value bounds every sample on either side of it |
| Interpolation.InterpolateAccurate | core/src/numeric.rs:466-503 | a sample lies on the straight line between its knots, off by at most half a unit and a 2^-16th of their difference |
| Interpolation.MalformedIsRefused | core/src/numeric.rs:466-503 | an empty or lopsided table, and an interior point the scan cannot reach without meeting a span that does not rise, are refused with zero and InvalidInput |
| Interpolation.DivideUnsignedFractionQ16IntegralQ12 | core/src/numeric.rs:163-186 | the 32-by-16 division gives the exactly rounded fraction, or InvalidInput outside its limits |
| Interpolation.FastFractionMeans | core/src/numeric.rs:163-186 | the fraction is the nearest 65536th exactly for a proper fraction of whole Q12 units within the stated limits, else zero and InvalidInput |
| Interpolation.InterpolateClampedIntegralQ12 | core/src/numeric.rs:509-550 | the scan computes the fast interpolation in every case |
| Interpolation.WholeFraction | core/src/numeric.rs:181-185 | the fraction rounds to 65536 exactly in the last 1/131072 of the span |
| Interpolation.FastFormAgreement | core/src/numeric.rs:505-550 | the fast form equals the general one if and only if x is outside that tail or the values differ by at most 2^15; in the tail it returns the right-hand knot |
| Interpolation.FastFormDiffers | core/src/numeric.rs:505-508 | a concrete table and point where the two forms differ |
| Guidance.IsValid | core/src/guidance.rs:35-57 | the neighbour scan accepts exactly the pairwise ordered programs |
| Guidance.PitchAt | core/src/guidance.rs:59-87 | the scan computes the specified pitch in every case |
| Guidance.PitchIsInterpolation | core/src/guidance.rs:59-87 | on a valid program the inlined scan is the general interpolation |
| Guidance.PitchMonotone | core/src/guidance.rs:59-87 | pitch never decreases in time, stays between first and last knot and never faults |
| Environment.TablesAreValid | core/src/environment.rs:45-69 | the scan accepts exactly the tables with matching columns, signs and wrapped spans |
| Environment.Sample | core/src/environment.rs:71-88 | density and gravity are the fast interpolations, status threaded through both |
| Environment.ValidTablesNeverFault | core/src/environment.rs:45-88 | a table with honest spans samples everywhere without a fault; density is never negative, gravity always positive |
| Environment.NeverFaultsExactly | core/src/environment.rs:45-88 | an accepted table samples density and gravity everywhere without a fault if and only if its last knot is no higher than its first drop |
| Environment.SomeAcceptedTableFaults | core/src/environment.rs:61-64 | a concrete accepted table that faults |
| Residual.Integrate | core/src/phase10_numeric.rs:147-181 | the code's steps compute the specified increment, residual and status, wrapping included |
| Residual.IntegrateAll | core/src/phase10_numeric.rs:142-181 | over a whole fault-free run of shift at most 31 the drift is at most half a cell |
| Residual.StepConserves | core/src/phase10_numeric.rs:147-181 | a clear step returns the rounded numerator and keeps the rest, at most half a cell |
| Residual.StepExactly | core/src/phase10_numeric.rs:147-181 | while adding half a cell does not overflow, for every accepted shift: a step returns the nearest number of cells to the exact numerator and keeps the rest if it fits i32, else records Saturation and leaves the residual alone |
| Residual.StepRefusals | core/src/phase10_numeric.rs:154-166 | a shift outside 1 to 62, and a numerator that does not fit 64 bits, are refused with zero and the residual left alone |
| Residual.RunNeverDrifts | core/src/phase10_numeric.rs:142-181 | 2^shift times the summed outputs plus the residual is the exact sum of rate times dt, however long the run |
| Residual.DriftLawExactly | core/src/phase10_numeric.rs:147-181 | the conservation law holds for every run if and only if the shift is at most 31 |
| Residual.InterpolateI32 | core/src/phase10_numeric.rs:116-140 | ties-away blend that stays between its ends and meets both exactly; its own saturation branch is never taken |
| LeapSeconds.Validate | core/src/phase10_time.rs:59-81 | the neighbour scan accepts exactly the ordered tables with clear unused entries, and says which rule failed |
| LeapSeconds.OffsetAtDay | core/src/phase10_time.rs:83-93 | the offset is the initial one plus the number of transitions in force |
| LeapSeconds.IsPositiveLeapDay | core/src/phase10_time.rs:95-100 | true exactly on days followed by a transition, the last i32 day included |
| LeapSeconds.UtcToTaiQ16 | core/src/phase10_time.rs:103-114 | the conversion and all its errors, wrap-around included |
| LeapSeconds.ConversionRefusals | core/src/phase10_time.rs:103-114 | each error occurs exactly under its condition, in the order of the tests; second 86400 exists only on the day before a declared transition |
| LeapSeconds.DaysAbut | core/src/phase10_time.rs:102-114 | each UTC day starts in TAI where the previous one, leap second included, ends |
| LeapSeconds.ConversionIsTick | core/src/phase10_time.rs:102-114 | the code returns the mathematical tick if and only if the offset has not wrapped on that day and the whole seconds survive the shift |
| LeapSeconds.ConversionIsOrderIsomorphism | core/src/phase10_time.rs:102-114 | unless the offset wraps among the convertible instants, the conversion preserves and reflects calendar order, is one-to-one, and consecutive ticks are exactly consecutive instants |
| LeapSeconds.ConversionIsOnto | core/src/phase10_time.rs:102-114 | under the same condition every tick between two converted instants is the tick of some convertible instant |
| LeapSeconds.FarFutureWraps | core/src/phase10_time.rs:112-113 | the last representable day converts below day 0 |
| LeapSeconds.OrderKeptExactly | core/src/phase10_time.rs:66-114 | for an accepted table, the values returned for convertible instants are in calendar order if and only if the 16-bit offset never wraps or wraps outside the convertible seconds |
| LeapSeconds.WrappingTables | core/src/phase10_time.rs:66-71 | two accepted tables whose offset wraps: one breaks order, one keeps it |
| LeapSeconds.Elapsed | core/src/phase10_time.rs:139-156 | elapsed time or the specified error |
| LeapSeconds.ElapsedIsTickDifference | core/src/phase10_time.rs:139-156 | between convertible instants on one side of any wrap, elapsed time is the difference of their mathematical ticks, or the error for a reversed, 64-bit or too long one |
| LeapSeconds.ElapsedAdds | core/src/phase10_time.rs:139-156 | successful elapsed times add up; the sum is refused only for its length |
| EventClock.ExactEventClock.constructor | core/src/phase8_5_clock.rs:40-45 | a new clock is due at time 0 |
| EventClock.ExactEventClock.ConsumeRelease | core/src/phase8_5_clock.rs:57-74 | result and new state in all cases, the half-done overflow included |
| EventClock.ExactEventClock.NextSegment | core/src/phase8_5_clock.rs:76-100 | a segment ends at the earlier of release and deadline and its flags say which; all errors |
| EventClock.Run | core/src/phase8_5_clock.rs:57-100 | over any increasing deadlines the segments tile time with no release or deadline inside, epoch k is released once at 8192*k, every deadline is met where it was set, and the only early stop is the first epoch overflow |
| EventClock.CutIsUnbroken | core/src/phase8_5_clock.rs:76-100 | a segment cut at the next release or deadline has neither strictly inside |
| Effectors.CoefficientsAreValid | core/src/phase9_5_contract.rs:381-387 | the scan accepts exactly the pairwise ordered coefficient tables |
| Effectors.SupplyIsValid | core/src/phase9_5_contract.rs:402-408 | the scan accepts exactly the pairwise ordered supply curves |
| Effectors.IsValid | core/src/phase9_5_contract.rs:355-417 | the record scan decides the declarative validity of a pack |
| RcsValves.ScheduledPulse | core/src/phase9_5_rcs.rs:134-157 | a pulse that fits `i32` time lies on the 1024-tick grid, not before its release, with an admissible length of exactly the emitted quanta; one that does not loses its closing edge, and both if it would not even open |
| RcsValves.RefusalMeans | core/src/phase9_5_rcs.rs:113-131 | each refusal occurs exactly under its own condition on epoch, quanta and edges, the first unwilling jet deciding |
| RcsValves.AcceptedReleaseMeans | core/src/phase9_5_rcs.rs:132-157 | an accepted release emits the longest admissible pulse of what is wanted, keeps the rest up to 255, opens it 1024 ticks per quantum of valve delay after the epoch, 1024 later exactly for a delayed valve, and closes it 1024 ticks per emitted quantum after; stuck valves get no pulse |
| RcsValves.RescheduledMeans | core/src/phase9_5_rcs.rs:134-157 | the same of one jet, whatever was scheduled before |
| RcsValves.PendingExactly | core/src/phase9_5_rcs.rs:122-157 | a scheduled pulse is pending at a later time if and only if the request fires an unstuck valve and that is before epoch plus delay plus length or, if it has no closing edge in time, before its opening one |
| RcsValves.PendingAtNextRelease | core/src/phase9_5_rcs.rs:122-157 | at the next release it is pending if and only if the request fires an unstuck valve and delay, lateness and length together exceed 8 quanta |
| RcsValves.RequestConserves | core/src/phase9_5_rcs.rs:142-148 | one request conserves quanta if and only if the accumulator does not saturate |
| RcsValves.RunKeepsPulsesOrdered | core/src/phase9_5_rcs.rs:106-166 | over any run each jet's pulses are well formed, ordered and disjoint at every point if and only if no accepted release opens a pulse before the end of time that closes after it |
| RcsValves.RunConservesQuanta | core/src/phase9_5_rcs.rs:106-166 | over any run, while requests fit one pulse, requested quanta equal emitted plus waiting plus discarded by safing, and less than one pulse waits |
| RcsValves.BalancedExactly | core/src/phase9_5_rcs.rs:142-148 | over any run quanta are conserved if and only if no accepted request overfills the accumulator |
| RcsValves.RefusalsLeaveNoTrace | core/src/phase9_5_rcs.rs:106-132 | striking out every refused release of any run leads each jet through the same history, and what is left is at strictly increasing epochs of the release grid |
| RcsValves.RunAccountsForOpenTime | core/src/phase9_5_rcs.rs:106-166 | over any run the delivered, dropped and held pulses last exactly 1024 ticks per emitted quantum not swallowed by a stuck valve, if and only if no accepted release clips a pulse; requested time is pulse time, waiting, discarded by safing or clipped |
| RcsValves.MaskMembers | core/src/phase9_5_rcs.rs:187-200 | stuck-open and leaking jets flow at all times, stuck-closed ones never, the others exactly during their pulse |
| RcsValves.SafingLeavesUncommandedFlow | core/src/phase9_5_rcs.rs:162-166 | safing closes every commanded valve and cannot close a stuck-open or leaking one |
| RcsValves.MaskConstant | core/src/phase9_5_rcs.rs:189-200 | the active mask does not change over an interval without an edge inside |
| RcsValves.OpenTimeOfSegment | core/src/phase9_5_rcs.rs:183-185 | over such an interval a valve is open all the time or never |
| Rcs.RcsState.Create | core/src/phase9_5_rcs.rs:89-100 | a full tank and idle valves for a valid pack with jets, else InvalidPack |
| Rcs.RcsState.ScheduleSuccessor | core/src/phase9_5_rcs.rs:106-160 | the first refusal in the code's order and no change, or every jet rescheduled |
| Rcs.RcsState.ScheduleJet | core/src/phase9_5_rcs.rs:134-157 | one jet rescheduled in place, the others untouched |
| Rcs.RcsState.MakeSafe | core/src/phase9_5_rcs.rs:162-166 | all pulses and quanta dropped, propellant and epoch kept |
| Rcs.RcsState.NextValveEdgeAfter | core/src/phase9_5_rcs.rs:168-181 | the earliest edge in (after, through], or none exists |
| Rcs.RcsState.ActiveMaskAt | core/src/phase9_5_rcs.rs:189-200 | exactly the jets that flow, faults included; none from an empty tank |
| Rcs.RcsState.SplitAtEdges | core/src/phase9_5_rcs.rs:312-316 | repeated splitting terminates; the pieces have no edge inside and each jet's open time is its pulse clipped to the interval |
| Rcs.SampleSupply | core/src/phase9_5_rcs.rs:203-251 | refuses only invalid packs and loads; samples are the three curves interpolated at the load, positive, inside the knot envelope and without a fault |
| Rcs.SupplyMeans | core/src/phase9_5_rcs.rs:203-251 | a load on or beyond a knot samples that knot; a load between two knots samples the straight line between them, up to rounding |
| RcsFlow.FireJets | core/src/phase9_5_rcs.rs:318-369 | the mask; the status stays clear exactly when no jet's quantities and no running sum leave their types, and then the sums of force, torque and flow are exact |
| RcsFlow.BurnPropellant | core/src/phase9_5_rcs.rs:373-382 | consumption never exceeds the tank; depletion and its time are the rounded exact ones; the status stays clear exactly when both fit |
| RcsFlow.DepletionWithinHalfTick | core/src/phase9_5_rcs.rs:377 | the unclamped depletion time is within half a tick of the exact one |
| RcsFlow.IntegrateRcsSegment | core/src/phase9_5_rcs.rs:300-411 | a split is asked for exactly when an edge lies inside; otherwise the result is Ok exactly when no quantity leaves its type, is exact in every quantity, and splits the tank into consumed and remaining |
| RcsLaws.FiringMeans | core/src/phase9_5_rcs.rs:287-369 | in an Ok segment each jet's thrust is nominal thrust times supply scale to nearest, let through whole, by half, by a sixteenth or not at all as its fault and schedule say; its force is thrust times direction, its torque arm times force and its flow thrust over specific impulse times standard gravity, each within stated rounding; the totals are their sums |
| RcsLaws.BurnMeans | core/src/phase9_5_rcs.rs:373-382 | the tank empties if and only if flow times duration rounds to its load or more; consumption and depletion time are the nearest to the exact ones |
| RcsLaws.ImpulseMeans | core/src/phase9_5_rcs.rs:383-391 | the impulse is duration times the sum of thrusts, off by at most half a unit per jet |
| RcsFlow.MaskHoldsThroughout | core/src/phase9_5_rcs.rs:186-200 | the returned mask is the active mask at every tick of the segment |
| RcsFlow.DepletionIsInside | core/src/phase9_5_rcs.rs:373-382 | a depleting segment empties the tank within its own interval |
| RcsFlow.ZeroTicksExactly | core/src/phase9_5_rcs.rs:371-382 | a segment takes no time if and only if the remaining propellant times 2^26 is below the flow; then it empties the tank |
| RcsFlow.RunConservesPropellant | core/src/phase9_5_rcs.rs:373-393 | over any run of Ok segments consumed plus remaining is the initial load, and remaining stays within it |
| RcsFlow.SilentAfterDepletion | core/src/phase9_5_rcs.rs:326-329 | after a depletion every later segment has no mask, force, torque, flow or consumption |
| RcsFlow.IntegrateRun | core/src/phase9_5_rcs.rs:300-411 | the planned intervals integrated in turn form such a run, each over its own interval and faults, until the first refusal |
| RcsWorld.AdvanceToRelease | sim/src/phase9_5_mission.rs:293-396 | the loop reaches exactly the next release, with end-to-end segments cut at releases, deadlines and valve edges and every jet open for its clipped pulse, unless a deadline is not ahead, a quantity of the next segment leaves its type, as none of an integrated segment did, a segment has zero ticks, or the flight ends; each stop exactly then, the zero-tick one never with a pack of modest flow |
| RcsWorld.NextLeg | sim/src/phase9_5_mission.rs:295-340 | one segment cut by clock and valve edges and integrated: never a split request or an invalid pack, a clock error only for a deadline not ahead, a numeric one exactly when a quantity of this segment leaves its type |
| RcsWorld.ModestFlowGoesOn | core/src/phase8_mission/step.rs:313-316 | if all valves together let out at most 2^26, no segment has zero ticks |
| RcsWorld.TimelyRefusal | core/src/phase9_5_rcs.rs:113-131 | a release on the clock's grid is accepted if and only if every jet is willing; it is refused only for its quanta or a pending pulse |
| RcsWorld.PromptJetsSettle | core/src/phase9_5_rcs.rs:113-157 | if every jet's longest pulse and late valve fit an interval, no request is ever refused for a pending pulse |
| RcsWorld.RequestMeans | sim/src/phase9_5_mission.rs:563-576 | silence changes nothing and is never refused, safing leaves every jet idle without quanta, a command is a release of that instant |
| RcsWorld.Obey | sim/src/phase9_5_mission.rs:563-576 | a command schedules or is refused, safing clears, silence leaves the old pulses in place |
| RcsWorld.FlyInterval | sim/src/phase9_5_mission.rs:293-578 | one release, its request and the flight to the next: stopped by its epoch exactly from 65536 on, by a refused request exactly when the jets refuse it, by the steps exactly as they dictate; the clock cannot overflow and the supply reading cannot fail |
| RcsWorld.Fly | sim/src/phase9_5_mission.rs:293-578 | from a full tank, release after release, consumed plus remaining propellant is the wet mass and time is covered end to end; the flight is stopped by its epoch if and only if it completes 65536 releases with one more asked for, and every other way to stop is listed; a zero-tick stop finds the tank empty and never happens with a pack of modest flow, a pending pulse never with prompt jets |
| RcsExample.FloodLosesQuanta | core/src/phase9_5_rcs.rs:142-148 | a valid pack and 32 accepted requests after which every jet has lost a quantum |
| RcsExample.LastReleaseNeverCloses | core/src/phase9_5_rcs.rs:149-157 | on a valid pack the clock's last release is accepted and opens valves that have no closing edge, so open time no longer adds up |
| RcsExample.SlowPulseBlocks | core/src/phase9_5_rcs.rs:122-131 | a valid pack whose first pulse makes the command at the second release refused |
| RcsExample.VentingStops | core/src/phase8_mission/step.rs:313-316 | a valid pack with its valves stuck open on which the loop stops at once for a step of no duration |
| RcsExample.LongFlightStops | sim/src/phase9_5_mission.rs:411-412 | a valid pack on an idle flight that nothing stops before its release of epoch 65536, and that one does |
| Canards.ActuatorState.Release | core/src/phase9_5_canard.rs:46-81 | clamped request stored, each surface moved toward its target by at most its slew; invalid packs change nothing |
| Canards.ActuatorState.AcceptLoadLimits | core/src/phase9_5_canard.rs:83-85 | load limits replace the applied deflections and nothing else |
| Canards.ReleaseMeans | core/src/phase9_5_canard.rs:46-81 | a release stores the request clamped to the travel, and takes the surface to its goal, which its lag or its fault sets, if that is within one slew, else one slew toward it |
| Canards.LimitLoad | core/src/phase9_5_canard.rs:206-219 | beyond its hinge limit a surface takes the part of the clamped request that the limit is of the moment, within half a unit and half a 2^-15th, and is flagged; otherwise exactly the clamped request; never a fault |
| Canards.EffectiveTurnShrinks | core/src/phase9_5_canard.rs:206-219 | limiting never enlarges or reverses a deflection |
| Canards.EvaluateTurns | core/src/phase9_5_canard.rs:269-284 | the same of all four surfaces, with no hinge moment below the directional pressure, and the mask of the limited ones |
| Canards.NextKeeps | core/src/phase9_5_canard.rs:46-85 | every release or feedback keeps travel, slew and the ring's agreement with the request history |
| Canards.RunStaysInTravel | core/src/phase9_5_canard.rs:46-85 | over any run of releases, faults and feedback the surface stays within its limit and slew |
| Canards.HealthyTarget | core/src/phase9_5_canard.rs:64-68 | a healthy surface follows the clamped request of exactly lag releases earlier, lag 8 counting as 0 |
| Canards.LagHonouredExactly | core/src/phase9_5_canard.rs:64-68 | the declared lag is honoured if and only if it is at most 7 |
| Canards.ReleaseAndLimit | core/src/phase9_5_canard.rs:46-85 | the object does to its four surfaces what their independent tracks say |
| Canards.HeldCommandIsReached | core/src/phase9_5_canard.rs:46-81 | a held command is reached and kept after lag plus ceil(2*limit/slew) releases from any reachable state |
| Canards.HeldFaultSettles | core/src/phase9_5_canard.rs:64-78 | whatever is commanded, a lasting hardover ends at its stop and a neutral failure at zero within ceil(2*limit/slew) releases, and a jam never moves |
| AirData.PitotSensor.Create | core/src/phase9_5_air_data.rs:71-85 | refused exactly for a zero identity or an invalid configuration |
| AirData.PitotSensor.Sample | core/src/phase9_5_air_data.rs:86-159 | one slot written with the new reading, the delayed one handed out |
| AirData.ValidExactly | core/src/phase9_5_air_data.rs:93-142 | a reading is valid if and only if its epoch is none of the dropout's, counted from its start modulo 2^16, the biased pressure fits, both sensed values are in range and the status is clear |
| AirData.SensedMeans | core/src/phase9_5_air_data.rs:93-120 | the sensed values are the truth in the coarser unit to nearest, plus bias, plus amplitude times a signed 16-bit draw to nearest |
| AirData.QuantizeIsNearest | core/src/phase9_5_air_data.rs:161-168 | quantising puts any value on the grid, and moves it by at most half a quantum if and only if it is not further than that past the last grid point of its sign |
| AirData.ValidReadingIsAccurate | core/src/phase9_5_air_data.rs:93-141 | a valid pressure is on the grid, and within half a quantum of the sensed one if and only if that is not further past the last grid point; the sensed one is within the noise of the biased truth |
| AirData.PressureIsTrusted | core/src/phase9_5_air_data.rs:93-141 | a configuration whose full scale is at most half a quantum past the last grid point never reports a valid pressure off by more than noise plus half a quantum |
| AirData.ValidMachIsAccurate | core/src/phase9_5_air_data.rs:99-142 | a valid Mach is within half a quantum of the sensed one if and only if rounding stays in the 16-bit field; otherwise it is negative |
| AirData.MachIsTrusted | core/src/phase9_5_air_data.rs:99-142 | a configuration whose full scale stays in the field when rounded never reports a valid Mach off by more than noise plus half a quantum |
| AirData.MachFieldExact | core/src/phase9_5_air_data.rs:128-131 | the reported Mach is within half a quantum of its argument if and only if the argument plus half a quantum is below the first grid point outside 16 bits |
| AirData.FullScaleMachWraps | core/src/phase9_5_air_data.rs:93-142 | an accepted sensor whose reading is valid with Mach -0x8000 |
| AirData.FullScalePressureDrops | core/src/phase9_5_air_data.rs:93-168 | an accepted sensor whose reading is valid and off by a whole quantum less one |
| AirData.RingIsUnboundedHistory | core/src/phase9_5_air_data.rs:143-158 | at increasing epochs the eight slots answer like an unbounded map from epoch to reading |
| AirData.SampleAll | core/src/phase9_5_air_data.rs:86-159 | each output of a driven sensor is the reading recalled from everything measured so far |
| StagedVehicle.LaunchMass | core/src/phase2_scenario.rs:206-212 | the accumulated launch mass is payload plus all dry and propellant masses, without saturation |
| StagedVehicle.InitialTruth | core/src/phase2_scenario.rs:197-233 | an accounted vehicle on its first stage, or nothing exactly when the orbital part faults |
| StagedVehicle.MomentumMeans | core/src/phase2_scenario.rs:197-205 | the initial momentum is the turning air's velocity plus the surface velocity, times the radius, each product to nearest |
| StagedVehicle.PlannedIsNearest | core/src/phase2_mission.rs:285-290 | the planned propellant of a step is flow times time step, to nearest |
| StagedVehicle.BurnFitsLoad | core/src/phase2_scenario.rs:360-364 | the planned-burn test is exact: nothing in it can saturate |
| StagedVehicle.AcceptScenario | core/src/phase2_scenario.rs:293-461 | the checks in their order accept exactly the valid scenarios, and the numeric-fault error is unreachable |
| StagedVehicle.BurnStep | core/src/phase2_mission.rs:285-307 | one burning step: consumption, mass, cutoff and phase, without a fault |
| StagedVehicle.SeparationStep | core/src/phase2_mission.rs:308-336 | the drop of a spent stage and the state of the next; a next stage always exists |
| StagedVehicle.AdvanceVehicle | core/src/phase2_mission.rs:280-348 | one step of the staging machine keeps total mass accounted, never faults and never lacks a stage |
| StagedMission.MissionStep | core/src/phase2_mission.rs:226-393 | the loop body: staging, impact, end and pitch as the step's physics and clock dictate; it fails only when the physics raises a fault |
| StagedMission.ExecuteMission | core/src/phase2_mission.rs:184-413 | every prefix of a run has its mass accounted and its steps explained; only a fault of the step after the last observed one or of the closing computations can fail it, Configuration and InitialState being unreachable; the outcome is Impacted if and only if the last step's motion is below the earth's radius, or on it without climbing; history, pressure maximum and cutoff step are exact |
| StagedMission.EndsAtTheGround | core/src/phase2_mission.rs:366-384 | over any run no step before the last brings the vehicle down or uses up the steps; Impact and End are raised exactly when that happens |
| StagedMission.ImpactExactly | core/src/phase2_mission.rs:366-413 | a completed run has impacted if and only if its last motion is down, and one that never comes down lasts all its steps |
| StagedMission.HistoryMeans | core/src/phase2_mission.rs:203-208 | an event is in the history if and only if a step raised it or it is the ignition of a stage burning on the pad; the pressure maximum is the largest positive pressure |
| StagedMission.PhasesAdvance | core/src/phase2_mission.rs:280-348 | stage and phase never move backward and mass never grows |
| StagedMission.CutoffOncePerStage | core/src/phase2_mission.rs:296-306 | two cutoffs belong to different stages, in order |
| StagedMission.SeparationOncePerStage | core/src/phase2_mission.rs:308-319 | two separations belong to different stages, in order |
| StagedMission.CompleteIsAbsorbing | core/src/phase2_mission.rs:347 | a completed vehicle never changes again |
| StagedMission.PitchNeverDrops | core/src/phase2_mission.rs:251 | while the clock does not run back the commanded pitch never decreases |
| StagedMission.RunWithTelemetry | core/src/phase2_telemetry.rs:489-518 | the frames of a mission are those of its observed steps; a completed one leaves nothing pending |
| StagedMission.MissionEventsAreFramed | core/src/phase2_telemetry.rs:489-518 | every event of a completed mission is in the first frame at or after its step |
| StagedTimeline.BurnEndsAtItsLength | core/src/phase2_scenario.rs:360-364 | the acceptance rule on the load fixes the step at which a burn is over |
| StagedTimeline.RunIsOnTime | core/src/phase2_mission.rs:280-348 | at every step of every run the counters agree with the scenario's closed-form timeline and the propellant with the burned steps |
| StagedTimeline.EventsKeepToTheTimeline | core/src/phase2_mission.rs:280-348 | under any physics a step raises ignition, cutoff or separation exactly when the timeline says so |
| StagedTimeline.StageKeepsToTheTimeline | core/src/phase2_mission.rs:280-348 | the active stage at a step is the one whose slot on the timeline holds it |
| StagedTimeline.ScheduledEventsHappen | core/src/phase2_mission.rs:280-348 | every ignition after launch, cutoff and separation that falls inside a run takes place |
| StagedTimeline.VehicleIgnoresPhysics | core/src/phase2_mission.rs:349-355 | two runs of one scenario carry the same vehicle and staging events at the same step |
| StagedExample.ExampleIsValid | core/src/phase2_scenario.rs:293-461 | a concrete scenario passes every acceptance rule |
| StagedExample.ExampleRun | core/src/phase2_mission.rs:226-393 | that scenario has a complete run, cut off and ended at its last step |
| StagedExample.ShortBurnsAreAccepted | core/src/phase2_scenario.rs:360-364 | two accepted scenarios of three planned steps: one cuts off after two, an empty one after one |
| Telemetry.Emitter.Observe | core/src/phase2_telemetry.rs:472-486 | events accumulate; a written frame carries and clears them, a refused write keeps them |
| Telemetry.Feed | core/src/phase2_telemetry.rs:472-486 | a new emitter that observes a whole run holds exactly its frames, their count and what is still pending |
| Telemetry.EmitAll | core/src/phase2_telemetry.rs:472-486 | the frames of a whole run under an accepting sink |
| Telemetry.FramesAtEmittingSteps | core/src/phase2_telemetry.rs:472-486 | frames come in order, one for a step exactly when it is step 0, a stride multiple or terminal, with the events since the previous one |
| Telemetry.FrameExactly | core/src/phase2_telemetry.rs:472-486 | a step has a frame if and only if it is a multiple of the stride or ends the mission |
| Telemetry.EventReachesNextFrame | core/src/phase2_telemetry.rs:472-486 | an event is carried to the first frame at or after its step |
| Telemetry.FrameEventsWereRaised | core/src/phase2_telemetry.rs:472-486 | a frame carries nothing that was not raised since the one before |
| Telemetry.NoEventLost | core/src/phase2_telemetry.rs:472-486 | a run that ends in EVENT_END leaves nothing pending and loses nothing |
| HobbyFlight.TransitionKeeps | core/src/phase7_mission.rs:446-505 | one step moves the phase forward, raises only new events and leaves the history consistent with the phase |
| HobbyFlight.RunTransitions | core/src/phase7_mission.rs:450-505 | the chain of in-place phase tests computes the specified transition |
| HobbyFlight.RailExitExactly | core/src/phase7_mission.rs:450-456 | rail exit is raised from the true top of the rail on, in every step, if and only if launch altitude plus rail length fits |
| HobbyFlight.MainExactly | core/src/phase7_mission.rs:480-491 | the main is deployed from the true main altitude down, in every step, if and only if launch altitude plus main altitude fits |
| HobbyFlight.UpdatePropellant | core/src/phase7_mission.rs:330-354 | impulse accumulates up to the total and propellant is its function; the status stays clear exactly when no quantity leaves its type |
| HobbyFlight.PropellantNonIncreasing | core/src/phase7_mission.rs:343-353 | more impulse never leaves more propellant |
| HobbyFlight.AdvanceFlight | core/src/phase7_mission.rs:408-505 | clock, kinematics, masses, phase and events of one step; the status stays clear exactly when no quantity leaves its type |
| HobbyMission.RunMission | core/src/phase7_mission.rs:356-551 | the loop ends exactly at a fault, a landing, the step limit or the time limit; observations follow from one another, history is what they raised, each milestone is the time, altitude and velocity of the observation that raised it, and the outcome is what faults, landing, liftoff and step count call for |
| HobbyTimeline.TransitionEvents | core/src/phase7_mission.rs:446-505 | every event of a transition, from kinematics, thresholds and the phase before |
| HobbyTimeline.TransitionPhases | core/src/phase7_mission.rs:450-505 | the phase after a transition, from its events and the time spent inflating; the phase clock restarts exactly with the phase |
| HobbyTimeline.EventsOnTime | core/src/phase7_mission.rs:446-505 | over whole flights: apogee exactly when coasting velocity passes from positive to not positive, burnout exactly when a powered phase reaches the burn time, liftoff, landing, and with sums that fit rail exit and main, each from two successive states |
| HobbyTimeline.PhasesOnTime | core/src/phase7_mission.rs:450-505 | over whole flights: each phase begins with its event, and each inflation ends at the first step whose time in the phase reaches the inflation time, unless the main or the ground comes first |
| HobbyTimeline.MotionMeans | core/src/phase7_mission.rs:408-445 | a fault-free step adds acceleration times time step to velocity and velocity times time step to altitude, to nearest, held at zero on the pad and at the launch altitude on landing |
| HobbyTimeline.BurnMeans | core/src/phase7_mission.rs:330-354 | a lit motor delivers thrust times time step up to its total, and the propellant left is the load less the delivered share of it, to nearest |
| HobbyTimeline.StartMeans | core/src/phase7_mission.rs:266-283 | a flight starts fuelled, at rest and ignited on the pad |
| HobbyMission.PhaseNeverBack | core/src/phase7_mission.rs:388-520 | the phase never moves backward in any run |
| HobbyMission.EachEventOnce | core/src/phase7_mission.rs:388-520 | no event is raised twice in any run |
| HobbyMission.EventsInOrder | core/src/phase7_mission.rs:388-520 | main implies drogue, apogee and burnout; apogee and landing imply liftoff; landing ends the flight |
| HobbyMission.PropellantFollowsImpulse | core/src/phase7_mission.rs:330-354 | while the status is clear propellant is the fixed function of impulse, never rises, and the rest of the mass is constant |
| HobbyMission.PadHolds | core/src/phase7_mission.rs:413-432 | until liftoff the pad holds the rocket at rest at the launch altitude |
| HobbyMission.WrappedRailExitsAtOnce | core/src/phase7_mission.rs:450-456 | when the rail sum wraps, the first step of any flight leaves the rail |
| HobbyMission.WrappedMainOnlyOnGround | core/src/phase7_mission.rs:480-491 | when the main sum wraps, the main comes out only together with the landing, in any flight |
| HobbyMission.HighestLaunchWraps | core/src/phase7_pack.rs:143-147 | admissible packs for which both sums wrap |
| HobbyMission.LaunchMassSplit | core/src/phase7_mission.rs:266-283 | the launch mass is split correctly exactly when the unchecked sum fits |
| HobbyMission.HeaviestLaunchWraps | core/src/phase7_mission.rs:266-283 | admissible packs that launch with a wrapped, negative mass |

## Left out

- C64 screen, SID and timer code, the replay renderer, viewer bridge, web, Vita, broker and host wrappers: hardware I/O, user interface or re-exports.
- Byte layouts, CRC and the reserved-byte checks of scenario, pack and telemetry records: the model starts from decoded fields.
- CORDIC, geodesy, gravity, frame transforms and rigid-body steps: they need real trigonometry.
- Planar environment, aerodynamics, forces and orbit classification: the staged mission takes each step's outcome as an arbitrary input.
- Hobby environment, drag and motor thrust: the hobby mission takes each step's thrust and acceleration as arbitrary inputs, so the extrapolation of `sample_motor_thrust` before a first knot that is not at time 0 is not modelled.
- Canard forces, torques, hinge moments and the envelope errors of `evaluate_surface`: the load-limit path takes any hinge moment.
- `utc_to_ut1_q16`, `tai_to_tt_q16`, `divide_scaled_truncating` and `propellant_mass_properties`: straight-line expressions.
- The noise hash `mix32`, wind hashing and the FNV checksum chains: determinism only.
- Maxima of altitude, speed, acceleration, dynamic pressure and Mach in the hobby result, and the maximum proper acceleration of the staged one: running maxima.
- The Phase 1 vertical mission: a simpler repeat of the mass and cutoff story.
- Observer and sink errors abort a mission in the source; the missions here are observed by an observer that accepts everything, and `Telemetry.Emitter.Observe` covers a refused write.
- RcsWorld.AdvanceToRelease: of the rigid-body step between segments only the duration test is modelled; whether the flight goes on after it is an arbitrary input, and the step of a flight that is already complete is not told apart from one that ends it.
- RcsWorld.Fly: sensors, navigation, canards, disturbances and the session checks of a command are one arbitrary input that says whether the release passes.
