/**
 The cold-gas valve machine as values: how an accepted release schedules each
 jet's pulse, when a release is refused, and what whole runs of releases and
 safings keep. The mutable state object that follows these rules is in `Rcs`.
 */
module RcsValves {
  import opened Arithmetic
  import opened Wrappers
  import opened Effectors

  const INTERVAL: int := 8192
  const QUANTUM: int := 1024
  const NO_EDGE: i32 := MAX_I32

  datatype JetFault = Healthy | StuckClosed | StuckOpen | Leak | DegradedThrustHalf | DelayedValveOneQuantum

  datatype RcsError =
    InvalidPack | InvalidEpoch | InvalidCommand | DuplicateOrStaleCommand | PendingPulse
    | EventSplitRequired(edge: i32) | Numeric

  type RcsResult<T> = Wrappers.Result<T, RcsError>

  /** One jet: quanta waiting to be long enough, and its scheduled pulse. */
  datatype Slot = Slot(accumulated: u8, open: i32, close: i32) {
    predicate Idle() {
      open == NO_EDGE && close == NO_EDGE
    }

    /** Still to open or to close after `epoch`. */
    predicate PendingAfter(epoch: i32) {
      (close != NO_EDGE && close > epoch) || (open != NO_EDGE && open > epoch)
    }
  }

  const IDLE := Slot(0, NO_EDGE, NO_EDGE)

  datatype RawValves = RawValves(slots: seq<Slot>, lastEpoch: i32)

  type Valves = v: RawValves | |v.slots| == MAX_RCS_JETS
    witness RawValves(seq(MAX_RCS_JETS, _ => IDLE), -8192)

  function Initial(): Valves {
    RawValves(seq(MAX_RCS_JETS, _ => IDLE), -8192)
  }

  function SaturatingAdd8(a: u8, b: u8): u8 {
    Min(a + b, 255)
  }

  /** Quanta turned into a pulse by a request of `requested`. */
  function Emitted(accumulated: u8, requested: u8, jet: Jet): u8 {
    var total := SaturatingAdd8(accumulated, requested);
    if requested == 0 || total < jet.minPulse then 0 else Min(total, jet.maxPulse)
  }

  /** A request long enough to fire the jet. */
  predicate Fires(accumulated: u8, requested: u8, jet: Jet) {
    requested != 0 && SaturatingAdd8(accumulated, requested) >= jet.minPulse
  }

  function Remainder(accumulated: u8, requested: u8, jet: Jet): u8 {
    if requested == 0 then accumulated
    else SaturatingAdd8(accumulated, requested) - Emitted(accumulated, requested, jet)
  }

  function ValveDelay(jet: Jet, fault: JetFault): u8 {
    SaturatingAdd8(jet.valveDelay, if fault == DelayedValveOneQuantum then 1 else 0)
  }

  /** A valve no command can move. */
  predicate Stuck(fault: JetFault) {
    fault == StuckClosed || fault == StuckOpen
  }

  /** The slot of one jet after an accepted release. */
  function Rescheduled(slot: Slot, jet: Jet, requested: u8, fault: JetFault, epoch: i32): Slot {
    var left := Remainder(slot.accumulated, requested, jet);
    if !Fires(slot.accumulated, requested, jet) || Stuck(fault) then
      Slot(left, NO_EDGE, NO_EDGE)
    else
      var open := SaturatingAdd32(epoch, ValveDelay(jet, fault) * QUANTUM);
      Slot(left, open, SaturatingAdd32(open, Emitted(slot.accumulated, requested, jet) * QUANTUM))
  }

  datatype Command = Command(epoch: i32, quanta: seq<u8>, faults: seq<JetFault>)

  predicate WellShaped(c: Command) {
    |c.quanta| == |c.faults| == MAX_RCS_JETS
  }

  /** First refusal in jet order, from jet `i` on. */
  function JetRefusal(v: Valves, c: Command, i: nat): Option<RcsError>
    requires WellShaped(c) && i <= MAX_RCS_JETS
    decreases MAX_RCS_JETS - i
  {
    if i == MAX_RCS_JETS then None
    else if c.quanta[i] > 8 then Some(InvalidCommand)
    else if v.slots[i].PendingAfter(c.epoch) then Some(PendingPulse)
    else JetRefusal(v, c, i + 1)
  }

  /** Why a release is refused by a pack that carries jets. */
  function Refusal(v: Valves, c: Command): Option<RcsError>
    requires WellShaped(c)
  {
    if c.epoch < 0 || c.epoch % INTERVAL != 0 then Some(InvalidEpoch)
    else if c.epoch <= v.lastEpoch then Some(DuplicateOrStaleCommand)
    else JetRefusal(v, c, 0)
  }

  /** The valves after a release: rescheduled when accepted, else untouched. */
  function Schedule(v: Valves, c: Command, jets: seq<Jet>): Valves
    requires WellShaped(c) && |jets| == MAX_RCS_JETS
  {
    if Refusal(v, c) != None then v
    else RawValves(
      seq(MAX_RCS_JETS, i requires 0 <= i < MAX_RCS_JETS =>
        Rescheduled(v.slots[i], jets[i], c.quanta[i], c.faults[i], c.epoch)),
      c.epoch)
  }

  /** Safing drops every pulse and every waiting quantum, and nothing else. */
  function Safed(v: Valves): Valves {
    RawValves(seq(MAX_RCS_JETS, _ => IDLE), v.lastEpoch)
  }

  // ----- one accepted release

  /** A jet that has nothing against the command: quanta in range, and no edge
      of its pulse later than the release. */
  predicate JetWilling(v: Valves, c: Command, i: nat)
    requires WellShaped(c) && i < MAX_RCS_JETS
  {
    && c.quanta[i] <= 8
    && (v.slots[i].close == MAX_I32 || v.slots[i].close <= c.epoch)
    && (v.slots[i].open == MAX_I32 || v.slots[i].open <= c.epoch)
  }

  /** What the checking pass from jet `i` on finds: nothing exactly when every
      jet is willing, else the fault of the first that is not. */
  lemma {:induction false} JetRefusalExactly(v: Valves, c: Command, i: nat)
    requires WellShaped(c) && i <= MAX_RCS_JETS
    ensures JetRefusal(v, c, i) == None <==> forall j :: i <= j < MAX_RCS_JETS ==> JetWilling(v, c, j)
    ensures JetRefusal(v, c, i).Some? ==>
              exists j :: i <= j < MAX_RCS_JETS && !JetWilling(v, c, j)
                          && (forall k :: i <= k < j ==> JetWilling(v, c, k))
                          && JetRefusal(v, c, i) == Some(if c.quanta[j] > 8 then InvalidCommand else PendingPulse)
    decreases MAX_RCS_JETS - i
  {
    if i < MAX_RCS_JETS && JetWilling(v, c, i) {
      JetRefusalExactly(v, c, i + 1);
    }
  }

  /** Every refusal, in the order of the tests. */
  lemma {:induction false} RefusalMeans(v: Valves, c: Command)
    requires WellShaped(c)
    ensures Refusal(v, c) == Some(InvalidEpoch) <==> c.epoch < 0 || c.epoch % 8192 != 0
    ensures Refusal(v, c) == Some(DuplicateOrStaleCommand) <==>
            0 <= c.epoch <= v.lastEpoch && c.epoch % 8192 == 0
    ensures Refusal(v, c) == None <==>
            && 0 <= c.epoch && c.epoch % 8192 == 0 && v.lastEpoch < c.epoch
            && forall j :: 0 <= j < MAX_RCS_JETS ==> JetWilling(v, c, j)
    ensures Refusal(v, c) !in {None, Some(InvalidEpoch), Some(DuplicateOrStaleCommand)} ==>
              exists j :: 0 <= j < MAX_RCS_JETS && !JetWilling(v, c, j)
                          && (forall k :: 0 <= k < j ==> JetWilling(v, c, k))
                          && Refusal(v, c) == Some(if c.quanta[j] > 8 then InvalidCommand else PendingPulse)
  {
    hide JetRefusal;
    JetRefusalExactly(v, c, 0);
  }

  /** What an accepted release does to jet `i`. A request fires when it is not
      zero and reaches the minimum together with what is waiting; it emits the
      longest admissible pulse, and the rest waits. The pulse opens after the
      valve's delay, one quantum later with a delayed valve, and lasts 1024
      ticks per quantum, unless time ends first; a stuck valve gets none. */
  lemma {:induction false} AcceptedReleaseMeans(v: Valves, c: Command, jets: seq<Jet>, i: nat) returns (emitted: nat)
    requires WellShaped(c) && |jets| == MAX_RCS_JETS && i < MAX_RCS_JETS && jets[i].IsValid()
    requires Refusal(v, c) == None
    ensures Schedule(v, c, jets).lastEpoch == c.epoch
    ensures var slot, jet, wanted := Schedule(v, c, jets).slots[i], jets[i], v.slots[i].accumulated + c.quanta[i];
            var fires := c.quanta[i] > 0 && wanted >= jet.minPulse;
            var late := if c.faults[i] == DelayedValveOneQuantum then 1024 else 0;
            var open := c.epoch + 1024 * jet.valveDelay + late;
            && (fires ==> emitted <= jet.maxPulse && emitted <= wanted)
            && (fires ==> emitted == jet.maxPulse || emitted == wanted)
            && (!fires ==> emitted == 0)
            && slot.accumulated == Min(wanted, 255) - emitted
            && (if fires && c.faults[i] != StuckClosed && c.faults[i] != StuckOpen then
                  slot.open == Min(open, MAX_I32) && slot.close == Min(open + 1024 * emitted, MAX_I32)
                else slot.open == MAX_I32 && slot.close == MAX_I32)
  {
    hide Refusal;
    emitted := Emitted(v.slots[i].accumulated, c.quanta[i], jets[i]);
    RescheduledMeans(v.slots[i], jets[i], c.quanta[i], c.faults[i], c.epoch);
    EpochNotNegative(v, c);
  }

  lemma {:induction false} EpochNotNegative(v: Valves, c: Command)
    requires WellShaped(c) && Refusal(v, c) == None
    ensures 0 <= c.epoch
  {}

  lemma {:induction false} RescheduledMeans(slot: Slot, jet: Jet, requested: u8, fault: JetFault, epoch: i32)
    requires jet.IsValid()
    ensures var s := Rescheduled(slot, jet, requested, fault, epoch);
            var emitted, wanted := Emitted(slot.accumulated, requested, jet), slot.accumulated + requested;
            var fires := requested > 0 && wanted >= jet.minPulse;
            var late := if fault == DelayedValveOneQuantum then 1024 else 0;
            var open := epoch + 1024 * jet.valveDelay + late;
            && emitted == (if fires then Min(wanted, jet.maxPulse) else 0)
            && s.accumulated == Min(wanted, 255) - emitted
            && (if fires && fault != StuckClosed && fault != StuckOpen then
                  s.open == Min(open, MAX_I32) && s.close == Min(open + 1024 * emitted, MAX_I32)
                else s.open == MAX_I32 && s.close == MAX_I32)
  {}

  /** Quanta are conserved by one request exactly when the accumulator does
      not saturate. */
  lemma {:induction false} RequestConserves(accumulated: u8, requested: u8, jet: Jet)
    ensures Emitted(accumulated, requested, jet) + Remainder(accumulated, requested, jet) == accumulated + requested
       <==> accumulated + requested <= 255
  {}

  /** A pulse on the valve grid, of admissible length, not before `epoch`. */
  ghost predicate GoodPulse(open: int, close: int, jet: Jet, epoch: int) {
    && epoch <= open <= close < NO_EDGE
    && open % QUANTUM == 0 && close % QUANTUM == 0
    && jet.minPulse * QUANTUM <= close - open <= jet.maxPulse * QUANTUM
  }

  /** Exact times of a pulse scheduled at `epoch`. */
  function OpensAt(jet: Jet, fault: JetFault, epoch: i32): int {
    epoch + ValveDelay(jet, fault) * QUANTUM
  }

  function ClosesAt(slot: Slot, jet: Jet, requested: u8, fault: JetFault, epoch: i32): int {
    OpensAt(jet, fault, epoch) + Emitted(slot.accumulated, requested, jet) * QUANTUM
  }

  /** A request that is turned into a pulse. */
  predicate Pulses(slot: Slot, jet: Jet, requested: u8, fault: JetFault) {
    Fires(slot.accumulated, requested, jet) && !Stuck(fault)
  }

  /** The pulse would close beyond the end of `i32` time. */
  predicate Clips(slot: Slot, jet: Jet, requested: u8, fault: JetFault, epoch: i32) {
    Pulses(slot, jet, requested, fault) && ClosesAt(slot, jet, requested, fault, epoch) > MAX_I32
  }

  /** A pulse that fits time is well formed and as long as what was emitted. One
      that does not loses its closing edge, and both edges when it would not
      even open. */
  lemma {:induction false} ScheduledPulse(slot: Slot, jet: Jet, requested: u8, fault: JetFault, epoch: i32)
    requires jet.IsValid() && 0 <= epoch && epoch % INTERVAL == 0
    ensures var s := Rescheduled(slot, jet, requested, fault, epoch);
            var length := Emitted(slot.accumulated, requested, jet) * QUANTUM;
            if !Pulses(slot, jet, requested, fault) then s.Idle()
            else if !Clips(slot, jet, requested, fault, epoch) then
              GoodPulse(s.open, s.close, jet, epoch) && s.close - s.open == length
            else
              && s.close == NO_EDGE && (s.Idle() <==> OpensAt(jet, fault, epoch) > MAX_I32)
              && (!s.Idle() ==> s.close - s.open < length)
  {
    hide GoodPulse, Emitted, ValveDelay, Fires, Remainder;
    EmittedRange(slot.accumulated, requested, jet, fault);
    if Pulses(slot, jet, requested, fault) {
      PulseOnGrid(epoch, ValveDelay(jet, fault), Emitted(slot.accumulated, requested, jet), jet);
    }
  }

  /** When a scheduled pulse is still pending: until its closing edge, or, if it
      lost that edge at the end of time, until it opens. */
  lemma {:induction false} PendingExactly(slot: Slot, jet: Jet, requested: u8, fault: JetFault, epoch: i32, later: i32)
    requires jet.IsValid() && 0 <= epoch <= later && epoch % INTERVAL == 0
    ensures var wanted := slot.accumulated + requested;
            var late := if fault == DelayedValveOneQuantum then 1024 else 0;
            var open := epoch + 1024 * jet.valveDelay + late;
            var close := open + 1024 * Min(wanted, jet.maxPulse);
            Rescheduled(slot, jet, requested, fault, epoch).PendingAfter(later) <==>
            && requested > 0 && wanted >= jet.minPulse && fault != StuckClosed && fault != StuckOpen
            && (if close > MAX_I32 then later < open <= MAX_I32 else later < close)
  {
    hide Rescheduled;
    RescheduledMeans(slot, jet, requested, fault, epoch);
    WholeQuanta(epoch, jet.valveDelay);
    WholeQuanta(epoch, jet.valveDelay + 1);
    WholeQuanta(epoch, jet.valveDelay + Min(slot.accumulated + requested, jet.maxPulse));
    WholeQuanta(epoch, jet.valveDelay + 1 + Min(slot.accumulated + requested, jet.maxPulse));
  }

  /** No whole number of quanta after a release is the last tick of time. */
  lemma {:induction false} WholeQuanta(epoch: i32, quanta: nat)
    requires epoch % INTERVAL == 0
    ensures epoch + 1024 * quanta != MAX_I32
  {
    assert epoch == 8192 * (epoch / INTERVAL);
  }

  /** At the next release the pulse is pending exactly when delay and length
      together exceed one interval. */
  lemma {:induction false} PendingAtNextRelease(slot: Slot, jet: Jet, requested: u8, fault: JetFault, epoch: i32)
    requires jet.IsValid() && 0 <= epoch && epoch % INTERVAL == 0 && epoch + 2 * INTERVAL <= MAX_I32
    ensures var wanted := slot.accumulated + requested;
            var late := if fault == DelayedValveOneQuantum then 1 else 0;
            Rescheduled(slot, jet, requested, fault, epoch).PendingAfter(epoch + INTERVAL) <==>
            && requested > 0 && wanted >= jet.minPulse && fault != StuckClosed && fault != StuckOpen
            && jet.valveDelay + late + Min(wanted, jet.maxPulse) > 8
  {
    hide Rescheduled;
    PendingExactly(slot, jet, requested, fault, epoch, epoch + INTERVAL);
  }

  lemma {:induction false} EmittedRange(accumulated: u8, requested: u8, jet: Jet, fault: JetFault)
    requires jet.IsValid()
    ensures ValveDelay(jet, fault) <= 9 && Emitted(accumulated, requested, jet) <= jet.maxPulse <= 8
    ensures Fires(accumulated, requested, jet) ==> jet.minPulse <= Emitted(accumulated, requested, jet)
  {}

  /** Whole quanta after a release epoch stay on the valve grid, and miss the
      last tick of time. */
  lemma {:induction false} PulseOnGrid(epoch: i32, delay: nat, length: nat, jet: Jet)
    requires 0 <= epoch && epoch % INTERVAL == 0
    requires delay <= 9 && jet.minPulse <= length <= jet.maxPulse <= 8
    ensures var open, close := epoch + delay * QUANTUM, epoch + delay * QUANTUM + length * QUANTUM;
            open != MAX_I32 && close != MAX_I32 && (close < MAX_I32 ==> GoodPulse(open, close, jet, epoch))
  {
    var k := 8 * (epoch / INTERVAL);
    assert epoch == k * QUANTUM;
    OnGrid(k + delay);
    OnGrid(k + delay + length);
  }

  lemma {:induction false} OnGrid(k: int)
    ensures k * QUANTUM % QUANTUM == 0
  {}

  // ----- runs

  datatype Op = Release(command: Command) | Safe

  datatype Pulse = Pulse(open: int, close: int)

  /** What a run did to one jet. `delivered` are the pulses known to have run
      to completion: a pulse moves there when the next release is accepted,
      and a pulse still held when the valves are safed moves to `dropped`.
      Quanta are `requested`, `emitted` as pulses, `discarded` by safing, or
      `swallowed` by a stuck valve, which emits them without a pulse. */
  datatype JetRun = JetRun(valves: Valves, delivered: seq<Pulse>, dropped: seq<Pulse>,
                           requested: nat, emitted: nat, swallowed: nat, discarded: nat)

  function Completed(delivered: seq<Pulse>, slot: Slot): seq<Pulse> {
    if slot.Idle() then delivered else delivered + [Pulse(slot.open, slot.close)]
  }

  predicate ShapedOp(op: Op) {
    op.Release? ==> WellShaped(op.command)
  }

  predicate AllShaped(ops: seq<Op>) {
    forall i :: 0 <= i < |ops| ==> ShapedOp(ops[i])
  }

  function Step(run: JetRun, op: Op, jets: seq<Jet>, j: nat): JetRun
    requires |jets| == MAX_RCS_JETS && j < MAX_RCS_JETS
    requires ShapedOp(op)
  {
    var slot := run.valves.slots[j];
    match op
    case Safe => run.(valves := Safed(run.valves), dropped := Completed(run.dropped, slot),
                      discarded := run.discarded + slot.accumulated)
    case Release(c) =>
      if Refusal(run.valves, c) != None then run
      else
        var emitted := Emitted(slot.accumulated, c.quanta[j], jets[j]);
        run.(valves := Schedule(run.valves, c, jets), delivered := Completed(run.delivered, slot),
             requested := run.requested + c.quanta[j], emitted := run.emitted + emitted,
             swallowed := run.swallowed + if Stuck(c.faults[j]) then emitted else 0)
  }

  const START := JetRun(Initial(), [], [], 0, 0, 0, 0)

  function RunJet(ops: seq<Op>, jets: seq<Jet>, j: nat): JetRun
    requires |jets| == MAX_RCS_JETS && j < MAX_RCS_JETS
    requires AllShaped(ops)
  {
    if ops == [] then START
    else Step(RunJet(ops[..|ops| - 1], jets, j), ops[|ops| - 1], jets, j)
  }

  /** Completed pulses are well formed, in order and disjoint; the held pulse,
      if any, comes after all of them. */
  ghost predicate OrderedRun(run: JetRun, jet: Jet, j: nat)
    requires j < MAX_RCS_JETS
  {
    && (forall i :: 0 <= i < |run.delivered| ==>
          GoodPulse(run.delivered[i].open, run.delivered[i].close, jet, 0)
          && run.delivered[i].close <= run.valves.lastEpoch)
    && (forall i, k :: 0 <= i < k < |run.delivered| ==> run.delivered[i].close <= run.delivered[k].open)
    && HeldPulseFollows(run.valves.slots[j], jet, run.valves.lastEpoch)
  }

  ghost predicate HeldPulseFollows(slot: Slot, jet: Jet, lastEpoch: int) {
    slot.Idle() || GoodPulse(slot.open, slot.close, jet, Max(0, lastEpoch))
  }

  /** Everything requested was emitted, is still waiting, or was discarded. */
  predicate Balanced(run: JetRun, j: nat)
    requires j < MAX_RCS_JETS
  {
    run.emitted + run.valves.slots[j].accumulated + run.discarded == run.requested
  }

  /** The operation is an accepted release whose pulse for jet `j` clips. */
  predicate ClipsNow(run: JetRun, op: Op, jets: seq<Jet>, j: nat)
    requires |jets| == MAX_RCS_JETS && j < MAX_RCS_JETS && ShapedOp(op)
  {
    && op.Release? && Refusal(run.valves, op.command) == None
    && Clips(run.valves.slots[j], jets[j], op.command.quanta[j], op.command.faults[j], op.command.epoch)
  }

  /** ... and that opens in time: a valve that nothing will close. */
  predicate LosesClose(run: JetRun, op: Op, jets: seq<Jet>, j: nat)
    requires |jets| == MAX_RCS_JETS && j < MAX_RCS_JETS && ShapedOp(op)
  {
    ClipsNow(run, op, jets, j) && OpensAt(jets[j], op.command.faults[j], op.command.epoch) <= MAX_I32
  }

  lemma {:induction false} OrderedStep(run: JetRun, op: Op, jets: seq<Jet>, j: nat)
    requires |jets| == MAX_RCS_JETS && j < MAX_RCS_JETS && jets[j].IsValid() && ShapedOp(op)
    requires OrderedRun(run, jets[j], j)
    ensures OrderedRun(Step(run, op, jets, j), jets[j], j) <==> !LosesClose(run, op, jets, j)
  {
    hide Rescheduled, ClosesAt, OpensAt, Pulses, JetRefusal, Emitted;
    if op.Release? && Refusal(run.valves, op.command) == None {
      var c, slot := op.command, run.valves.slots[j];
      JetRefusalExactly(run.valves, c, 0);
      assert JetWilling(run.valves, c, j);
      ScheduledPulse(slot, jets[j], c.quanta[j], c.faults[j], c.epoch);
    }
  }

  /** Over any run of releases and safings, each jet's pulses are well formed,
      ordered and disjoint at every point exactly when no accepted release
      schedules a pulse that opens before the end of time and closes after. */
  lemma {:induction false} RunKeepsPulsesOrdered(ops: seq<Op>, jets: seq<Jet>, j: nat)
    requires AllShaped(ops) && |jets| == MAX_RCS_JETS && j < MAX_RCS_JETS && jets[j].IsValid()
    ensures (forall n :: 0 <= n <= |ops| ==> OrderedRun(RunJet(ops[..n], jets, j), jets[j], j))
       <==> (forall n :: 0 <= n < |ops| ==> !LosesClose(RunJet(ops[..n], jets, j), ops[n], jets, j))
  {
    hide OrderedRun, Step, LosesClose;
    if n :| 0 <= n < |ops| && LosesClose(RunJet(ops[..n], jets, j), ops[n], jets, j) {
      assert ops[..n + 1][..n] == ops[..n];
      if OrderedRun(RunJet(ops[..n], jets, j), jets[j], j) {
        OrderedStep(RunJet(ops[..n], jets, j), ops[n], jets, j);
        assert !OrderedRun(RunJet(ops[..n + 1], jets, j), jets[j], j);
      }
    } else {
      OrderedUpTo(ops, jets, j, |ops|);
    }
  }

  lemma {:induction false} OrderedUpTo(ops: seq<Op>, jets: seq<Jet>, j: nat, m: nat)
    requires AllShaped(ops) && |jets| == MAX_RCS_JETS && j < MAX_RCS_JETS && jets[j].IsValid() && m <= |ops|
    requires forall n :: 0 <= n < |ops| ==> !LosesClose(RunJet(ops[..n], jets, j), ops[n], jets, j)
    ensures forall n :: 0 <= n <= m ==> OrderedRun(RunJet(ops[..n], jets, j), jets[j], j)
  {
    hide OrderedRun, Step, LosesClose;
    if m == 0 {
      EmptyRunOrdered(jets[j], j);
    } else {
      OrderedUpTo(ops, jets, j, m - 1);
      assert ops[..m][..m - 1] == ops[..m - 1];
      OrderedStep(RunJet(ops[..m - 1], jets, j), ops[m - 1], jets, j);
    }
  }

  lemma {:induction false} EmptyRunOrdered(jet: Jet, j: nat)
    requires j < MAX_RCS_JETS
    ensures OrderedRun(START, jet, j)
  {}

  // ----- refused releases

  /** The valves after a run; they do not depend on the jet one looks at. */
  function ValvesAfter(ops: seq<Op>, jets: seq<Jet>): Valves
    requires |jets| == MAX_RCS_JETS && AllShaped(ops)
  {
    RunJet(ops, jets, 0).valves
  }

  /** What remains of a run when its refused releases are struck out. */
  function Accepted(ops: seq<Op>, jets: seq<Jet>): seq<Op>
    requires |jets| == MAX_RCS_JETS && AllShaped(ops)
  {
    if ops == [] then []
    else
      var front, last := ops[..|ops| - 1], ops[|ops| - 1];
      if last.Release? && Refusal(ValvesAfter(front, jets), last.command) != None then Accepted(front, jets)
      else Accepted(front, jets) + [last]
  }

  lemma {:induction false} ValvesOfAnyJet(ops: seq<Op>, jets: seq<Jet>, j: nat)
    requires |jets| == MAX_RCS_JETS && j < MAX_RCS_JETS && AllShaped(ops)
    ensures RunJet(ops, jets, j).valves == ValvesAfter(ops, jets)
  {
    hide Refusal, Schedule;
    if ops != [] {
      ValvesOfAnyJet(ops[..|ops| - 1], jets, j);
    }
  }

  /** Releases come at strictly increasing epochs of the release grid, the
      last of them at `lastEpoch`. */
  ghost predicate EpochsAscend(ops: seq<Op>, lastEpoch: int) {
    && (forall i :: 0 <= i < |ops| && ops[i].Release? ==>
          0 <= ops[i].command.epoch <= lastEpoch && ops[i].command.epoch % INTERVAL == 0)
    && (forall i, k :: 0 <= i < k < |ops| && ops[i].Release? && ops[k].Release? ==>
          ops[i].command.epoch < ops[k].command.epoch)
  }

  /** Over any run, the refused releases leave no trace: striking them all out
      leads every jet through the same history, and what remains is at strictly
      increasing epochs. */
  lemma {:induction false} RefusalsLeaveNoTrace(ops: seq<Op>, jets: seq<Jet>, j: nat)
    requires |jets| == MAX_RCS_JETS && j < MAX_RCS_JETS && AllShaped(ops)
    ensures AllShaped(Accepted(ops, jets)) && RunJet(Accepted(ops, jets), jets, j) == RunJet(ops, jets, j)
    ensures EpochsAscend(Accepted(ops, jets), ValvesAfter(ops, jets).lastEpoch)
  {
    hide Step, Refusal, Schedule, EpochsAscend;
    if ops == [] {
      NoEpochs();
    } else {
      var front, last := ops[..|ops| - 1], ops[|ops| - 1];
      RefusalsLeaveNoTrace(front, jets, j);
      ValvesOfAnyJet(front, jets, j);
      var kept, run := Accepted(front, jets), RunJet(front, jets, j);
      assert (kept + [last])[..|kept|] == kept;
      StepOrRefusal(run, last, jets, j, kept);
      ValvesOfAnyJet(ops, jets, j);
    }
  }

  lemma {:induction false} NoEpochs()
    ensures EpochsAscend([], Initial().lastEpoch)
  {}

  /** One more operation: refused without effect, or later than all before. */
  lemma {:induction false} StepOrRefusal(run: JetRun, op: Op, jets: seq<Jet>, j: nat, kept: seq<Op>)
    requires |jets| == MAX_RCS_JETS && j < MAX_RCS_JETS && ShapedOp(op)
    requires EpochsAscend(kept, run.valves.lastEpoch)
    ensures var next := Step(run, op, jets, j);
            if op.Release? && Refusal(run.valves, op.command) != None then next == run
            else EpochsAscend(kept + [op], next.valves.lastEpoch)
  {
    hide JetRefusal, Emitted, Rescheduled, Completed;
  }

  /** Every request for jet `j` fits one pulse. */
  ghost predicate RequestsFit(ops: seq<Op>, jet: Jet, j: nat)
    requires j < MAX_RCS_JETS
  {
    forall i :: 0 <= i < |ops| && ops[i].Release? && WellShaped(ops[i].command) ==>
                  ops[i].command.quanta[j] <= jet.maxPulse
  }

  /** While requests fit one pulse the accumulator stays below one pulse, so
      no quantum is ever lost: requested equals emitted plus waiting, apart
      from what safing discards. */
  lemma {:induction false} RunConservesQuanta(ops: seq<Op>, jets: seq<Jet>, j: nat)
    requires AllShaped(ops) && |jets| == MAX_RCS_JETS && j < MAX_RCS_JETS && jets[j].IsValid()
    requires RequestsFit(ops, jets[j], j)
    ensures var run := RunJet(ops, jets, j);
            Balanced(run, j) && run.valves.slots[j].accumulated <= Max(0, jets[j].minPulse - 1)
  {
    if ops != [] {
      var front := ops[..|ops| - 1];
      RunConservesQuanta(front, jets, j);
      BalancedStep(RunJet(front, jets, j), ops[|ops| - 1], jets, j);
    }
  }

  lemma {:induction false} BalancedStep(run: JetRun, op: Op, jets: seq<Jet>, j: nat)
    requires |jets| == MAX_RCS_JETS && j < MAX_RCS_JETS && jets[j].IsValid()
    requires op.Release? ==> WellShaped(op.command) && op.command.quanta[j] <= jets[j].maxPulse
    requires Balanced(run, j) && run.valves.slots[j].accumulated <= Max(0, jets[j].minPulse - 1)
    ensures var next := Step(run, op, jets, j);
            Balanced(next, j) && next.valves.slots[j].accumulated <= Max(0, jets[j].minPulse - 1)
  {
    if op.Release? && Refusal(run.valves, op.command) == None {
      RequestConserves(run.valves.slots[j].accumulated, op.command.quanta[j], jets[j]);
    }
  }

  /** The release at position `n` is accepted and asks jet `j` for more than
      its 8-bit accumulator can still take. */
  ghost predicate Overfills(ops: seq<Op>, jets: seq<Jet>, j: nat, n: nat)
    requires |jets| == MAX_RCS_JETS && j < MAX_RCS_JETS && AllShaped(ops) && n < |ops|
  {
    var before := RunJet(ops[..n], jets, j).valves;
    && ops[n].Release? && Refusal(before, ops[n].command) == None
    && before.slots[j].accumulated + ops[n].command.quanta[j] > 255
  }

  /** Quanta asked for and gone without trace. */
  function Lost(run: JetRun, j: nat): int
    requires j < MAX_RCS_JETS
  {
    run.requested - run.emitted - run.valves.slots[j].accumulated - run.discarded
  }

  /** Over any run at all, quanta are conserved exactly when no accepted
      request overfills the accumulator; otherwise some are lost for good. */
  lemma {:induction false} BalancedExactly(ops: seq<Op>, jets: seq<Jet>, j: nat)
    requires AllShaped(ops) && |jets| == MAX_RCS_JETS && j < MAX_RCS_JETS
    ensures Balanced(RunJet(ops, jets, j), j) <==> forall n :: 0 <= n < |ops| ==> !Overfills(ops, jets, j, n)
    ensures Lost(RunJet(ops, jets, j), j) >= 0
  {
    hide Step, Refusal;
    if ops != [] {
      var last := |ops| - 1;
      var front := ops[..last];
      BalancedExactly(front, jets, j);
      LossStep(RunJet(front, jets, j), ops[last], jets, j);
      forall n | 0 <= n < last
        ensures Overfills(front, jets, j, n) == Overfills(ops, jets, j, n)
      {
        assert front[..n] == ops[..n];
      }
      assert Overfills(ops, jets, j, last) <==>
             ops[last].Release? && Refusal(RunJet(front, jets, j).valves, ops[last].command) == None
             && RunJet(front, jets, j).valves.slots[j].accumulated + ops[last].command.quanta[j] > 255;
    }
  }

  lemma {:induction false} LossStep(run: JetRun, op: Op, jets: seq<Jet>, j: nat)
    requires |jets| == MAX_RCS_JETS && j < MAX_RCS_JETS && ShapedOp(op)
    ensures var overfills := op.Release? && Refusal(run.valves, op.command) == None
                             && run.valves.slots[j].accumulated + op.command.quanta[j] > 255;
            if overfills then Lost(Step(run, op, jets, j), j) > Lost(run, j)
            else Lost(Step(run, op, jets, j), j) == Lost(run, j)
  {
    hide Refusal;
  }

  // ----- open time

  function Length(pulses: seq<Pulse>): int {
    if pulses == [] then 0
    else
      var last := pulses[|pulses| - 1];
      Length(pulses[..|pulses| - 1]) + Gap(last.open, last.close)
  }

  /** Length of the held pulse. */
  function HeldLength(slot: Slot): int {
    if slot.Idle() then 0 else Gap(slot.open, slot.close)
  }

  /** Every emitted quantum is 1024 ticks of a pulse that was delivered, was
      dropped or is held, except those a stuck valve swallowed. */
  predicate OpenTimeAccounted(run: JetRun, j: nat)
    requires j < MAX_RCS_JETS
  {
    Length(run.delivered) + Length(run.dropped) + HeldLength(run.valves.slots[j])
    == QUANTUM * (run.emitted - run.swallowed)
  }

  lemma {:induction false} CompletedLength(pulses: seq<Pulse>, slot: Slot)
    ensures Length(Completed(pulses, slot)) == Length(pulses) + HeldLength(slot)
  {
    if !slot.Idle() {
      var all := Completed(pulses, slot);
      assert all[..|all| - 1] == pulses;
    }
  }

  /** Pulse time short of the emitted quanta. */
  function Missing(run: JetRun, j: nat): int
    requires j < MAX_RCS_JETS
  {
    QUANTUM * (run.emitted - run.swallowed)
    - (Length(run.delivered) + Length(run.dropped) + HeldLength(run.valves.slots[j]))
  }

  /** The operation clips a pulse that was to last. */
  predicate ShortensNow(run: JetRun, op: Op, jets: seq<Jet>, j: nat)
    requires |jets| == MAX_RCS_JETS && j < MAX_RCS_JETS && ShapedOp(op)
  {
    ClipsNow(run, op, jets, j) && Emitted(run.valves.slots[j].accumulated, op.command.quanta[j], jets[j]) > 0
  }

  /** The release at position `n` of the run shortens a pulse. */
  predicate Shortens(ops: seq<Op>, jets: seq<Jet>, j: nat, n: nat)
    requires |jets| == MAX_RCS_JETS && j < MAX_RCS_JETS && AllShaped(ops) && n < |ops|
  {
    ShortensNow(RunJet(ops[..n], jets, j), ops[n], jets, j)
  }

  lemma {:induction false} OpenTimeStep(run: JetRun, op: Op, jets: seq<Jet>, j: nat)
    requires |jets| == MAX_RCS_JETS && j < MAX_RCS_JETS && jets[j].IsValid() && ShapedOp(op)
    ensures if ShortensNow(run, op, jets, j) then Missing(Step(run, op, jets, j), j) > Missing(run, j)
            else Missing(Step(run, op, jets, j), j) == Missing(run, j)
  {
    hide Rescheduled, Length, Completed, JetRefusal, HeldLength, Clips, Emitted;
    var slot, next := run.valves.slots[j], Step(run, op, jets, j);
    CompletedLength(run.delivered, slot);
    CompletedLength(run.dropped, slot);
    if op.Safe? {
      NothingHeld();
    } else if Refusal(run.valves, op.command) == None {
      var c := op.command;
      RescheduledLength(slot, jets[j], c.quanta[j], c.faults[j], c.epoch);
    }
  }

  lemma {:induction false} NothingHeld()
    ensures HeldLength(IDLE) == 0
  {}

  lemma {:induction false} RescheduledLength(slot: Slot, jet: Jet, requested: u8, fault: JetFault, epoch: i32)
    requires jet.IsValid() && 0 <= epoch && epoch % INTERVAL == 0
    ensures var held := HeldLength(Rescheduled(slot, jet, requested, fault, epoch));
            var emitted := Emitted(slot.accumulated, requested, jet);
            if Stuck(fault) then held == 0
            else if Clips(slot, jet, requested, fault, epoch) && emitted > 0 then held < QUANTUM * emitted
            else held == QUANTUM * emitted
    ensures Stuck(fault) ==> !Clips(slot, jet, requested, fault, epoch)
  {
    hide Rescheduled, GoodPulse, ValveDelay;
    ScheduledPulse(slot, jet, requested, fault, epoch);
  }

  /** A valve that never sticks swallows nothing. */
  ghost predicate NeverStuck(ops: seq<Op>, j: nat)
    requires j < MAX_RCS_JETS
  {
    forall i :: 0 <= i < |ops| && ops[i].Release? && WellShaped(ops[i].command) ==> !Stuck(ops[i].command.faults[j])
  }

  /** Over any run the pulses account for every emitted quantum exactly when no
      accepted release clips a pulse at the end of time; otherwise pulse time is
      missing for good. Safing only moves a held pulse to the dropped ones.
      Without a stuck valve nothing is swallowed, and while requests fit one
      pulse what was requested is pulse time, still waiting, discarded by safing
      or missing. */
  lemma {:induction false} RunAccountsForOpenTime(ops: seq<Op>, jets: seq<Jet>, j: nat)
    requires AllShaped(ops) && |jets| == MAX_RCS_JETS && j < MAX_RCS_JETS && jets[j].IsValid()
    ensures OpenTimeAccounted(RunJet(ops, jets, j), j)
       <==> forall n :: 0 <= n < |ops| ==> !Shortens(ops, jets, j, n)
    ensures Missing(RunJet(ops, jets, j), j) >= 0
    ensures NeverStuck(ops, j) ==> RunJet(ops, jets, j).swallowed == 0
    ensures NeverStuck(ops, j) && RequestsFit(ops, jets[j], j) ==>
              var run := RunJet(ops, jets, j);
              Length(run.delivered) + Length(run.dropped) + HeldLength(run.valves.slots[j]) + Missing(run, j)
              + QUANTUM * (run.valves.slots[j].accumulated + run.discarded) == QUANTUM * run.requested
  {
    hide Step, Missing, Shortens, Length, HeldLength;
    if RequestsFit(ops, jets[j], j) {
      RunConservesQuanta(ops, jets, j);
    }
    MissingIsTime(RunJet(ops, jets, j), j);
    if NeverStuck(ops, j) {
      NothingSwallowed(ops, jets, j);
    }
    MissingGrows(ops, jets, j);
  }

  lemma {:induction false} MissingIsTime(run: JetRun, j: nat)
    requires j < MAX_RCS_JETS
    ensures OpenTimeAccounted(run, j) <==> Missing(run, j) == 0
    ensures Length(run.delivered) + Length(run.dropped) + HeldLength(run.valves.slots[j]) + Missing(run, j)
         == QUANTUM * (run.emitted - run.swallowed)
  {
    hide Length, HeldLength;
  }

  lemma {:induction false} NothingSwallowed(ops: seq<Op>, jets: seq<Jet>, j: nat)
    requires AllShaped(ops) && |jets| == MAX_RCS_JETS && j < MAX_RCS_JETS && NeverStuck(ops, j)
    ensures RunJet(ops, jets, j).swallowed == 0
  {
    hide Refusal, Schedule, Emitted, Completed;
    if ops != [] {
      NothingSwallowed(ops[..|ops| - 1], jets, j);
    }
  }

  lemma {:induction false} MissingGrows(ops: seq<Op>, jets: seq<Jet>, j: nat)
    requires AllShaped(ops) && |jets| == MAX_RCS_JETS && j < MAX_RCS_JETS && jets[j].IsValid()
    ensures Missing(RunJet(ops, jets, j), j) >= 0
    ensures Missing(RunJet(ops, jets, j), j) == 0 <==> forall n :: 0 <= n < |ops| ==> !Shortens(ops, jets, j, n)
  {
    hide Step, Missing, ShortensNow;
    if ops == [] {
      EmptyRunAccounted(j);
    } else {
      var last := |ops| - 1;
      var front := ops[..last];
      MissingGrows(front, jets, j);
      OpenTimeStep(RunJet(front, jets, j), ops[last], jets, j);
      forall n | 0 <= n < last
        ensures Shortens(front, jets, j, n) == Shortens(ops, jets, j, n)
      {
        assert front[..n] == ops[..n];
      }
      assert Shortens(ops, jets, j, last) == ShortensNow(RunJet(front, jets, j), ops[last], jets, j);
    }
  }

  lemma {:induction false} EmptyRunAccounted(j: nat)
    requires j < MAX_RCS_JETS
    ensures Missing(START, j) == 0
  {}

  // ----- edges and masks

  /** Whether the pulse of jet `i` covers `time`. */
  predicate ScheduledOpen(slot: Slot, time: i32) {
    slot.open <= time < slot.close
  }

  /** A real edge of the schedule in `(after, through]`. */
  ghost predicate IsEdge(v: Valves, e: int, after: int, through: int) {
    && e != NO_EDGE && after < e <= through
    && exists i :: 0 <= i < MAX_RCS_JETS && (v.slots[i].open == e || v.slots[i].close == e)
  }

  const ONE_Q30: i32 := 0x4000_0000
  const HALF_Q30: i32 := 0x2000_0000
  const LEAK_Q30: i32 := 0x400_0000

  function FaultScale(fault: JetFault, scheduled: bool): i32 {
    match fault
    case StuckClosed => 0
    case StuckOpen => ONE_Q30
    case Leak => if scheduled then ONE_Q30 else LEAK_Q30
    case DegradedThrustHalf => if scheduled then HALF_Q30 else 0
    case Healthy => if scheduled then ONE_Q30 else 0
    case DelayedValveOneQuantum => if scheduled then ONE_Q30 else 0
  }

  /** The jets that flow at `time`: the set bits of the hardware mask. */
  function ActiveMask(v: Valves, remaining: i32, time: i32, faults: seq<JetFault>): set<nat>
    requires |faults| == MAX_RCS_JETS
  {
    if remaining <= 0 then {}
    else set i: nat | i < MAX_RCS_JETS && FaultScale(faults[i], ScheduledOpen(v.slots[i], time)) != 0
  }

  /** A valve that passes gas whatever the schedule says. */
  predicate FlowsUncommanded(fault: JetFault) {
    fault == StuckOpen || fault == Leak
  }

  /** Who is in the mask: stuck-open and leaking jets at all times, a stuck
      closed one never, every other one exactly during its pulse. */
  lemma {:induction false} MaskMembers(v: Valves, remaining: i32, time: i32, faults: seq<JetFault>, i: nat)
    requires |faults| == MAX_RCS_JETS && i < MAX_RCS_JETS
    ensures i in ActiveMask(v, remaining, time, faults) <==>
            && remaining > 0 && faults[i] != StuckClosed
            && (faults[i] == StuckOpen || faults[i] == Leak || v.slots[i].open <= time < v.slots[i].close)
  {}

  /** Safing closes every commanded valve and cannot close a stuck-open one. */
  lemma {:induction false} SafingLeavesUncommandedFlow(v: Valves, remaining: i32, time: i32, faults: seq<JetFault>)
    requires |faults| == MAX_RCS_JETS
    ensures ActiveMask(Safed(v), remaining, time, faults)
         == if remaining > 0 then set i: nat | i < MAX_RCS_JETS && FlowsUncommanded(faults[i]) else {}
  {
    var mask := ActiveMask(Safed(v), remaining, time, faults);
    forall i: nat | i < MAX_RCS_JETS
      ensures i in mask <==> remaining > 0 && FlowsUncommanded(faults[i])
    {
      MaskMembers(Safed(v), remaining, time, faults, i);
    }
  }

  /** Between edges no valve moves. */
  lemma {:induction false} NoEdgeNoChange(v: Valves, start: i32, end: i32, time: i32, i: nat)
    requires start <= time < end && i < MAX_RCS_JETS
    requires forall e :: IsEdge(v, e, start, end) ==> e >= end
    ensures ScheduledOpen(v.slots[i], time) == ScheduledOpen(v.slots[i], start)
  {
    var slot := v.slots[i];
    assert start < slot.open < end ==> IsEdge(v, slot.open, start, end);
    assert start < slot.close < end ==> IsEdge(v, slot.close, start, end);
  }

  /** The mask at the start of an edge-free interval is the mask throughout. */
  lemma {:induction false} MaskConstant(v: Valves, remaining: i32, start: i32, end: i32, time: i32,
                                        faults: seq<JetFault>)
    requires |faults| == MAX_RCS_JETS && start <= time < end
    requires forall e :: IsEdge(v, e, start, end) ==> e >= end
    ensures ActiveMask(v, remaining, time, faults) == ActiveMask(v, remaining, start, faults)
  {
    forall i: nat | i < MAX_RCS_JETS
      ensures ScheduledOpen(v.slots[i], time) == ScheduledOpen(v.slots[i], start)
    {
      NoEdgeNoChange(v, start, end, time, i);
    }
  }

  /** Ticks of `[from, to)` during which the pulse is open. */
  function ClippedOpenTime(slot: Slot, from: int, to: int): nat {
    Max(0, Min(slot.close, to) - Max(slot.open, from))
  }

  /** Over an edge-free interval the valve is open all the time or never. */
  lemma {:induction false} OpenTimeOfSegment(v: Valves, start: i32, end: i32, i: nat)
    requires start < end && i < MAX_RCS_JETS
    requires forall e :: IsEdge(v, e, start, end) ==> e >= end
    ensures ClippedOpenTime(v.slots[i], start, end)
         == if ScheduledOpen(v.slots[i], start) then end - start else 0
  {
    var slot := v.slots[i];
    assert start < slot.open < end ==> IsEdge(v, slot.open, start, end);
    assert start < slot.close < end ==> IsEdge(v, slot.close, start, end);
  }

  lemma {:induction false} ClippedAdds(slot: Slot, from: int, middle: int, to: int)
    requires from <= middle <= to
    ensures ClippedOpenTime(slot, from, middle) + ClippedOpenTime(slot, middle, to) == ClippedOpenTime(slot, from, to)
  {}
}
