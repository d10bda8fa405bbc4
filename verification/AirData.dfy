/**
 The 32 Hz pitot and Mach sensor: synthesis of one reading, and the eight-slot
 delay ring that replays earlier readings.
 */
module AirData {
  import opened Arithmetic
  import opened Numeric
  import opened TwoWord

  const HISTORY: nat := 8

  datatype Config = Config(pressureBias: i32, pressureNoise: i32, pressureQuantum: i32, pressureSaturation: i32,
                           machBias: i16, machNoise: i16, machQuantum: i16, delay: u8,
                           dropoutStart: u16, dropoutEpochs: u16) {
    predicate IsValid() {
      && pressureNoise >= 0 && pressureQuantum > 0 && pressureSaturation > 0
      && machNoise >= 0 && machQuantum > 0 && delay < HISTORY
    }
  }

  datatype Reading = Reading(measurementEpoch: u16, productionEpoch: u16, pressure: i32, mach: i16,
                             valid: bool, saturated: bool)

  const EMPTY := Reading(0, 0, 0, 0, false, false)

  // ----- one reading

  /** Half a quantum added to the magnitude, then truncated to the grid. The
      addition saturates at the end of `i32`. */
  function Quantize(value: i32, quantum: i32): i32
    requires 0 < quantum
  {
    if value >= 0 then
      OnGrid(SaturatingAdd32(value, quantum / 2), quantum);
      SaturatingAdd32(value, quantum / 2) / quantum * quantum
    else
      OnGrid(0 - SaturatingAdd32(value, 0 - quantum / 2), quantum);
      0 - (0 - SaturatingAdd32(value, 0 - quantum / 2)) / quantum * quantum
  }

  /** The multiple of the quantum at or below a magnitude. */
  lemma {:induction false} OnGrid(magnitude: nat, quantum: nat)
    requires 0 < quantum
    ensures 0 <= magnitude / quantum * quantum <= magnitude < magnitude / quantum * quantum + quantum
  {
    assert magnitude == magnitude / quantum * quantum + magnitude % quantum;
    if magnitude / quantum < 0 {
      MulMonotone(magnitude / quantum, -1, quantum);
    }
    MulMonotone(0, magnitude / quantum, quantum);
  }

  lemma {:induction false} GridMonotone(a: nat, b: nat, quantum: nat)
    requires 0 < quantum && a <= b
    ensures a / quantum * quantum <= b / quantum * quantum
  {
    OnGrid(a, quantum);
    OnGrid(b, quantum);
    if b / quantum < a / quantum {
      MulStrict(b / quantum, a / quantum, quantum);
    }
  }

  /** Rounding a magnitude with an addition that saturates at `top`: within half
      a quantum exactly up to half a quantum past the last grid point. */
  lemma {:induction false} SaturatingRound(magnitude: nat, quantum: nat, top: nat)
    requires 0 < quantum && magnitude <= top
    ensures var rounded := Min(magnitude + quantum / 2, top) / quantum * quantum;
            2 * Abs(rounded - magnitude) <= quantum <==> 2 * magnitude <= 2 * (top / quantum * quantum) + quantum
  {
    var biased := Min(magnitude + quantum / 2, top);
    OnGrid(biased, quantum);
    GridMonotone(biased, top, quantum);
    OnGrid(top, quantum);
  }

  /** The largest magnitude of a value's own sign. */
  function Top(value: i32): nat {
    if value >= 0 then MAX_I32 else 0x8000_0000
  }

  /** The last grid point of the value's own sign, by magnitude. */
  function LastPoint(value: i32, quantum: i32): int
    requires 0 < quantum
  {
    Top(value) / quantum * quantum
  }

  /** Quantising puts any value on the grid. It moves it by at most half a
      quantum exactly when the value is not further than that past the last
      point of the grid. */
  lemma {:induction false} QuantizeIsNearest(value: i32, quantum: i32)
    requires 0 < quantum
    ensures Quantize(value, quantum) % quantum == 0
    ensures 2 * Abs(Quantize(value, quantum) - value) <= quantum
       <==> 2 * Abs(value) <= 2 * LastPoint(value, quantum) + quantum
  {
    hide Quantize;
    QuantizedMagnitude(value, quantum);
    SaturatingRound(Abs(value), quantum, Top(value));
    MultipleOf(Min(Abs(value) + quantum / 2, Top(value)) / quantum, quantum);
  }

  /** Quantising works on the magnitude alone. */
  lemma {:induction false} QuantizedMagnitude(value: i32, quantum: i32)
    requires 0 < quantum
    ensures var rounded := Min(Abs(value) + quantum / 2, Top(value)) / quantum * quantum;
            Quantize(value, quantum) == if value >= 0 then rounded else 0 - rounded
  {}

  lemma {:induction false} MultipleOf(steps: int, quantum: nat)
    requires 0 < quantum
    ensures steps * quantum % quantum == 0 && (0 - steps * quantum) % quantum == 0
  {
    DivUnique(steps * quantum, quantum, steps, 0);
    assert (0 - steps) * quantum == 0 - steps * quantum;
    DivUnique(0 - steps * quantum, quantum, 0 - steps, 0);
  }

  /** The largest Mach whose rounding stays in the 16-bit field. */
  predicate MachFits(mach: int, quantum: i16)
    requires 0 < quantum
  {
    mach + quantum / 2 < (0x7fff / quantum + 1) * quantum
  }

  /** The reported Mach is within half a quantum of the one it stands for
      exactly while rounding stays in the field; just under full scale it can
      round up and wrap negative. */
  lemma {:induction false} MachFieldExact(mach: i32, quantum: i16)
    requires 0 <= mach <= 0x7fff && 0 < quantum
    ensures 2 * Abs(Wrap16(Quantize(mach, quantum)) - mach) <= quantum <==> MachFits(mach, quantum)
    ensures Wrap16(Quantize(mach, quantum)) >= 0 <==> MachFits(mach, quantum)
  {
    hide Wrap16;
    MachRounds(mach, quantum);
    WrapsPastTop(Quantize(mach, quantum));
  }

  lemma {:induction false} MachRounds(mach: i32, quantum: i16)
    requires 0 <= mach <= 0x7fff && 0 < quantum
    ensures 0 <= Quantize(mach, quantum) && 2 * Abs(Quantize(mach, quantum) - mach) <= quantum
    ensures Quantize(mach, quantum) <= 0x7fff <==> MachFits(mach, quantum)
  {
    var biased := mach + quantum / 2;
    OnGrid(biased, quantum);
    OnGrid(0x7fff, quantum);
    var steps, last := biased / quantum, 0x7fff / quantum;
    if steps <= last {
      MulMonotone(steps, last, quantum);
      MulMonotone(steps + 1, last + 1, quantum);
    } else {
      MulMonotone(last + 1, steps, quantum);
    }
  }

  lemma {:induction false} WrapsPastTop(v: nat)
    requires v <= 0xbfff
    ensures Wrap16(v) == if v <= 0x7fff then v else v - 0x1_0000
  {}

  predicate InDropout(c: Config, epoch: u16) {
    c.dropoutEpochs != 0 && (epoch - c.dropoutStart) % 0x1_0000 < c.dropoutEpochs
  }

  /** The reading synthesised at one epoch. `key` is the noise hash of the
      sensor identity and the epoch. */
  function Measure(c: Config, key: u32, epoch: u16, pressure: i32, mach: i32, status: NumericStatus)
    : (Reading, NumericStatus)
    requires c.IsValid()
  {
    var qNoise := ScaledProduct(c.pressureNoise, key % 0x1_0000 - 0x8000, 15, status);
    var mNoise := ScaledProduct(c.machNoise, key / 0x1_0000 - 0x8000, 15, qNoise.status);
    var biased := Sum(SaturatingAdd32(pressure, 4) / 8, c.pressureBias, mNoise.status);
    var q := Sum(biased.value, qNoise.value, biased.status);
    var m := SaturatingAdd32(SaturatingAdd32(SaturatingAdd32(mach, 2048) / 4096, c.machBias), mNoise.value);
    var saturated := q.value > c.pressureSaturation || q.value < 0 || m > 0x7fff || m < 0;
    (Reading(epoch, epoch,
             Quantize(Clamp(q.value, 0, c.pressureSaturation), c.pressureQuantum),
             Wrap16(Quantize(Clamp(m, 0, 0x7fff), c.machQuantum)),
             !InDropout(c, epoch) && !saturated && q.status.IsClear(), saturated),
     q.status)
  }

  /** Noise never exceeds its configured amplitude and never faults. */
  lemma {:induction false} NoiseBound(amplitude: i32, draw: i32, status: NumericStatus)
    requires 0 <= amplitude && -0x8000 <= draw <= 0x7fff
    ensures var n := ScaledProduct(amplitude, draw, 15, status);
            n.status == status && Abs(n.value) <= amplitude
  {
    assert Pow2(15) == 0x8000;
    FractionOf(amplitude, Abs(draw), 0x8000);
    assert amplitude * draw == if draw < 0 then -(amplitude * Abs(draw)) else amplitude * Abs(draw);
  }

  /** The Q10 pressure a perfect sensor of this bias would report. */
  function BiasedPressure(c: Config, pressure: i32): int {
    SaturatingAdd32(pressure, 4) / 8 + c.pressureBias
  }

  /** ... and with the noise drawn for the epoch, before quantising. */
  function SensedPressure(c: Config, key: u32, pressure: i32): int {
    BiasedPressure(c, pressure) + ScaledProduct(c.pressureNoise, key % 0x1_0000 - 0x8000, 15, CLEAR).value
  }

  function BiasedMach(c: Config, mach: i32): int {
    SaturatingAdd32(mach, 2048) / 4096 + c.machBias
  }

  function SensedMach(c: Config, key: u32, mach: i32): int {
    BiasedMach(c, mach) + ScaledProduct(c.machNoise, key / 0x1_0000 - 0x8000, 15, CLEAR).value
  }

  /** What the sensed values are: the truth in the coarser unit to nearest, the
      bias, and the amplitude times a signed 16-bit draw, one from each half of
      the key. */
  lemma {:induction false} SensedMeans(c: Config, key: u32, pressure: i32, mach: i32)
    requires c.IsValid() && pressure <= MAX_I32 - 4 && mach <= MAX_I32 - 2048
    ensures var truth := BiasedPressure(c, pressure) - c.pressureBias;
            && Abs(8 * truth - pressure) <= 4
            && IsNearestAwayFromZero(SensedPressure(c, key, pressure) - c.pressureBias - truth,
                                     c.pressureNoise * (key % 0x1_0000 - 0x8000), 0x8000)
    ensures var truth := BiasedMach(c, mach) - c.machBias;
            && Abs(4096 * truth - mach) <= 2048
            && IsNearestAwayFromZero(SensedMach(c, key, mach) - c.machBias - truth,
                                     c.machNoise * (key / 0x1_0000 - 0x8000), 0x8000)
  {
    hide ScaledProduct, IsNearestAwayFromZero;
    NoiseMeans(c.pressureNoise, key % 0x1_0000 - 0x8000);
    NoiseMeans(c.machNoise, key / 0x1_0000 - 0x8000);
  }

  lemma {:induction false} NoiseMeans(amplitude: i32, draw: i32)
    requires 0 <= amplitude && -0x8000 <= draw <= 0x7fff
    ensures IsNearestAwayFromZero(ScaledProduct(amplitude, draw, 15, CLEAR).value, amplitude * draw, 0x8000)
  {
    hide RoundHalfAway;
    Pow2OfScales();
    NoiseBound(amplitude, draw, CLEAR);
    RoundHalfAwayIsNearest(amplitude * draw, Pow2(15));
    NoiseFits(amplitude, draw);
  }

  lemma {:induction false} NoiseFits(amplitude: i32, draw: i32)
    requires 0 <= amplitude && -0x8000 <= draw <= 0x7fff
    ensures MIN_I32 <= RoundHalfAway(amplitude * draw, Pow2(15)) <= MAX_I32
  {
    Pow2OfScales();
    MulMonotone(draw, 0x8000, amplitude);
    MulMonotone(-0x8000, draw, amplitude);
    RoundBetween(0 - amplitude, amplitude * draw, amplitude, 0x8000);
  }

  /** A reading is valid exactly when its epoch is none of the dropout's, which
      are counted from its start modulo 2^16, the biased pressure fits, both
      sensed values are in range, and no fault was recorded before. It is stamped
      with its own epoch. */
  lemma {:induction false} ValidExactly(c: Config, key: u32, epoch: u16, pressure: i32, mach: i32,
                                        status: NumericStatus)
    requires c.IsValid()
    ensures var r := Measure(c, key, epoch, pressure, mach, status).0;
            && r.measurementEpoch == epoch && r.productionEpoch == epoch
            && (r.valid <==>
                  && (forall j :: 0 <= j < c.dropoutEpochs ==> epoch != EpochAfter(c.dropoutStart, j))
                  && MIN_I32 <= BiasedPressure(c, pressure) <= MAX_I32
                  && 0 <= SensedPressure(c, key, pressure) <= c.pressureSaturation
                  && 0 <= SensedMach(c, key, mach) <= 0x7fff
                  && status.IsClear())
  {
    hide ScaledProduct, Quantize, Wrap16, InDropout;
    DropoutMeans(c, epoch);
    NoiseBound(c.pressureNoise, key % 0x1_0000 - 0x8000, status);
    NoiseBound(c.machNoise, key / 0x1_0000 - 0x8000, status);
    NoiseIgnoresStatus(c.pressureNoise, key % 0x1_0000 - 0x8000, status);
    NoiseIgnoresStatus(c.machNoise, key / 0x1_0000 - 0x8000, status);
    MachTruthRange(c, mach);
  }

  lemma {:induction false} NoiseIgnoresStatus(amplitude: i32, draw: i32, status: NumericStatus)
    ensures ScaledProduct(amplitude, draw, 15, status).value == ScaledProduct(amplitude, draw, 15, CLEAR).value
  {}

  /** The epoch `j` after another. */
  function EpochAfter(epoch: u16, j: nat): u16 {
    (epoch + j) % 0x1_0000
  }

  lemma {:induction false} DropoutMeans(c: Config, epoch: u16)
    ensures InDropout(c, epoch) <==> exists j :: 0 <= j < c.dropoutEpochs && epoch == EpochAfter(c.dropoutStart, j)
  {
    var j := (epoch - c.dropoutStart) % 0x1_0000;
    assert epoch == EpochAfter(c.dropoutStart, j);
  }

  /** A valid reading quantises exactly the sensed values, which are in range
      and within the noise amplitude of the biased truth. */
  lemma {:induction false} ValidReadingSenses(c: Config, key: u32, epoch: u16, pressure: i32, mach: i32,
                                              status: NumericStatus)
    requires c.IsValid() && Measure(c, key, epoch, pressure, mach, status).0.valid
    ensures var r := Measure(c, key, epoch, pressure, mach, status).0;
            var q, m := SensedPressure(c, key, pressure), SensedMach(c, key, mach);
            && !InDropout(c, epoch) && !r.saturated && status.IsClear()
            && 0 <= q <= c.pressureSaturation && Abs(q - BiasedPressure(c, pressure)) <= c.pressureNoise
            && 0 <= m <= 0x7fff && Abs(m - BiasedMach(c, mach)) <= c.machNoise
            && r.pressure == Quantize(q, c.pressureQuantum) && r.mach == Wrap16(Quantize(m, c.machQuantum))
  {
    hide ScaledProduct, Quantize, Wrap16;
    NoiseBound(c.pressureNoise, key % 0x1_0000 - 0x8000, status);
    NoiseBound(c.machNoise, key / 0x1_0000 - 0x8000, status);
    NoiseBound(c.pressureNoise, key % 0x1_0000 - 0x8000, CLEAR);
    NoiseBound(c.machNoise, key / 0x1_0000 - 0x8000, CLEAR);
    MachTruthRange(c, mach);
  }

  lemma {:induction false} MachTruthRange(c: Config, mach: i32)
    ensures Abs(BiasedMach(c, mach)) <= 0x10_0000
  {}

  /** What one reading is worth: a valid pressure lies on its grid, and within
      half a quantum of the sensed one exactly when that is not past the last
      grid point by more. */
  lemma {:induction false} ValidReadingIsAccurate(c: Config, key: u32, epoch: u16, pressure: i32, mach: i32,
                                                  status: NumericStatus)
    requires c.IsValid() && Measure(c, key, epoch, pressure, mach, status).0.valid
    ensures var r := Measure(c, key, epoch, pressure, mach, status).0;
            var q := SensedPressure(c, key, pressure);
            && r.pressure % c.pressureQuantum == 0
            && Abs(q - BiasedPressure(c, pressure)) <= c.pressureNoise
            && (2 * Abs(r.pressure - q) <= c.pressureQuantum
                <==> 2 * q <= 2 * LastPoint(MAX_I32, c.pressureQuantum) + c.pressureQuantum)
  {
    hide Measure, SensedPressure, Quantize;
    ValidReadingSenses(c, key, epoch, pressure, mach, status);
    QuantizeIsNearest(SensedPressure(c, key, pressure), c.pressureQuantum);
  }

  /** A configuration whose full scale is that close to its last grid point
      never reports a valid pressure off by more than noise and half a quantum. */
  lemma {:induction false} PressureIsTrusted(c: Config, key: u32, epoch: u16, pressure: i32, mach: i32,
                                             status: NumericStatus)
    requires c.IsValid() && Measure(c, key, epoch, pressure, mach, status).0.valid
    requires 2 * c.pressureSaturation <= 2 * LastPoint(MAX_I32, c.pressureQuantum) + c.pressureQuantum
    ensures 2 * Abs(Measure(c, key, epoch, pressure, mach, status).0.pressure - BiasedPressure(c, pressure))
         <= 2 * c.pressureNoise + c.pressureQuantum
  {
    hide Measure, SensedPressure, BiasedPressure, LastPoint;
    ValidReadingSenses(c, key, epoch, pressure, mach, status);
    ValidReadingIsAccurate(c, key, epoch, pressure, mach, status);
  }

  /** The same for Mach, which is accurate exactly while it fits its field. */
  lemma {:induction false} ValidMachIsAccurate(c: Config, key: u32, epoch: u16, pressure: i32, mach: i32,
                                               status: NumericStatus)
    requires c.IsValid() && Measure(c, key, epoch, pressure, mach, status).0.valid
    ensures var r := Measure(c, key, epoch, pressure, mach, status).0;
            var m := SensedMach(c, key, mach);
            && Abs(m - BiasedMach(c, mach)) <= c.machNoise
            && (2 * Abs(r.mach - m) <= c.machQuantum <==> MachFits(m, c.machQuantum))
            && (MachFits(m, c.machQuantum) <==> r.mach >= 0)
  {
    hide Measure, SensedMach, Quantize, Wrap16, MachFits;
    ValidReadingSenses(c, key, epoch, pressure, mach, status);
    MachFieldExact(SensedMach(c, key, mach), c.machQuantum);
  }

  /** A configuration whose full scale stays in the field when rounded never
      reports a valid Mach off by more than noise and half a quantum. */
  lemma {:induction false} MachIsTrusted(c: Config, key: u32, epoch: u16, pressure: i32, mach: i32,
                                         status: NumericStatus)
    requires c.IsValid() && Measure(c, key, epoch, pressure, mach, status).0.valid
    requires MachFits(0x7fff, c.machQuantum)
    ensures 2 * Abs(Measure(c, key, epoch, pressure, mach, status).0.mach - BiasedMach(c, mach))
         <= 2 * c.machNoise + c.machQuantum
  {
    hide Measure, SensedMach, BiasedMach;
    ValidReadingSenses(c, key, epoch, pressure, mach, status);
    ValidMachIsAccurate(c, key, epoch, pressure, mach, status);
  }

  /** An accepted sensor at full-scale Mach: the reading is valid and negative. */
  lemma {:induction false} FullScaleMachWraps()
    ensures var c := Config(0, 0, 1, 1, 0, 0, 2, 0, 0, 0);
            var r := Measure(c, 0x8000_8000, 0, 0, 0x7fff * 4096, CLEAR).0;
            c.IsValid() && r.valid && r.mach == -0x8000
  {
    assert Pow2(15) == 0x8000;
  }

  /** An accepted sensor at full-scale pressure: the reading is valid and off by
      all but one of a whole quantum. */
  lemma {:induction false} FullScalePressureDrops()
    ensures var c := Config(MAX_I32, 0, 0x4000_0000, MAX_I32, 0, 0, 1, 0, 0, 0);
            var r := Measure(c, 0x8000_8000, 0, 0, 0, CLEAR).0;
            c.IsValid() && r.valid && SensedPressure(c, 0x8000_8000, 0) - r.pressure == c.pressureQuantum - 1
  {
    assert Pow2(15) == 0x8000;
  }

  // ----- the delay ring

  type Ring = r: seq<Reading> | |r| == HISTORY witness seq(HISTORY, _ => EMPTY)

  function EmptyRing(): Ring {
    seq(HISTORY, _ => EMPTY)
  }

  function Missing(epoch: u16): Reading {
    EMPTY.(productionEpoch := epoch)
  }

  /** What the sensor hands out at `epoch`, given the ring. */
  function Delivered(ring: Ring, epoch: u16, delay: nat): Reading {
    if epoch < delay then Missing(epoch)
    else
      var out := ring[(epoch - delay) % HISTORY];
      if out.measurementEpoch != epoch - delay then Missing(epoch) else out.(productionEpoch := epoch)
  }

  class PitotSensor {
    const config: Config
    var history: seq<Reading>

    ghost predicate Valid()
      reads this
    {
      config.IsValid() && |history| == HISTORY
    }

    constructor (config: Config)
      requires config.IsValid()
      ensures Valid() && this.config == config && history == EmptyRing()
    {
      this.config := config;
      history := seq(HISTORY, _ => EMPTY);
    }

    /** Refuses a zero identity or an invalid configuration. */
    static method Create(scenarioIdentity: u32, sensorIdentity: u32, config: Config) returns (sensor: PitotSensor?)
      ensures sensor == null <==> scenarioIdentity == 0 || sensorIdentity == 0 || !config.IsValid()
      ensures sensor != null ==>
                fresh(sensor) && sensor.Valid() && sensor.config == config && sensor.history == EmptyRing()
    {
      if scenarioIdentity == 0 || sensorIdentity == 0 || !config.IsValid() {
        return null;
      }
      sensor := new PitotSensor(config);
    }

    /** Stores the new reading in its slot and replays the delayed one. */
    method Sample(epoch: u16, key: u32, pressure: i32, mach: i32, status: NumericStatus)
      returns (out: Reading, after: NumericStatus)
      requires Valid()
      modifies this`history
      ensures Valid()
      ensures var measured := Measure(config, key, epoch, pressure, mach, status);
              && after == measured.1
              && history == old(history)[epoch % HISTORY := measured.0]
              && out == Delivered(history, epoch, config.delay)
    {
      hide ScaledProduct, Saturate, Quantize;
      var qNoise, mNoise, q;
      qNoise, after := MultiplyScaled(config.pressureNoise, key % 0x1_0000 - 0x8000, 15, status);
      mNoise, after := MultiplyScaled(config.machNoise, key / 0x1_0000 - 0x8000, 15, after);
      var qTruth := SaturatingAdd32(pressure, 4) / 8;
      var mTruth := SaturatingAdd32(mach, 2048) / 4096;
      q, after := Add(qTruth, config.pressureBias, after);
      q, after := Add(q, qNoise, after);
      var m := SaturatingAdd32(SaturatingAdd32(mTruth, config.machBias), mNoise);
      var saturated := q > config.pressureSaturation || q < 0 || m > 0x7fff || m < 0;
      var pressureOut := Quantize(Clamp(q, 0, config.pressureSaturation), config.pressureQuantum);
      var machOut := Wrap16(Quantize(Clamp(m, 0, 0x7fff), config.machQuantum));
      var dropout := InDropout(config, epoch);
      history := history[epoch % HISTORY :=
        Reading(epoch, epoch, pressureOut, machOut, !dropout && !saturated && after.IsClear(), saturated)];
      if epoch < config.delay {
        return Missing(epoch), after;
      }
      var measurement := epoch - config.delay;
      out := history[measurement % HISTORY];
      if out.measurementEpoch != measurement {
        return Missing(epoch), after;
      }
      out := out.(productionEpoch := epoch);
    }
  }

  // ----- runs

  /** Readings in the order taken, at strictly increasing epochs. */
  ghost predicate Increasing(samples: seq<Reading>) {
    forall i, j :: 0 <= i < j < |samples| ==> samples[i].measurementEpoch < samples[j].measurementEpoch
  }

  /** The ring after storing all samples. */
  function RingAfter(samples: seq<Reading>): Ring {
    if samples == [] then EmptyRing()
    else
      var last := |samples| - 1;
      RingAfter(samples[..last])[samples[last].measurementEpoch % HISTORY := samples[last]]
  }

  ghost predicate Sampled(samples: seq<Reading>, epoch: int) {
    exists i :: 0 <= i < |samples| && samples[i].measurementEpoch == epoch
  }

  /** The reference: an unbounded map from epoch to reading. */
  ghost function Recalled(samples: seq<Reading>, epoch: u16, delay: nat): Reading {
    if Sampled(samples, epoch - delay) then
      var i :| 0 <= i < |samples| && samples[i].measurementEpoch == epoch - delay;
      samples[i].(productionEpoch := epoch)
    else Reading(0, epoch, 0, 0, false, false)
  }

  /** A slot still holds the reading of any epoch less than eight old; if that
      epoch was skipped, the slot's tag gives it away. */
  lemma {:induction false} SlotHolds(samples: seq<Reading>, m: u16)
    requires Increasing(samples)
    requires forall i :: 0 <= i < |samples| ==> samples[i].measurementEpoch < m + HISTORY
    ensures var slot := RingAfter(samples)[m % HISTORY];
            && (forall i :: 0 <= i < |samples| && samples[i].measurementEpoch == m ==> slot == samples[i])
            && (!Sampled(samples, m) ==> slot == EMPTY || slot.measurementEpoch != m)
  {
    hide RingAfter;
    if samples == [] {
      EmptySlot(m % HISTORY);
    } else {
      var last := |samples| - 1;
      var front := samples[..last];
      SlotStep(samples, m % HISTORY);
      if samples[last].measurementEpoch % HISTORY == m % HISTORY {
        SameSlotNotLater(samples[last].measurementEpoch, m);
        assert samples[last].measurementEpoch == m ==> Sampled(samples, m);
      } else {
        SlotHolds(front, m);
        assert Sampled(front, m) ==> Sampled(samples, m);
        forall i | 0 <= i < |samples| && samples[i].measurementEpoch == m
          ensures i < last && front[i] == samples[i]
        {
        }
      }
    }
  }

  lemma {:induction false} EmptySlot(slot: nat)
    requires slot < HISTORY
    ensures RingAfter([])[slot] == EMPTY
  {}

  lemma {:induction false} SlotStep(samples: seq<Reading>, slot: nat)
    requires samples != [] && slot < HISTORY
    ensures var last := |samples| - 1;
            RingAfter(samples)[slot] ==
              if samples[last].measurementEpoch % HISTORY == slot then samples[last]
              else RingAfter(samples[..last])[slot]
  {}

  lemma {:induction false} SameSlotNotLater(e: nat, m: nat)
    requires e % HISTORY == m % HISTORY && e < m + HISTORY
    ensures e <= m
  {}

  /** For strictly increasing epochs the eight slots answer exactly like an
      unbounded history. */
  lemma {:induction false} RingIsUnboundedHistory(samples: seq<Reading>, delay: nat)
    requires samples != [] && Increasing(samples) && delay < HISTORY
    ensures var epoch := samples[|samples| - 1].measurementEpoch;
            Delivered(RingAfter(samples), epoch, delay) == Recalled(samples, epoch, delay)
  {
    hide RingAfter;
    var epoch := samples[|samples| - 1].measurementEpoch;
    if epoch >= delay {
      SlotHolds(samples, epoch - delay);
    } else {
      assert !Sampled(samples, epoch - delay);
    }
  }

  datatype Input = Input(epoch: u16, key: u32, pressure: i32, mach: i32, status: NumericStatus)

  /** A fresh sensor driven at strictly increasing epochs hands out, each time,
      the reading recalled from everything it has measured so far. */
  method SampleAll(sensor: PitotSensor, inputs: seq<Input>)
    returns (outs: seq<Reading>, ghost taken: seq<Reading>)
    requires sensor.Valid() && sensor.history == EmptyRing()
    requires forall i, j :: 0 <= i < j < |inputs| ==> inputs[i].epoch < inputs[j].epoch
    modifies sensor`history
    ensures |outs| == |taken| == |inputs|
    ensures forall k :: 0 <= k < |inputs| ==> taken[k] == Taken(sensor.config, inputs[k])
    ensures forall k :: 0 <= k < |inputs| ==>
              outs[k] == Recalled(taken[..k + 1], inputs[k].epoch, sensor.config.delay)
  {
    hide Measure, Recalled, Delivered, Increasing, RingAfter;
    outs, taken := [], [];
    EmptyHistory();
    for n := 0 to |inputs|
      invariant sensor.Valid() && |outs| == |taken| == n
      invariant sensor.history == RingAfter(taken)
      invariant forall k :: 0 <= k < n ==> taken[k] == Taken(sensor.config, inputs[k])
      invariant forall k :: 0 <= k < n ==> outs[k] == Recalled(taken[..k + 1], inputs[k].epoch, sensor.config.delay)
    {
      var i := inputs[n];
      ghost var reading := Taken(sensor.config, i);
      TakenEpoch(sensor.config, i);
      RingGrows(taken, reading);
      var out, after := sensor.Sample(i.epoch, i.key, i.pressure, i.mach, i.status);
      PrefixesKept(taken, reading);
      TakenIncrease(sensor.config, inputs, taken + [reading]);
      RingIsUnboundedHistory(taken + [reading], sensor.config.delay);
      outs, taken := outs + [out], taken + [reading];
    }
  }

  lemma {:induction false} EmptyHistory()
    ensures RingAfter([]) == EmptyRing()
  {}

  lemma {:induction false} RingGrows(taken: seq<Reading>, reading: Reading)
    ensures RingAfter(taken + [reading]) == RingAfter(taken)[reading.measurementEpoch % HISTORY := reading]
  {
    assert (taken + [reading])[..|taken|] == taken;
  }

  lemma {:induction false} PrefixesKept(taken: seq<Reading>, reading: Reading)
    ensures forall n :: 0 <= n <= |taken| ==> (taken + [reading])[..n] == taken[..n]
    ensures (taken + [reading])[..|taken| + 1] == taken + [reading]
  {}

  /** Readings taken at increasing epochs carry increasing epochs. */
  lemma {:induction false} TakenIncrease(c: Config, inputs: seq<Input>, taken: seq<Reading>)
    requires c.IsValid() && |taken| <= |inputs|
    requires forall i, j :: 0 <= i < j < |inputs| ==> inputs[i].epoch < inputs[j].epoch
    requires forall k :: 0 <= k < |taken| ==> taken[k] == Taken(c, inputs[k])
    ensures Increasing(taken) && forall k :: 0 <= k < |taken| ==> taken[k].measurementEpoch == inputs[k].epoch
  {
    hide Taken;
    forall k | 0 <= k < |taken|
      ensures taken[k].measurementEpoch == inputs[k].epoch
    {
      TakenEpoch(c, inputs[k]);
    }
  }

  function Taken(c: Config, i: Input): Reading
    requires c.IsValid()
  {
    Measure(c, i.key, i.epoch, i.pressure, i.mach, i.status).0
  }

  lemma {:induction false} TakenEpoch(c: Config, i: Input)
    requires c.IsValid()
    ensures Taken(c, i).measurementEpoch == i.epoch
  {}
}
