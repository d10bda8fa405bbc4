/**
 Validity of the advanced effector pack: canard and jet installations,
 coefficient knots and the propellant supply curve.
 */
module Effectors {
  import opened Arithmetic

  const MAX_CANARDS: nat := 4
  const MAX_RCS_JETS: nat := 12
  const MAX_COEFFICIENT_KNOTS: nat := 8
  const MAX_SUPPLY_KNOTS: nat := 16

  datatype Vec3 = Vec3(x: i32, y: i32, z: i32) {
    predicate NonZero() {
      x != 0 || y != 0 || z != 0
    }
  }

  const ZERO3 := Vec3(0, 0, 0)

  datatype EffectorSet = CanardOnly | RcsOnly | GimbalCanardRcs {
    predicate HasCanards() {
      CanardOnly? || GimbalCanardRcs?
    }

    predicate HasRcs() {
      RcsOnly? || GimbalCanardRcs?
    }
  }

  datatype SupplySource = NoSupply | Regulated | IsothermalBlowdown

  datatype Canard = Canard(root: i32, tip: i32, span: i32, sweep: i32, mass: i32, inertia: Vec3,
                           limit: i16, slew: i16, lag: u8, failureIdentity: u16, normal: Vec3, hingeAxis: Vec3) {
    predicate IsValid() {
      && root > 0 && tip > 0 && span > 0 && sweep >= 0 && mass > 0
      && inertia.x > 0 && inertia.y > 0 && inertia.z > 0
      && limit > 0 && slew > 0 && lag <= 8 && failureIdentity != 0
      && normal.NonZero() && hingeAxis.NonZero()
    }
  }

  datatype CoefficientKnot = CoefficientKnot(mach: i32, control: i32, drag: i32, hinge: i32)

  datatype Jet = Jet(position: Vec3, direction: Vec3, nominalThrust: i32, specificImpulse: i32,
                     minPulse: u8, maxPulse: u8, valveDelay: u8,
                     failureIdentity: u16, provenanceIdentity: u32) {
    predicate IsValid() {
      && direction.NonZero() && nominalThrust > 0 && specificImpulse > 0
      && minPulse <= maxPulse <= 8 && valveDelay <= 8
      && failureIdentity != 0 && provenanceIdentity != 0
    }
  }

  datatype SupplyKnot = SupplyKnot(remaining: i32, pressure: i32, thrustScale: i32, flowScale: i32) {
    predicate IsValid() {
      remaining >= 0 && pressure > 0 && thrustScale > 0 && flowScale > 0
    }
  }

  datatype RawPack = RawPack(
    identity: u32, effectors: EffectorSet, supplySource: SupplySource, vehicleIdentity: u32,
    neutralVehicleIdentity: u32, supplyIdentity: u32, provenanceIdentity: u32,
    tankDryMass: i32, wetMass: i32, reserve: u16, hingeLimits: seq<i32>,
    canardCount: u8, jetCount: u8, coefficientCount: u8, supplyCount: u8,
    canards: seq<Canard>, coefficientKnots: seq<CoefficientKnot>, jets: seq<Jet>, supplyKnots: seq<SupplyKnot>)

  /** The fixed array sizes of the record. */
  predicate Shaped(p: RawPack) {
    && |p.hingeLimits| == |p.canards| == MAX_CANARDS && |p.jets| == MAX_RCS_JETS
    && |p.coefficientKnots| == MAX_COEFFICIENT_KNOTS && |p.supplyKnots| == MAX_SUPPLY_KNOTS
  }

  type Pack = p: RawPack | Shaped(p) ghost witness EmptyPack()

  ghost function EmptyPack(): RawPack {
    var canard := Canard(0, 0, 0, 0, 0, ZERO3, 0, 0, 0, 0, ZERO3, ZERO3);
    var jet := Jet(ZERO3, ZERO3, 0, 0, 0, 0, 0, 0, 0);
    RawPack(0, CanardOnly, NoSupply, 0, 0, 0, 0, 0, 0, 0, seq(MAX_CANARDS, _ => 0), 0, 0, 0, 0,
            seq(MAX_CANARDS, _ => canard), seq(MAX_COEFFICIENT_KNOTS, _ => CoefficientKnot(0, 0, 0, 0)),
            seq(MAX_RCS_JETS, _ => jet), seq(MAX_SUPPLY_KNOTS, _ => SupplyKnot(0, 0, 0, 0)))
  }

  predicate ValidCoefficient(k: CoefficientKnot) {
    0 <= k.mach && k.control > 0 && k.drag >= 0 && k.hinge > 0
  }

  ghost predicate ValidCoefficients(knots: seq<CoefficientKnot>) {
    && (forall i :: 0 <= i < |knots| ==> ValidCoefficient(knots[i]))
    && (forall i, j :: 0 <= i < j < |knots| ==> knots[i].mach < knots[j].mach)
  }

  /** The supply curve: positive scales over strictly increasing loads. */
  ghost predicate ValidSupply(knots: seq<SupplyKnot>) {
    && (forall i :: 0 <= i < |knots| ==> knots[i].IsValid())
    && (forall i, j :: 0 <= i < j < |knots| ==> knots[i].remaining < knots[j].remaining)
  }

  ghost predicate ValidCanardPart(p: Pack) {
    && 2 <= p.coefficientCount <= MAX_COEFFICIENT_KNOTS
    && (forall i :: 0 <= i < MAX_CANARDS ==> p.hingeLimits[i] > 0)
    && (forall i :: 0 <= i < MAX_CANARDS ==> p.canards[i].IsValid())
    && ValidCoefficients(p.coefficientKnots[..p.coefficientCount])
  }

  ghost predicate ValidRcsPart(p: Pack) {
    && p.supplySource != NoSupply && p.supplyIdentity != 0
    && 2 <= p.supplyCount <= MAX_SUPPLY_KNOTS
    && p.tankDryMass > 0 && p.wetMass > 0 && p.reserve <= 32_768
    && (forall i :: 0 <= i < MAX_RCS_JETS ==> p.jets[i].IsValid())
    && ValidSupply(p.supplyKnots[..p.supplyCount])
  }

  ghost predicate ValidPack(p: Pack) {
    && p.identity != 0 && p.vehicleIdentity != 0 && p.neutralVehicleIdentity != 0 && p.provenanceIdentity != 0
    && p.canardCount <= MAX_CANARDS && p.jetCount <= MAX_RCS_JETS
    && p.coefficientCount <= MAX_COEFFICIENT_KNOTS && p.supplyCount <= MAX_SUPPLY_KNOTS
    && (p.effectors.HasCanards() <==> p.canardCount == MAX_CANARDS)
    && (p.effectors.HasRcs() <==> p.jetCount == MAX_RCS_JETS)
    && (p.effectors.HasCanards() ==> ValidCanardPart(p))
    && (if p.effectors.HasRcs() then ValidRcsPart(p)
        else p.supplySource == NoSupply && p.supplyIdentity == 0 && p.supplyCount == 0 && p.wetMass == 0)
  }

  method CoefficientsAreValid(knots: seq<CoefficientKnot>) returns (valid: bool)
    ensures valid <==> ValidCoefficients(knots)
  {
    var last := -1;
    for i := 0 to |knots|
      invariant last == if i == 0 then -1 else knots[i - 1].mach
      invariant ValidCoefficients(knots[..i])
    {
      var k := knots[i];
      if k.mach <= last || k.control <= 0 || k.drag < 0 || k.hinge <= 0 {
        assert !ValidCoefficient(knots[i]) || (i > 0 && knots[i].mach <= knots[i - 1].mach);
        return false;
      }
      assert forall j :: 0 <= j < i - 1 ==> knots[..i][j].mach < knots[..i][i - 1].mach;
      last := k.mach;
    }
    assert knots[..|knots|] == knots;
    return true;
  }

  method SupplyIsValid(knots: seq<SupplyKnot>) returns (valid: bool)
    ensures valid <==> ValidSupply(knots)
  {
    var last := -1;
    for i := 0 to |knots|
      invariant last == if i == 0 then -1 else knots[i - 1].remaining
      invariant ValidSupply(knots[..i])
    {
      var k := knots[i];
      if !k.IsValid() || k.remaining <= last {
        assert !knots[i].IsValid() || (i > 0 && knots[i].remaining <= knots[i - 1].remaining);
        return false;
      }
      assert forall j :: 0 <= j < i - 1 ==> knots[..i][j].remaining < knots[..i][i - 1].remaining;
      last := k.remaining;
    }
    assert knots[..|knots|] == knots;
    return true;
  }

  /** The record scan decides the declarative validity predicate. */
  method IsValid(p: Pack) returns (valid: bool)
    ensures valid <==> ValidPack(p)
  {
    hide ValidCoefficients, ValidSupply;
    if p.identity == 0 || p.vehicleIdentity == 0 || p.neutralVehicleIdentity == 0 || p.provenanceIdentity == 0
       || p.canardCount > MAX_CANARDS || p.jetCount > MAX_RCS_JETS
       || p.coefficientCount > MAX_COEFFICIENT_KNOTS || p.supplyCount > MAX_SUPPLY_KNOTS
    {
      return false;
    }
    if p.effectors.HasCanards() != (p.canardCount == MAX_CANARDS)
       || p.effectors.HasRcs() != (p.jetCount == MAX_RCS_JETS)
    {
      return false;
    }
    if p.effectors.HasCanards() {
      if p.coefficientCount < 2
         || (exists i :: 0 <= i < MAX_CANARDS && p.hingeLimits[i] <= 0)
         || (exists i :: 0 <= i < MAX_CANARDS && !p.canards[i].IsValid())
      {
        return false;
      }
      var coefficients := CoefficientsAreValid(p.coefficientKnots[..p.coefficientCount]);
      if !coefficients {
        return false;
      }
    }
    if p.effectors.HasRcs() {
      if p.supplySource == NoSupply || p.supplyIdentity == 0 || p.supplyCount < 2
         || p.tankDryMass <= 0 || p.wetMass <= 0 || p.reserve > 32_768
         || (exists i :: 0 <= i < MAX_RCS_JETS && !p.jets[i].IsValid())
      {
        return false;
      }
      var supply := SupplyIsValid(p.supplyKnots[..p.supplyCount]);
      return supply;
    }
    return p.supplySource == NoSupply && p.supplyIdentity == 0 && p.supplyCount == 0 && p.wetMass == 0;
  }
}
