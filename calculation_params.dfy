/**
 * The tariff of src/paymentCalculator/CalculationParams.ts: hourly rate,
 * one evening window with its extra rate, and overtime tiers given in
 * hours worked per day.
 */
module Params {
  import opened Times

  /** A tier's upper bound in hours; `Infinity` has no upper clamp. */
  datatype TierEnd = Finite(hours: real) | Infinity

  datatype OvertimeTier = OvertimeTier(multiplier: real, start: real, end: TierEnd)

  /**
   * The evening window and its extra rate. The record type calls the rate
   * `extraWage` and the engine reads it as `multiplier`; both are this field.
   */
  datatype EveningParams = EveningParams(extraWage: real, start: Time, end: Time)

  datatype CalculationParams = CalculationParams(
    regularDailyWage: real,
    eveningWorkParameters: EveningParams,
    overtimeParameters: seq<OvertimeTier>)

  /** `DEFAULT_PARAMS`. */
  const DefaultParams: CalculationParams := CalculationParams(
    3.75,
    EveningParams(1.15, Time(16, 0), Time(8, 0)),
    [ OvertimeTier(0.25, 8.0, Finite(10.0)),
      OvertimeTier(0.5, 10.0, Finite(12.0)),
      OvertimeTier(1.0, 12.0, Infinity) ])

  predicate StartsBeforeEnd(t: OvertimeTier) {
    t.end.Infinity? || t.start < t.end.hours
  }

  /** Each tier ends where the next one starts. */
  predicate Contiguous(tiers: seq<OvertimeTier>) {
    forall i :: 0 <= i < |tiers| - 1 ==> tiers[i].end == Finite(tiers[i + 1].start)
  }

  lemma DefaultTiersAscending()
    ensures forall t :: t in DefaultParams.overtimeParameters ==> StartsBeforeEnd(t)
    ensures Contiguous(DefaultParams.overtimeParameters)
    ensures DefaultParams.overtimeParameters[0].start == 8.0
    ensures DefaultParams.overtimeParameters[|DefaultParams.overtimeParameters| - 1].end == Infinity
  {
  }

  /**
   * The default tariff: rate 3.75, evening extra 1.15 from 16:00 to 8:00,
   * and three overtime tiers whose multipliers rise from tier to tier.
   */
  lemma DefaultTariff()
    ensures DefaultParams.regularDailyWage == 3.75
    ensures DefaultParams.eveningWorkParameters == EveningParams(1.15, Time(16, 0), Time(8, 0))
    ensures var tiers := DefaultParams.overtimeParameters;
      |tiers| == 3 && forall i, j :: 0 <= i < j < |tiers| ==> tiers[i].multiplier < tiers[j].multiplier
  {
  }

  /** The default evening window runs past midnight: its end is before its start. */
  lemma DefaultEveningWraps()
    ensures IsBefore(DefaultParams.eveningWorkParameters.end, DefaultParams.eveningWorkParameters.start)
  {
  }
}
