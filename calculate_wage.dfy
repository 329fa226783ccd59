/**
 * The wage engine of src/paymentCalculator/calculateWage.ts. Entries are
 * grouped by the month of their start, then by person, then by the day of
 * their start; each day gets regular pay, an evening premium and overtime
 * pay, each rounded half-up to cents, and each person's days are summed
 * into monthly figures.
 */
module Wages {
  import opened Text
  import opened Calendar
  import opened Times
  import opened Entries
  import opened Params
  import opened Money
  import opened Grouping

  /** Wage figures for a day or a month (the source prints each with `toFixed(2)`). */
  datatype WageInfo = WageInfo(regular: real, evening: real, overtime: real, total: real)

  datatype DailyWageInfo = DailyWageInfo(date: Date, wages: WageInfo)

  datatype WageInfoForPerson = WageInfoForPerson(
    id: string, name: string, monthlyWages: WageInfo, dailyWages: seq<DailyWageInfo>)

  /** One month of results; `month` is 0-based as `moment().month()` gives it. */
  datatype MonthWageInfo = MonthWageInfo(year: nat, month: nat, person: seq<WageInfoForPerson>)

  /** The key `start.format('YYYY-MM')`; `month` is 1-based as printed. */
  datatype MonthKey = MonthKey(year: nat, month: nat)

  function MonthOf(e: HourEntry): MonthKey {
    var d := DateOfInstant(e.start);
    MonthKey(d.year, d.month)
  }

  /** The key `start.format('YYYY-MM-DD')`. */
  function DayOfEntry(e: HourEntry): Date {
    DateOfInstant(e.start)
  }

  function PersonOf(e: HourEntry): nat {
    e.identifier
  }

  predicate IsWellFormed(w: WageInfo) {
    && IsCents(w.regular) && IsCents(w.evening) && IsCents(w.overtime) && IsCents(w.total)
    && w.total == w.regular + w.evening + w.overtime
  }

  // ---------------------------------------------------------------- one day

  /** `end.diff(start)` in minutes. */
  function EntryMinutes(e: HourEntry): int {
    e.end - e.start
  }

  /** The day's minutes: the plain sum over its entries, overlaps counted twice. */
  function TotalMinutes(es: seq<HourEntry>): (r: int)
    ensures (forall i :: 0 <= i < |es| ==> EntryMinutes(es[i]) >= 0) ==> r >= 0
  {
    if es == [] then 0 else TotalMinutes(es[..|es| - 1]) + EntryMinutes(es[|es| - 1])
  }

  lemma {:induction false} TotalMinutesAppend(a: seq<HourEntry>, b: seq<HourEntry>)
    ensures TotalMinutes(a + b) == TotalMinutes(a) + TotalMinutes(b)
    decreases |b|
  {
    if b == [] {
      assert a + b == a;
    } else {
      assert (a + b)[..|a + b| - 1] == a + b[..|b| - 1];
      TotalMinutesAppend(a, b[..|b| - 1]);
    }
  }

  /** Overlapping entries are not merged: the same shift twice counts twice. */
  lemma DuplicateEntryCountsTwice(e: HourEntry)
    ensures TotalMinutes([e, e]) == 2 * EntryMinutes(e)
  {
    assert [e][..0] == [];
    assert TotalMinutes([e]) == EntryMinutes(e);
    TotalMinutesAppend([e], [e]);
    assert [e] + [e] == [e, e];
  }

  /**
   * `getRegularWage`: hours worked times the hourly rate. For a minute count
   * divisible by 3 the hours have at most two decimals and the pay is exact;
   * otherwise it is within the rate times half a unit of the 20th decimal.
   */
  function RegularWage(minutes: int, p: CalculationParams): (r: real)
    ensures minutes >= 0 && p.regularDailyWage >= 0.0 ==> r >= 0.0
    ensures minutes % 3 == 0 ==> r == minutes as real / 60.0 * p.regularDailyWage
    ensures minutes >= 0 && p.regularDailyWage >= 0.0 ==>
      WithinDivisionError(r, minutes as real / 60.0 * p.regularDailyWage, p.regularDailyWage)
  {
    HoursTimesRate(minutes, p.regularDailyWage);
    Div60(minutes as real) * p.regularDailyWage
  }

  lemma HoursTimesRate(minutes: int, rate: real)
    ensures minutes >= 0 && rate >= 0.0 ==> Div60(minutes as real) * rate >= 0.0
    ensures minutes % 3 == 0 ==> Div60(minutes as real) * rate == minutes as real / 60.0 * rate
    ensures minutes >= 0 && rate >= 0.0 ==>
      WithinDivisionError(Div60(minutes as real) * rate, minutes as real / 60.0 * rate, rate)
  {
    var hours := Div60(minutes as real);
    ThirdsHaveDecimals(minutes);
    assert 0.5 / DivisionScale == 0.000000000000000000005;
    ScaledBound(hours, minutes as real / 60.0, 0.000000000000000000005, rate);
    if minutes >= 0 && rate >= 0.0 {
      assert hours >= 0.0;
      assert hours * rate >= 0.0;
    }
  }

  /** The start of the evening window on the day the first entry starts. */
  function EveningStart(first: HourEntry, p: CalculationParams): nat {
    OnDate(p.eveningWorkParameters.start, first.start)
  }

  /** The end of the window: on the same day, or the next one if that is earlier than its start. */
  function EveningEnd(first: HourEntry, p: CalculationParams): (r: nat)
    ensures r >= EveningStart(first, p) || OnDate(p.eveningWorkParameters.end, first.start) + MinutesPerDay < EveningStart(first, p)
    ensures r % MinutesPerDay == OnDate(p.eveningWorkParameters.end, first.start) % MinutesPerDay
    ensures OnDate(p.eveningWorkParameters.end, first.start) <= r <= OnDate(p.eveningWorkParameters.end, first.start) + MinutesPerDay
  {
    var start := EveningStart(first, p);
    var end := OnDate(p.eveningWorkParameters.end, first.start);
    if end < start then end + MinutesPerDay else end
  }

  /**
   * For in-range times the engine's instant comparison is `Time.isBefore`:
   * the window wraps midnight exactly when its end time is before its start
   * time, and it then lasts less than a day. Its length is the end's minute
   * of the day less the start's, counted around the clock.
   */
  lemma EveningWindowOfInRangeTimes(first: HourEntry, p: CalculationParams)
    requires var ev := p.eveningWorkParameters;
      ev.start.minutes < 60 && ev.end.minutes < 60 && ev.start.hours < 24 && ev.end.hours < 24
    ensures var ev := p.eveningWorkParameters;
      && (EveningEnd(first, p) != OnDate(ev.end, first.start) <==> IsBefore(ev.end, ev.start))
      && EveningStart(first, p) <= EveningEnd(first, p) < EveningStart(first, p) + MinutesPerDay
      && EveningEnd(first, p) - EveningStart(first, p) == (MinuteOfDay(ev.end) - MinuteOfDay(ev.start)) % MinutesPerDay
  {
    var ev := p.eveningWorkParameters;
    IsBeforeAgreesWithInstants(ev.end, ev.start);
  }

  function Max(a: int, b: int): int {
    if a < b then b else a
  }

  function Min(a: int, b: int): int {
    if a < b then a else b
  }

  /** Minutes of `e` inside the window `[windowStart, windowEnd]`, never negative. */
  function EveningOverlap(e: HourEntry, windowStart: int, windowEnd: int): (r: int)
    ensures 0 <= r <= Max(EntryMinutes(e), 0)
    ensures r <= Max(windowEnd - windowStart, 0)
    ensures windowStart <= e.start && e.end <= windowEnd ==> r == Max(EntryMinutes(e), 0)
    ensures e.end <= windowStart || windowEnd <= e.start ==> r == 0
    ensures e.start <= windowStart <= e.end <= windowEnd ==> r == e.end - windowStart
    ensures windowStart <= e.start <= windowEnd <= e.end ==> r == windowEnd - e.start
    ensures e.start <= windowStart <= windowEnd <= e.end ==> r == windowEnd - windowStart
  {
    Max(Min(e.end, windowEnd) - Max(e.start, windowStart), 0)
  }

  /** The day's evening minutes: the sum of each entry's overlap with the window. */
  function EveningMinutes(es: seq<HourEntry>, windowStart: int, windowEnd: int): (r: int)
    ensures 0 <= r
    ensures (forall i :: 0 <= i < |es| ==> EntryMinutes(es[i]) >= 0) ==> r <= TotalMinutes(es)
    ensures |es| == 1 ==> r == EveningOverlap(es[0], windowStart, windowEnd)
  {
    if es == [] then 0
    else EveningMinutes(es[..|es| - 1], windowStart, windowEnd)
         + EveningOverlap(es[|es| - 1], windowStart, windowEnd)
  }

  lemma {:induction false} EveningMinutesAppend(a: seq<HourEntry>, b: seq<HourEntry>, windowStart: int, windowEnd: int)
    ensures EveningMinutes(a + b, windowStart, windowEnd)
         == EveningMinutes(a, windowStart, windowEnd) + EveningMinutes(b, windowStart, windowEnd)
    decreases |b|
  {
    if b == [] {
      assert a + b == a;
    } else {
      assert (a + b)[..|a + b| - 1] == a + b[..|b| - 1];
      EveningMinutesAppend(a, b[..|b| - 1], windowStart, windowEnd);
    }
  }

  /** The evening minutes of a day, in the window anchored on its first entry. */
  function DayEveningMinutes(es: seq<HourEntry>, p: CalculationParams): int
    requires |es| > 0
  {
    EveningMinutes(es, EveningStart(es[0], p), EveningEnd(es[0], p))
  }

  /**
   * Evening hours times the rate times the evening extra: exact for minutes
   * divisible by 3, and otherwise within the division error of the exact pay.
   */
  function EveningPay(minutes: int, p: CalculationParams): (r: real)
    ensures minutes >= 0 && p.regularDailyWage >= 0.0 && p.eveningWorkParameters.extraWage >= 0.0 ==> r >= 0.0
    ensures minutes == 0 ==> r == 0.0
    ensures minutes % 3 == 0 ==> r == minutes as real / 60.0 * p.regularDailyWage * p.eveningWorkParameters.extraWage
    ensures minutes >= 0 && p.regularDailyWage >= 0.0 && p.eveningWorkParameters.extraWage >= 0.0 ==>
      WithinDivisionError(r, minutes as real / 60.0 * p.regularDailyWage * p.eveningWorkParameters.extraWage,
                          p.regularDailyWage * p.eveningWorkParameters.extraWage)
  {
    EveningPayBounds(minutes, p);
    Div60(minutes as real) * p.regularDailyWage * p.eveningWorkParameters.extraWage
  }

  lemma EveningPayBounds(minutes: int, p: CalculationParams)
    ensures minutes >= 0 && p.regularDailyWage >= 0.0 && p.eveningWorkParameters.extraWage >= 0.0 ==>
      Div60(minutes as real) * p.regularDailyWage * p.eveningWorkParameters.extraWage >= 0.0
    ensures minutes == 0 ==> Div60(minutes as real) * p.regularDailyWage * p.eveningWorkParameters.extraWage == 0.0
    ensures minutes % 3 == 0 ==>
      Div60(minutes as real) * p.regularDailyWage * p.eveningWorkParameters.extraWage
      == minutes as real / 60.0 * p.regularDailyWage * p.eveningWorkParameters.extraWage
    ensures minutes >= 0 && p.regularDailyWage >= 0.0 && p.eveningWorkParameters.extraWage >= 0.0 ==>
      WithinDivisionError(Div60(minutes as real) * p.regularDailyWage * p.eveningWorkParameters.extraWage,
                          minutes as real / 60.0 * p.regularDailyWage * p.eveningWorkParameters.extraWage,
                          p.regularDailyWage * p.eveningWorkParameters.extraWage)
  {
    ThirdsPayExact(minutes, p.regularDailyWage, p.eveningWorkParameters.extraWage);
    PayWithinDivisionError(minutes as real, p.regularDailyWage, p.eveningWorkParameters.extraWage);
    if minutes == 0 {
      assert Div60(0.0) == 0.0;
    }
  }

  /**
   * `getEveningHoursWage`: the day's evening hours times the rate times the
   * evening extra, exact when the evening minutes are divisible by 3 and
   * otherwise within the division error.
   */
  function EveningWage(es: seq<HourEntry>, p: CalculationParams): (r: real)
    requires |es| > 0
    ensures p.regularDailyWage >= 0.0 && p.eveningWorkParameters.extraWage >= 0.0 ==> r >= 0.0
    ensures DayEveningMinutes(es, p) == 0 ==> r == 0.0
    ensures DayEveningMinutes(es, p) % 3 == 0 ==>
      r == DayEveningMinutes(es, p) as real / 60.0 * p.regularDailyWage * p.eveningWorkParameters.extraWage
    ensures var rate := p.regularDailyWage; var extra := p.eveningWorkParameters.extraWage;
      rate >= 0.0 && extra >= 0.0 ==>
      WithinDivisionError(r, DayEveningMinutes(es, p) as real / 60.0 * rate * extra, rate * extra)
  {
    EveningPay(DayEveningMinutes(es, p), p)
  }

  /** Minutes of the day that fall in one overtime tier (`Math.min(Math.max(...))`). */
  function TierMinutes(total: int, t: OvertimeTier): (r: real)
    ensures StartsBeforeEnd(t) ==> 0.0 <= r
    ensures t.end.Finite? && StartsBeforeEnd(t) ==> r <= (t.end.hours - t.start) * 60.0
    ensures StartsBeforeEnd(t) && total as real <= t.start * 60.0 ==> r == 0.0
    ensures t.end.Finite? && t.start * 60.0 <= total as real <= t.end.hours * 60.0 ==> r == total as real - t.start * 60.0
    ensures t.end.Finite? && StartsBeforeEnd(t) && total as real >= t.end.hours * 60.0 ==> r == (t.end.hours - t.start) * 60.0
    ensures t.end.Infinity? ==> r == if total as real <= t.start * 60.0 then 0.0 else total as real - t.start * 60.0
  {
    var above := total as real - t.start * 60.0;
    var clamped := if above < 0.0 then 0.0 else above;
    match t.end
    case Infinity => clamped
    case Finite(end) =>
      var maxMinutes := (end - t.start) * 60.0;
      if clamped < maxMinutes then clamped else maxMinutes
  }

  /** The pay one tier adds on its own. */
  function OneTierPay(total: int, t: OvertimeTier, rate: real): (r: real)
    ensures StartsBeforeEnd(t) && rate >= 0.0 && t.multiplier >= 0.0 ==> r >= 0.0
    ensures StartsBeforeEnd(t) && total as real <= t.start * 60.0 ==> r == 0.0
    ensures StartsBeforeEnd(t) && rate >= 0.0 && t.multiplier >= 0.0 ==>
      WithinDivisionError(r, TierMinutes(total, t) / 60.0 * rate * t.multiplier, rate * t.multiplier)
  {
    OneTierPayBounds(total, t, rate);
    Div60(TierMinutes(total, t)) * rate * t.multiplier
  }

  lemma OneTierPayBounds(total: int, t: OvertimeTier, rate: real)
    ensures StartsBeforeEnd(t) && rate >= 0.0 && t.multiplier >= 0.0 ==>
      Div60(TierMinutes(total, t)) * rate * t.multiplier >= 0.0
    ensures StartsBeforeEnd(t) && rate >= 0.0 && t.multiplier >= 0.0 ==>
      WithinDivisionError(Div60(TierMinutes(total, t)) * rate * t.multiplier,
                          TierMinutes(total, t) / 60.0 * rate * t.multiplier, rate * t.multiplier)
  {
    var minutes := TierMinutes(total, t);
    PayWithinDivisionError(minutes, rate, t.multiplier);
    assert StartsBeforeEnd(t) ==> minutes >= 0.0;
  }

  /** The tiers' pay with exact division: each tier's minutes / 60 times the rate and its multiplier. */
  function ExactTierPay(total: int, tiers: seq<OvertimeTier>, rate: real): real {
    if tiers == [] then 0.0
    else
      var t := tiers[|tiers| - 1];
      ExactTierPay(total, tiers[..|tiers| - 1], rate) + TierMinutes(total, t) / 60.0 * rate * t.multiplier
  }

  /** The summed factors by which the tiers scale their hours. */
  function TierFactor(tiers: seq<OvertimeTier>, rate: real): real {
    if tiers == [] then 0.0 else TierFactor(tiers[..|tiers| - 1], rate) + rate * tiers[|tiers| - 1].multiplier
  }

  predicate ProperTiers(tiers: seq<OvertimeTier>) {
    forall i :: 0 <= i < |tiers| ==> StartsBeforeEnd(tiers[i]) && tiers[i].multiplier >= 0.0
  }

  /** The summed pay of the tiers, each tier applied independently to the day's minutes. */
  function TierPay(total: int, tiers: seq<OvertimeTier>, rate: real): (r: real)
    ensures rate >= 0.0 && (forall i :: 0 <= i < |tiers| ==> StartsBeforeEnd(tiers[i]) && tiers[i].multiplier >= 0.0)
            ==> r >= 0.0
    ensures (forall i :: 0 <= i < |tiers| ==> StartsBeforeEnd(tiers[i]) && total as real <= tiers[i].start * 60.0)
            ==> r == 0.0
    ensures |tiers| == 1 ==> r == OneTierPay(total, tiers[0], rate)
  {
    if tiers == [] then 0.0
    else
      assert tiers[..|tiers| - 1] == [] ==> TierPay(total, tiers[..|tiers| - 1], rate) == 0.0;
      TierPay(total, tiers[..|tiers| - 1], rate) + OneTierPay(total, tiers[|tiers| - 1], rate)
  }

  /** The rounded tier pay stays within the summed factors' division error of the exact tier pay. */
  lemma {:induction false} TierPayWithinDivisionError(total: int, tiers: seq<OvertimeTier>, rate: real)
    requires rate >= 0.0 && ProperTiers(tiers)
    ensures WithinDivisionError(TierPay(total, tiers, rate), ExactTierPay(total, tiers, rate), TierFactor(tiers, rate))
    decreases |tiers|
  {
    if tiers != [] {
      var init := tiers[..|tiers| - 1];
      var t := tiers[|tiers| - 1];
      TierStep(total, tiers, rate);
      assert ProperTiers(init);
      TierPayWithinDivisionError(total, init, rate);
      WithinSum(TierPay(total, init, rate), ExactTierPay(total, init, rate), TierFactor(init, rate),
                OneTierPay(total, t, rate), TierMinutes(total, t) / 60.0 * rate * t.multiplier, rate * t.multiplier);
    }
  }

  lemma TierStep(total: int, tiers: seq<OvertimeTier>, rate: real)
    requires tiers != []
    ensures var init := tiers[..|tiers| - 1]; var t := tiers[|tiers| - 1];
      && TierPay(total, tiers, rate) == TierPay(total, init, rate) + OneTierPay(total, t, rate)
      && ExactTierPay(total, tiers, rate) == ExactTierPay(total, init, rate) + TierMinutes(total, t) / 60.0 * rate * t.multiplier
      && TierFactor(tiers, rate) == TierFactor(init, rate) + rate * t.multiplier
  {
  }

  /** Tiers are independent: the pay of a tier list is the sum over its parts. */
  lemma {:induction false} TierPayAppend(total: int, a: seq<OvertimeTier>, b: seq<OvertimeTier>, rate: real)
    ensures TierPay(total, a + b, rate) == TierPay(total, a, rate) + TierPay(total, b, rate)
    decreases |b|
  {
    if b == [] {
      assert a + b == a;
    } else {
      assert (a + b)[..|a + b| - 1] == a + b[..|b| - 1];
      TierPayAppend(total, a, b[..|b| - 1], rate);
    }
  }

  /** `getOvertimeWage`. */
  function OvertimeWage(total: int, p: CalculationParams): (r: real)
    ensures var tiers := p.overtimeParameters;
      p.regularDailyWage >= 0.0 && (forall i :: 0 <= i < |tiers| ==> StartsBeforeEnd(tiers[i]) && tiers[i].multiplier >= 0.0)
      ==> r >= 0.0
    ensures var tiers := p.overtimeParameters;
      (forall i :: 0 <= i < |tiers| ==> StartsBeforeEnd(tiers[i]) && total as real <= tiers[i].start * 60.0)
      ==> r == 0.0
    ensures var tiers := p.overtimeParameters; var rate := p.regularDailyWage;
      rate >= 0.0 && ProperTiers(tiers) ==>
      WithinDivisionError(r, ExactTierPay(total, tiers, rate), TierFactor(tiers, rate))
  {
    if p.regularDailyWage >= 0.0 && ProperTiers(p.overtimeParameters) then
      TierPayWithinDivisionError(total, p.overtimeParameters, p.regularDailyWage);
      TierPay(total, p.overtimeParameters, p.regularDailyWage)
    else
      TierPay(total, p.overtimeParameters, p.regularDailyWage)
  }

  /** `calculateForDay`: each component rounded to cents, the total their plain sum. */
  function CalculateForDay(es: seq<HourEntry>, p: CalculationParams): (w: WageInfo)
    requires |es| > 0
    ensures IsWellFormed(w)
    ensures w.regular == Round2(RegularWage(TotalMinutes(es), p))
    ensures w.evening == Round2(EveningWage(es, p))
    ensures w.overtime == Round2(OvertimeWage(TotalMinutes(es), p))
  {
    var minutes := TotalMinutes(es);
    var regular := Round2(RegularWage(minutes, p));
    var evening := Round2(EveningWage(es, p));
    var overtime := Round2(OvertimeWage(minutes, p));
    CentsSum(regular, evening);
    CentsSum(regular + evening, overtime);
    WageInfo(regular, evening, overtime, regular + evening + overtime)
  }

  /**
   * With the default tariff, a day of at least 12 hours earns 2 hours at
   * 0.25, 2 hours at 0.5 and the rest at 1 times the regular rate.
   */
  lemma DefaultOvertime(total: int)
    requires total >= 720
    ensures OvertimeWage(total, DefaultParams) == 3.75 * 0.25 * 2.0 + 3.75 * 0.5 * 2.0 + Div60((total - 720) as real) * 3.75
  {
    var tiers := DefaultParams.overtimeParameters;
    assert TierMinutes(total, tiers[0]) == 120.0;
    assert TierMinutes(total, tiers[1]) == 120.0;
    assert TierMinutes(total, tiers[2]) == (total - 720) as real;
    Div60WholeHours(2);
    assert Div60(120.0) == 2.0;
    assert tiers[..2][..1] == tiers[..1];
    assert tiers[..1][..0] == [];
    assert TierPay(total, tiers[..1], 3.75) == 2.0 * 3.75 * 0.25;
    assert TierPay(total, tiers[..2], 3.75) == 2.0 * 3.75 * 0.25 + 2.0 * 3.75 * 0.5;
  }

  /** For 12 + h whole hours the default overtime is 3.75 * (0.5 + 1 + h), rounded to cents. */
  lemma DefaultOvertimeWholeHours(h: nat)
    ensures OvertimeWage(720 + 60 * h, DefaultParams) == 3.75 * (0.5 + 1.0 + h as real)
  {
    DefaultOvertime(720 + 60 * h);
    Div60WholeHours(h);
  }

  /**
   * With the default tariff, a day of 8 to 12 hours earns 0.25 times the
   * rate for each hour past 8 up to 10, and 0.5 times the rate for each
   * hour past 10: exactly when the minutes are divisible by 3, and within
   * the division error of the three tiers otherwise.
   */
  lemma DefaultOvertimeUpToTwelve(total: int)
    requires 480 <= total <= 720
    ensures total % 3 == 0 ==>
      OvertimeWage(total, DefaultParams)
         == (Min(total, 600) - 480) as real / 60.0 * 3.75 * 0.25
          + (Max(total, 600) - 600) as real / 60.0 * 3.75 * 0.5
    ensures WithinDivisionError(OvertimeWage(total, DefaultParams),
              (Min(total, 600) - 480) as real / 60.0 * 3.75 * 0.25
              + (Max(total, 600) - 600) as real / 60.0 * 3.75 * 0.5,
              3.75 * 0.25 + 3.75 * 0.5 + 3.75 * 1.0)
  {
    var tiers := DefaultParams.overtimeParameters;
    DefaultTierMinutes(total);
    if total % 3 == 0 {
      DefaultOvertimeThirds(total);
    }
    assert ProperTiers(tiers);
    assert tiers[..3] == tiers && tiers[..2][..1] == tiers[..1] && tiers[..1][..0] == [];
    TierStep(total, tiers, 3.75);
    TierStep(total, tiers[..2], 3.75);
    TierStep(total, tiers[..1], 3.75);
  }

  lemma DefaultTierMinutes(total: int)
    requires 480 <= total <= 720
    ensures var tiers := DefaultParams.overtimeParameters;
      && TierMinutes(total, tiers[0]) == (Min(total, 600) - 480) as real
      && TierMinutes(total, tiers[1]) == (Max(total, 600) - 600) as real
      && TierMinutes(total, tiers[2]) == 0.0
  {
  }

  lemma DefaultOvertimeThirds(total: int)
    requires 480 <= total <= 720 && total % 3 == 0
    ensures OvertimeWage(total, DefaultParams)
         == (Min(total, 600) - 480) as real / 60.0 * 3.75 * 0.25
          + (Max(total, 600) - 600) as real / 60.0 * 3.75 * 0.5
  {
    var tiers := DefaultParams.overtimeParameters;
    assert OvertimeWage(total, DefaultParams) == TierPay(total, tiers, 3.75);
    DefaultTierMinutes(total);
    assert tiers == [tiers[0], tiers[1], tiers[2]];
    ThreeTierPayOfMinutes(total, tiers[0], tiers[1], tiers[2], 3.75, Min(total, 600) - 480, Max(total, 600) - 600, 0);
  }

  /** Three tiers holding minute counts divisible by 3 pay exactly their hours times the rate and multipliers. */
  lemma ThreeTierPayOfMinutes(total: int, t0: OvertimeTier, t1: OvertimeTier, t2: OvertimeTier, rate: real, a: int, b: int, c: int)
    requires a % 3 == 0 && b % 3 == 0 && c % 3 == 0
    requires TierMinutes(total, t0) == a as real && TierMinutes(total, t1) == b as real && TierMinutes(total, t2) == c as real
    ensures TierPay(total, [t0, t1, t2], rate)
         == a as real / 60.0 * rate * t0.multiplier
          + b as real / 60.0 * rate * t1.multiplier
          + c as real / 60.0 * rate * t2.multiplier
  {
    ThreeTierPay(total, [t0, t1, t2], rate);
    TierPayOfMinutes(total, t0, rate, a);
    TierPayOfMinutes(total, t1, rate, b);
    TierPayOfMinutes(total, t2, rate, c);
  }

  lemma ThreeTierPay(total: int, tiers: seq<OvertimeTier>, rate: real)
    requires |tiers| == 3
    ensures TierPay(total, tiers, rate)
         == OneTierPay(total, tiers[0], rate) + OneTierPay(total, tiers[1], rate) + OneTierPay(total, tiers[2], rate)
  {
    assert tiers[..2][..1] == tiers[..1] && tiers[..1][..0] == [];
    TierStep(total, tiers, rate);
    TierStep(total, tiers[..2], rate);
    TierStep(total, tiers[..1], rate);
  }

  /** A tier holding a minute count divisible by 3 pays exactly those hours times the rate and multiplier. */
  lemma TierPayOfMinutes(total: int, t: OvertimeTier, rate: real, m: int)
    requires TierMinutes(total, t) == m as real && m % 3 == 0
    ensures OneTierPay(total, t, rate) == m as real / 60.0 * rate * t.multiplier
  {
    ThirdsHaveDecimals(m);
  }

  /**
   * Two tiers, 4-8 hours at 1 and 8 hours on at 2, at rate 1: a 4-hour day
   * earns no overtime, a 5-hour day 1 and a 10-hour day 4 + 4.
   */
  lemma TwoTierOvertime()
    ensures var p := CalculationParams(
              1.0, EveningParams(1.0, Time(16, 0), Time(8, 0)),
              [OvertimeTier(1.0, 4.0, Finite(8.0)), OvertimeTier(2.0, 8.0, Infinity)]);
      OvertimeWage(240, p) == 0.0 && OvertimeWage(300, p) == 1.0 && OvertimeWage(600, p) == 8.0
  {
    var tiers := [OvertimeTier(1.0, 4.0, Finite(8.0)), OvertimeTier(2.0, 8.0, Infinity)];
    assert tiers == [tiers[0]] + [tiers[1]];
    TierPayAppend(300, [tiers[0]], [tiers[1]], 1.0);
    TierPayAppend(600, [tiers[0]], [tiers[1]], 1.0);
    TierPayOfMinutes(300, tiers[0], 1.0, 60);
    TierPayOfMinutes(300, tiers[1], 1.0, 0);
    TierPayOfMinutes(600, tiers[0], 1.0, 240);
    TierPayOfMinutes(600, tiers[1], 1.0, 120);
  }

  lemma DayOfTimeOfDay(d: nat, m: nat)
    requires m < MinutesPerDay
    ensures DayOf(d * MinutesPerDay + m) == d
  {
  }

  /**
   * Under a 16:00-23:00 window, a shift from 22:30 to 02:00 the next day
   * earns half an hour of evening premium.
   */
  lemma EveningShiftAcrossWindowEnd(d: nat)
    ensures var p := CalculationParams(1.0, EveningParams(1.0, Time(16, 0), Time(23, 0)), []);
      CalculateForDay([HourEntry("foo", 1, d * MinutesPerDay + 1350, (d + 1) * MinutesPerDay + 120)], p).evening == 0.5
  {
    var p := CalculationParams(1.0, EveningParams(1.0, Time(16, 0), Time(23, 0)), []);
    var e := HourEntry("foo", 1, d * MinutesPerDay + 1350, (d + 1) * MinutesPerDay + 120);
    DayOfTimeOfDay(d, 1350);
    assert EveningStart(e, p) == d * MinutesPerDay + 960;
    assert EveningEnd(e, p) == d * MinutesPerDay + 1380;
    assert DayEveningMinutes([e], p) == 30;
    ThirdsHaveDecimals(30);
    assert EveningWage([e], p) == 0.5;
    RoundHalfUpKeepsDecimals(0.5, Cents);
  }

  /**
   * Under a 16:00-08:00 window, a shift from 23:00 to 02:00 the next day
   * lies wholly in the evening and earns three hours of premium.
   */
  lemma EveningShiftPastMidnight(d: nat)
    ensures var p := CalculationParams(1.0, EveningParams(1.0, Time(16, 0), Time(8, 0)), []);
      CalculateForDay([HourEntry("foo", 1, d * MinutesPerDay + 1380, (d + 1) * MinutesPerDay + 120)], p).evening == 3.0
  {
    var p := CalculationParams(1.0, EveningParams(1.0, Time(16, 0), Time(8, 0)), []);
    var e := HourEntry("foo", 1, d * MinutesPerDay + 1380, (d + 1) * MinutesPerDay + 120);
    DayOfTimeOfDay(d, 1380);
    assert EveningStart(e, p) == d * MinutesPerDay + 960;
    assert EveningEnd(e, p) == (d + 1) * MinutesPerDay + 480;
    assert DayEveningMinutes([e], p) == 180;
    ThirdsHaveDecimals(180);
    assert EveningWage([e], p) == 3.0;
    RoundHalfUpKeepsDecimals(3.0, Cents);
  }

  /** Entries that all end by the window's start get no evening minutes. */
  lemma {:induction false} NoEveningBeforeWindow(es: seq<HourEntry>, windowStart: int, windowEnd: int)
    requires forall i :: 0 <= i < |es| ==> es[i].end <= windowStart
    ensures EveningMinutes(es, windowStart, windowEnd) == 0
    decreases |es|
  {
    if es != [] {
      NoEveningBeforeWindow(es[..|es| - 1], windowStart, windowEnd);
    }
  }

  /**
   * The window is anchored on the first entry's day only: a day whose
   * entries end before that day's window start earns no evening premium,
   * even where they lie before the window's end time (06:00-08:00 under
   * the 16:00-08:00 window).
   */
  lemma MorningEarnsNoEvening(es: seq<HourEntry>, p: CalculationParams)
    requires |es| > 0
    requires forall i :: 0 <= i < |es| ==> es[i].end <= EveningStart(es[0], p)
    ensures CalculateForDay(es, p).evening == 0.0
  {
    NoEveningBeforeWindow(es, EveningStart(es[0], p), EveningEnd(es[0], p));
  }

  // ------------------------------------------------------------ one person

  function AddWages(a: WageInfo, b: WageInfo): WageInfo {
    WageInfo(a.regular + b.regular, a.evening + b.evening, a.overtime + b.overtime, a.total + b.total)
  }

  /** `getTotalMonthlyWage`: the component-wise sum of the daily figures. */
  function SumWages(days: seq<DailyWageInfo>): (r: WageInfo)
    ensures (forall i :: 0 <= i < |days| ==>
               days[i].wages.total == days[i].wages.regular + days[i].wages.evening + days[i].wages.overtime)
            ==> r.total == r.regular + r.evening + r.overtime
    ensures |days| == 0 ==> r == WageInfo(0.0, 0.0, 0.0, 0.0)
    ensures |days| == 1 ==> r == days[0].wages
  {
    if days == [] then WageInfo(0.0, 0.0, 0.0, 0.0)
    else AddWages(SumWages(days[..|days| - 1]), days[|days| - 1].wages)
  }

  /** The monthly sum adds over concatenated day lists, component by component. */
  lemma {:induction false} SumWagesAppend(a: seq<DailyWageInfo>, b: seq<DailyWageInfo>)
    ensures SumWages(a + b) == AddWages(SumWages(a), SumWages(b))
    decreases |b|
  {
    if b == [] {
      assert a + b == a;
    } else {
      assert (a + b)[..|a + b| - 1] == a + b[..|b| - 1];
      SumWagesAppend(a, b[..|b| - 1]);
    }
  }

  /**
   * Monthly figures are sums of whole cents, so `toFixed(2)` prints them
   * exactly, and the monthly total is the sum of the monthly components.
   */
  lemma {:induction false} SumWagesWellFormed(days: seq<DailyWageInfo>)
    requires forall i :: 0 <= i < |days| ==> IsWellFormed(days[i].wages)
    ensures IsWellFormed(SumWages(days))
  {
    if days != [] {
      SumWagesWellFormed(days[..|days| - 1]);
      var acc := SumWages(days[..|days| - 1]);
      var d := days[|days| - 1].wages;
      CentsSum(acc.regular, d.regular);
      CentsSum(acc.evening, d.evening);
      CentsSum(acc.overtime, d.overtime);
      CentsSum(acc.total, d.total);
    }
  }

  /** The day keys of a person's entries, in first-occurrence order. */
  function DaysOf(es: seq<HourEntry>): seq<Date> {
    Dedup(KeysOf(es, DayOfEntry))
  }

  /** `calculateForPerson`: one record per day on which an entry starts. */
  function CalculateForPerson(es: seq<HourEntry>, p: CalculationParams): (days: seq<DailyWageInfo>)
    ensures |days| == |DaysOf(es)|
    ensures forall k :: 0 <= k < |days| ==>
              days[k].date == DaysOf(es)[k] && |Select(es, DayOfEntry, days[k].date)| > 0
    ensures forall k :: 0 <= k < |days| ==>
              days[k].wages == CalculateForDay(Select(es, DayOfEntry, days[k].date), p)
  {
    var gs := GroupBy(es, DayOfEntry);
    GroupByPartitions(es, DayOfEntry);
    seq(|gs|, k requires 0 <= k < |gs| => DailyWageInfo(gs[k].key, CalculateForDay(gs[k].members, p)))
  }

  /** The members of the group with key `k`. */
  function MembersOf<K(==)>(gs: seq<Group<K, HourEntry>>, k: K): (ms: seq<HourEntry>)
    requires k in Keys(gs)
    ensures exists i :: 0 <= i < |gs| && gs[i].key == k && ms == gs[i].members
  {
    if gs[0].key == k then gs[0].members
    else
      assert Keys(gs) == [gs[0].key] + Keys(gs[1..]);
      MembersOf(gs[1..], k)
  }

  /** The person ids of a month in the order `_.values` gives them. */
  function PersonIds(es: seq<HourEntry>): seq<nat> {
    EnumerationOrder(Dedup(KeysOf(es, PersonOf)))
  }

  /** One person's record of a month, from that person's entries. */
  function PersonRecord(mine: seq<HourEntry>, id: nat, p: CalculationParams): WageInfoForPerson
    requires |mine| > 0
  {
    var days := CalculateForPerson(mine, p);
    WageInfoForPerson(Decimal(id), mine[0].name, SumWages(days), days)
  }

  /** `calculateForMonth`: one record per person, from that person's entries. */
  function CalculateForMonth(es: seq<HourEntry>, p: CalculationParams): (persons: seq<WageInfoForPerson>)
    ensures |persons| == |PersonIds(es)|
    ensures forall j :: 0 <= j < |persons| ==> |Select(es, PersonOf, PersonIds(es)[j])| > 0
    ensures forall j :: 0 <= j < |persons| ==>
              persons[j] == PersonRecord(Select(es, PersonOf, PersonIds(es)[j]), PersonIds(es)[j], p)
  {
    var gs := GroupBy(es, PersonOf);
    GroupByPartitions(es, PersonOf);
    var ids := EnumerationOrder(Keys(gs));
    seq(|ids|, j requires 0 <= j < |ids| =>
      var mine := MembersOf(gs, ids[j]);
      PersonRecord(mine, ids[j], p))
  }

  /** The month keys of the entries, in first-occurrence order. */
  function MonthsOf(es: seq<HourEntry>): seq<MonthKey> {
    Dedup(KeysOf(es, MonthOf))
  }

  /** A month's record; its year and month are read off its first entry's start. */
  function MonthRecord(key: MonthKey, ms: seq<HourEntry>, p: CalculationParams): (r: MonthWageInfo)
    requires |ms| > 0 && MonthOf(ms[0]) == key
    ensures r.year == key.year && r.month + 1 == key.month
  {
    var first := DateOfInstant(ms[0].start);
    MonthWageInfo(first.year, first.month - 1, CalculateForMonth(ms, p))
  }

  /** `calculateWage`: one record per month in which an entry starts. */
  function CalculateWage(es: seq<HourEntry>, p: CalculationParams): (months: seq<MonthWageInfo>)
    ensures |months| == |MonthsOf(es)|
    ensures forall i :: 0 <= i < |months| ==>
              && months[i].year == MonthsOf(es)[i].year
              && months[i].month + 1 == MonthsOf(es)[i].month
              && months[i].person == CalculateForMonth(Select(es, MonthOf, MonthsOf(es)[i]), p)
  {
    var gs := GroupBy(es, MonthOf);
    GroupByPartitions(es, MonthOf);
    seq(|gs|, i requires 0 <= i < |gs| =>
      assert gs[i].members[0] in gs[i].members;
      MonthRecord(gs[i].key, gs[i].members, p))
  }

  // ------------------------------------------------------------ the report

  /** An entry's month and person. */
  function MonthPersonOf(e: HourEntry): (MonthKey, nat) {
    (MonthOf(e), e.identifier)
  }

  /** An entry's month, person and day: the cell of the report that counts it. */
  function CellOf(e: HourEntry): ((MonthKey, nat), Date) {
    (MonthPersonOf(e), DayOfEntry(e))
  }

  /** The month of a month record, as the key `YYYY-MM` names it. */
  function KeyOfRecord(m: MonthWageInfo): MonthKey {
    MonthKey(m.year, m.month + 1)
  }

  predicate IsCell(r: seq<MonthWageInfo>, i: nat, j: nat, k: nat) {
    i < |r| && j < |r[i].person| && k < |r[i].person[j].dailyWages| && IsDigits(r[i].person[j].id)
  }

  /** The input entries with the month, person and day of a cell of the report. */
  function CellEntries(es: seq<HourEntry>, r: seq<MonthWageInfo>, i: nat, j: nat, k: nat): seq<HourEntry>
    requires IsCell(r, i, j, k)
  {
    Select(es, CellOf, CellKey(r, i, j, k))
  }

  /** A person's record of a month is computed from exactly that person's entries of that month. */
  lemma PersonRecordOf(es: seq<HourEntry>, p: CalculationParams, i: nat, j: nat)
    requires i < |CalculateWage(es, p)| && j < |CalculateWage(es, p)[i].person|
    ensures var r := CalculateWage(es, p);
      var person := r[i].person[j];
      var mine := Select(es, MonthPersonOf, (KeyOfRecord(r[i]), Value(person.id)));
      && IsDigits(person.id)
      && |mine| > 0
      && person == PersonRecord(mine, Value(person.id), p)
  {
    var r := CalculateWage(es, p);
    var mk := MonthsOf(es)[i];
    assert KeyOfRecord(r[i]) == mk;
    var ms := Select(es, MonthOf, mk);
    var persons := CalculateForMonth(ms, p);
    assert r[i].person == persons;
    var id := PersonIds(ms)[j];
    var mine := Select(ms, PersonOf, id);
    assert |mine| > 0;
    assert persons[j] == PersonRecord(mine, id, p);
    assert persons[j].id == Decimal(id);
    SelectBoth(es, MonthOf, mk, PersonOf, id, MonthPersonOf);
  }

  /**
   * Each day cell of the report is `calculateForDay` of the entries with
   * that month, person and day, in input order; there is at least one, and
   * the day lies in the cell's month.
   */
  lemma DayCell(es: seq<HourEntry>, p: CalculationParams, i: nat, j: nat, k: nat)
    requires IsCell(CalculateWage(es, p), i, j, k)
    ensures var r := CalculateWage(es, p);
      var day := r[i].person[j].dailyWages[k];
      && |CellEntries(es, r, i, j, k)| > 0
      && day.wages == CalculateForDay(CellEntries(es, r, i, j, k), p)
      && day.date.year == r[i].year && day.date.month == r[i].month + 1
  {
    var r := CalculateWage(es, p);
    PersonRecordOf(es, p, i, j);
    var person := r[i].person[j];
    var key := (KeyOfRecord(r[i]), Value(person.id));
    var mine := Select(es, MonthPersonOf, key);
    var date := person.dailyWages[k].date;
    var cell := Select(mine, DayOfEntry, date);
    assert person.dailyWages[k].wages == CalculateForDay(cell, p);
    SelectBoth(es, MonthPersonOf, key, DayOfEntry, date, CellOf);
    assert cell[0] in cell;
  }

  /** Every entry is counted in some day cell of the report. */
  lemma EntryCounted(es: seq<HourEntry>, p: CalculationParams, n: nat)
    requires n < |es|
    ensures var r := CalculateWage(es, p);
      exists i, j, k :: IsCell(r, i, j, k) && es[n] in CellEntries(es, r, i, j, k)
  {
    var r := CalculateWage(es, p);
    var e := es[n];
    var i, j, k := CellIndices(es, p, n);
    PersonRecordOf(es, p, i, j);
    var person := r[i].person[j];
    assert CellOf(e) == ((KeyOfRecord(r[i]), Value(person.id)), person.dailyWages[k].date);
    assert e in CellEntries(es, r, i, j, k);
  }

  /** Where the report puts an entry: the month, person and day indices of its keys. */
  lemma CellIndices(es: seq<HourEntry>, p: CalculationParams, n: nat) returns (i: nat, j: nat, k: nat)
    requires n < |es|
    ensures var r := CalculateWage(es, p);
      && i < |r| && j < |r[i].person| && k < |r[i].person[j].dailyWages|
      && KeyOfRecord(r[i]) == MonthOf(es[n])
      && r[i].person[j].id == Decimal(es[n].identifier)
      && r[i].person[j].dailyWages[k].date == DayOfEntry(es[n])
  {
    var r := CalculateWage(es, p);
    var e := es[n];
    i := KeyIndex(es, MonthOf, e);
    var ms := Select(es, MonthOf, MonthOf(e));
    assert e in ms;
    var j0 := KeyIndex(ms, PersonOf, e);
    var ids := Dedup(KeysOf(ms, PersonOf));
    assert ids[j0] in ids;
    assert e.identifier in EnumerationOrder(ids);
    j :| 0 <= j < |PersonIds(ms)| && PersonIds(ms)[j] == e.identifier;
    var persons := CalculateForMonth(ms, p);
    assert r[i].person == persons;
    var mine := Select(ms, PersonOf, e.identifier);
    assert persons[j] == PersonRecord(mine, e.identifier, p);
    assert e in mine;
    k := KeyIndex(mine, DayOfEntry, e);
    assert persons[j].dailyWages == CalculateForPerson(mine, p);
  }

  /** No entry is counted in two cells: months, a month's persons and a person's days never repeat. */
  lemma CellsDisjoint(es: seq<HourEntry>, p: CalculationParams, i: nat, j: nat, k: nat, i': nat, j': nat, k': nat)
    requires var r := CalculateWage(es, p); IsCell(r, i, j, k) && IsCell(r, i', j', k')
    requires (i, j, k) != (i', j', k')
    ensures var r := CalculateWage(es, p);
      forall e :: !(e in CellEntries(es, r, i, j, k) && e in CellEntries(es, r, i', j', k'))
  {
    var r := CalculateWage(es, p);
    CellKeysDiffer(es, p, i, j, k, i', j', k');
    SelectDisjoint(es, CellOf, CellKey(r, i, j, k), CellKey(r, i', j', k'));
  }

  /** The month, person and day that a cell of the report stands for. */
  function CellKey(r: seq<MonthWageInfo>, i: nat, j: nat, k: nat): ((MonthKey, nat), Date)
    requires IsCell(r, i, j, k)
  {
    var person := r[i].person[j];
    ((KeyOfRecord(r[i]), Value(person.id)), person.dailyWages[k].date)
  }

  lemma CellKeysDiffer(es: seq<HourEntry>, p: CalculationParams, i: nat, j: nat, k: nat, i': nat, j': nat, k': nat)
    requires var r := CalculateWage(es, p); IsCell(r, i, j, k) && IsCell(r, i', j', k')
    requires (i, j, k) != (i', j', k')
    ensures var r := CalculateWage(es, p); CellKey(r, i, j, k) != CellKey(r, i', j', k')
  {
    if i != i' {
      MonthsDiffer(es, p, i, i');
    } else if j != j' {
      PersonsDiffer(es, p, i, j, j');
    } else {
      DaysDiffer(es, p, i, j, k, k');
    }
  }

  lemma MonthsDiffer(es: seq<HourEntry>, p: CalculationParams, i: nat, i': nat)
    requires i < |CalculateWage(es, p)| && i' < |CalculateWage(es, p)| && i != i'
    ensures KeyOfRecord(CalculateWage(es, p)[i]) != KeyOfRecord(CalculateWage(es, p)[i'])
  {
    var r := CalculateWage(es, p);
    var ks := MonthsOf(es);
    assert r[i].year == ks[i].year && r[i].month + 1 == ks[i].month;
    assert r[i'].year == ks[i'].year && r[i'].month + 1 == ks[i'].month;
    assert Distinct(ks);
    if i < i' {
      assert ks[i] != ks[i'];
    } else {
      assert ks[i'] != ks[i];
    }
  }

  lemma PersonsDiffer(es: seq<HourEntry>, p: CalculationParams, i: nat, j: nat, j': nat)
    requires i < |CalculateWage(es, p)|
    requires j < |CalculateWage(es, p)[i].person| && j' < |CalculateWage(es, p)[i].person| && j != j'
    ensures var persons := CalculateWage(es, p)[i].person;
      Value(persons[j].id) != Value(persons[j'].id)
  {
    var ms := Select(es, MonthOf, MonthsOf(es)[i]);
    var persons := CalculateForMonth(ms, p);
    assert CalculateWage(es, p)[i].person == persons;
    var ids := PersonIds(ms);
    assert persons[j].id == Decimal(ids[j]) && persons[j'].id == Decimal(ids[j']);
    if j < j' {
      assert ids[j] != ids[j'];
    } else {
      assert ids[j'] != ids[j];
    }
  }

  lemma DaysDiffer(es: seq<HourEntry>, p: CalculationParams, i: nat, j: nat, k: nat, k': nat)
    requires i < |CalculateWage(es, p)| && j < |CalculateWage(es, p)[i].person|
    requires var days := CalculateWage(es, p)[i].person[j].dailyWages;
      k < |days| && k' < |days| && k != k'
    ensures var days := CalculateWage(es, p)[i].person[j].dailyWages;
      days[k].date != days[k'].date
  {
    var ms := Select(es, MonthOf, MonthsOf(es)[i]);
    var persons := CalculateForMonth(ms, p);
    assert CalculateWage(es, p)[i].person == persons;
    var mine := Select(ms, PersonOf, PersonIds(ms)[j]);
    assert persons[j].dailyWages == CalculateForPerson(mine, p);
    var ds := DaysOf(mine);
    if k < k' {
      assert ds[k] != ds[k'];
    } else {
      assert ds[k'] != ds[k];
    }
  }

  /** Monthly figures are the sums of the daily ones and print exactly in cents. */
  lemma MonthlyFigures(es: seq<HourEntry>, p: CalculationParams, i: nat, j: nat)
    requires i < |CalculateWage(es, p)| && j < |CalculateWage(es, p)[i].person|
    ensures var person := CalculateWage(es, p)[i].person[j];
      && person.monthlyWages == SumWages(person.dailyWages)
      && IsWellFormed(person.monthlyWages)
      && forall k :: 0 <= k < |person.dailyWages| ==> IsWellFormed(person.dailyWages[k].wages)
  {
    PersonRecordOf(es, p, i, j);
    var person := CalculateWage(es, p)[i].person[j];
    SumWagesWellFormed(person.dailyWages);
  }

  /** A person's name is the name on that person's first entry of the month. */
  lemma PersonNameIsFirst(es: seq<HourEntry>, p: CalculationParams, i: nat, j: nat)
    requires i < |CalculateWage(es, p)| && j < |CalculateWage(es, p)[i].person|
    ensures var r := CalculateWage(es, p);
      var person := r[i].person[j];
      exists n :: 0 <= n < |es|
        && MonthPersonOf(es[n]) == (KeyOfRecord(r[i]), Value(person.id))
        && es[n].name == person.name
        && forall m :: 0 <= m < n ==> MonthPersonOf(es[m]) != (KeyOfRecord(r[i]), Value(person.id))
  {
    var r := CalculateWage(es, p);
    PersonRecordOf(es, p, i, j);
    var id := Value(r[i].person[j].id);
    RecordNameIsFirst(es, (KeyOfRecord(r[i]), id), id, p);
  }

  lemma RecordNameIsFirst(es: seq<HourEntry>, key: (MonthKey, nat), id: nat, p: CalculationParams)
    requires Select(es, MonthPersonOf, key) != []
    ensures exists n ::
              && 0 <= n < |es|
              && MonthPersonOf(es[n]) == key
              && es[n].name == PersonRecord(Select(es, MonthPersonOf, key), id, p).name
              && forall m :: 0 <= m < n ==> MonthPersonOf(es[m]) != key
  {
    SelectFirst(es, MonthPersonOf, key);
  }

  /** Months come in order of first occurrence in the input, not sorted. */
  lemma MonthsInFirstOccurrenceOrder(es: seq<HourEntry>, p: CalculationParams, i: nat, i': nat, b: nat)
    requires i < i' < |CalculateWage(es, p)| && b < |es|
    requires MonthOf(es[b]) == KeyOfRecord(CalculateWage(es, p)[i'])
    ensures exists a :: 0 <= a < b && MonthOf(es[a]) == KeyOfRecord(CalculateWage(es, p)[i])
  {
    var ks := KeysOf(es, MonthOf);
    DedupFirstOccurrence(ks, i, i', b);
    var a :| 0 <= a < b && ks[a] == Dedup(ks)[i];
    assert MonthOf(es[a]) == ks[a];
  }

  /** The first month of the report is the month of the first entry. */
  lemma FirstMonthFirst(es: seq<HourEntry>, p: CalculationParams)
    requires es != []
    ensures |CalculateWage(es, p)| > 0 && KeyOfRecord(CalculateWage(es, p)[0]) == MonthOf(es[0])
  {
    var ks := KeysOf(es, MonthOf);
    DedupHead(ks);
    assert MonthsOf(es)[0] == MonthOf(es[0]);
    var months := CalculateWage(es, p);
    assert months[0].year == MonthOf(es[0]).year && months[0].month + 1 == MonthOf(es[0]).month;
  }

  /**
   * Persons with ids below 2^32 - 1 come first, in ascending order of id;
   * larger ids follow them.
   */
  lemma PersonsAscending(es: seq<HourEntry>, p: CalculationParams, i: nat, j: nat, j': nat)
    requires i < |CalculateWage(es, p)| && j < j' < |CalculateWage(es, p)[i].person|
    ensures var ps := CalculateWage(es, p)[i].person;
      IsArrayIndex(Value(ps[j'].id)) ==> IsArrayIndex(Value(ps[j].id)) && Value(ps[j].id) < Value(ps[j'].id)
  {
    PersonRecordOf(es, p, i, j);
    PersonRecordOf(es, p, i, j');
    var ms := Select(es, MonthOf, MonthsOf(es)[i]);
    assert CalculateWage(es, p)[i].person == CalculateForMonth(ms, p);
  }

  /** A person's days come in order of first occurrence among that person's entries of the month. */
  lemma DaysInFirstOccurrenceOrder(es: seq<HourEntry>, p: CalculationParams, i: nat, j: nat, k: nat, k': nat, b: nat)
    requires IsCell(CalculateWage(es, p), i, j, k') && k < k'
    requires var r := CalculateWage(es, p);
      var mine := Select(es, MonthPersonOf, (KeyOfRecord(r[i]), Value(r[i].person[j].id)));
      b < |mine| && DayOfEntry(mine[b]) == r[i].person[j].dailyWages[k'].date
    ensures var r := CalculateWage(es, p);
      var mine := Select(es, MonthPersonOf, (KeyOfRecord(r[i]), Value(r[i].person[j].id)));
      exists a :: 0 <= a < b && DayOfEntry(mine[a]) == r[i].person[j].dailyWages[k].date
  {
    var r := CalculateWage(es, p);
    PersonRecordOf(es, p, i, j);
    var mine := Select(es, MonthPersonOf, (KeyOfRecord(r[i]), Value(r[i].person[j].id)));
    assert r[i].person[j].dailyWages == CalculateForPerson(mine, p);
    DayFirstOccurrence(mine, p, k, k', b);
  }

  lemma DayFirstOccurrence(mine: seq<HourEntry>, p: CalculationParams, k: nat, k': nat, b: nat)
    requires k < k' < |CalculateForPerson(mine, p)| && b < |mine|
    requires DayOfEntry(mine[b]) == CalculateForPerson(mine, p)[k'].date
    ensures exists a :: 0 <= a < b && DayOfEntry(mine[a]) == CalculateForPerson(mine, p)[k].date
  {
    var ks := KeysOf(mine, DayOfEntry);
    DedupFirstOccurrence(ks, k, k', b);
    var a :| 0 <= a < b && ks[a] == Dedup(ks)[k];
    assert DayOfEntry(mine[a]) == ks[a];
  }

  lemma SingleDay(e: HourEntry, p: CalculationParams)
    ensures CalculateForPerson([e], p) == [DailyWageInfo(DayOfEntry(e), CalculateForDay([e], p))]
  {
    SelectSingle(e, DayOfEntry);
  }

  lemma SinglePerson(e: HourEntry, p: CalculationParams)
    ensures CalculateForMonth([e], p) == [PersonRecord([e], e.identifier, p)]
  {
    SelectSingle(e, PersonOf);
    EnumerationSingle(e.identifier);
    assert PersonIds([e]) == [e.identifier];
    var persons := CalculateForMonth([e], p);
    assert |persons| == 1 && persons[0] == PersonRecord([e], e.identifier, p);
    Singleton(persons);
  }

  /**
   * A single entry gives one month, one person and one day: the month and
   * the day of its start, even when it ends after midnight.
   */
  lemma SingleEntry(e: HourEntry, p: CalculationParams)
    ensures var r := CalculateWage([e], p);
      && |r| == 1 && KeyOfRecord(r[0]) == MonthOf(e) && |r[0].person| == 1
      && r[0].person[0].id == Decimal(e.identifier) && r[0].person[0].name == e.name
      && r[0].person[0].dailyWages == [DailyWageInfo(DayOfEntry(e), CalculateForDay([e], p))]
  {
    SelectSingle(e, MonthOf);
    SinglePerson(e, p);
    SingleDay(e, p);
  }
}
