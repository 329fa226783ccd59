/**
 * The `Time` value of src/Time.ts: hours and minutes read from an `H:MM`
 * string, compared lexicographically, and anchored onto the calendar day
 * of an instant.
 */
module Times {
  import opened Wrappers
  import opened Text
  import opened Calendar

  /** Hours and minutes exactly as read; no range is enforced. */
  datatype Time = Time(hours: nat, minutes: nat)

  /** `s` is `h:m` with one or two digits on each side of the colon. */
  ghost predicate TimeForm(s: string, h: string, m: string) {
    && 1 <= |h| <= 2 && 1 <= |m| <= 2
    && IsDigits(h) && IsDigits(m)
    && s == h + ":" + m
  }

  /** `s` matches the regular expression `^(\d{1,2}):(\d{1,2})$`. */
  ghost predicate IsTimeString(s: string) {
    exists h, m :: TimeForm(s, h, m)
  }

  /** `Time.fromString`: the two digit groups as numbers, or no value. */
  function FromString(s: string): (r: Option<Time>)
    ensures r.Some? ==> exists h, m :: TimeForm(s, h, m) && r.value == Time(Value(h), Value(m))
    ensures r.Some? ==> r.value.hours < 100 && r.value.minutes < 100
  {
    var parts := Split(s, ':');
    if |parts| == 2 && 1 <= |parts[0]| <= 2 && 1 <= |parts[1]| <= 2
       && IsDigits(parts[0]) && IsDigits(parts[1])
    then
      assert s == Join(parts, ':') == parts[0] + [':'] + Join(parts[1..], ':');
      assert ":" == [':'] && Join(parts[1..], ':') == parts[1];
      assert TimeForm(s, parts[0], parts[1]);
      Some(Time(Value(parts[0]), Value(parts[1])))
    else None
  }

  /** Every string of the `H:MM` family is accepted, with its digits as values. */
  lemma FromStringOfForm(s: string, h: string, m: string)
    requires TimeForm(s, h, m)
    ensures FromString(s) == Some(Time(Value(h), Value(m)))
  {
    assert ":" == [':'];
    SplitJoin([h, m], ':');
  }

  /** `fromString` gives no value exactly when the regular expression fails. */
  lemma FromStringMatches(s: string)
    ensures FromString(s).Some? <==> IsTimeString(s)
  {
    if IsTimeString(s) {
      var h, m :| TimeForm(s, h, m);
      FromStringOfForm(s, h, m);
    }
  }

  /** Writing any hours and minutes below 100 in decimal reads back the same time. */
  lemma FromStringRoundTrip(h: nat, m: nat)
    requires h < 100 && m < 100
    ensures FromString(Decimal(h) + ":" + Decimal(m)) == Some(Time(h, m))
  {
    FromStringOfForm(Decimal(h) + ":" + Decimal(m), Decimal(h), Decimal(m));
  }

  /** No range check: an hour past 23 and a minute past 59 are kept. */
  lemma FromStringKeepsOutOfRange()
    ensures FromString("24:75") == Some(Time(24, 75))
  {
    assert "24"[..1] == "2" && "75"[..1] == "7";
    assert Value("24") == 24 && Value("75") == 75;
    assert "24" + ":" + "75" == "24:75";
    FromStringOfForm("24:75", "24", "75");
  }

  /** `isBefore`: earlier hour, or the same hour and an earlier minute. */
  predicate IsBefore(a: Time, b: Time)
    ensures IsBefore(a, b) ==> a != b && a.hours <= b.hours
  {
    a.hours < b.hours || (a.hours == b.hours && a.minutes < b.minutes)
  }

  lemma IsBeforeIrreflexive(a: Time)
    ensures !IsBefore(a, a)
  {
  }

  lemma IsBeforeTransitive(a: Time, b: Time, c: Time)
    requires IsBefore(a, b) && IsBefore(b, c)
    ensures IsBefore(a, c)
  {
  }

  /** For distinct times exactly one of the two directions holds. */
  lemma IsBeforeTrichotomy(a: Time, b: Time)
    ensures a != b <==> (IsBefore(a, b) != IsBefore(b, a))
  {
  }

  /** Minutes after midnight that `setHours(h)` then `setMinutes(m)` lands on. */
  function MinuteOfDay(t: Time): nat {
    t.hours * 60 + t.minutes
  }

  /**
   * For in-range times, `isBefore` agrees with the order of the instants
   * the times give on one day.
   */
  lemma IsBeforeAgreesWithInstants(a: Time, b: Time)
    requires a.minutes < 60 && b.minutes < 60
    ensures IsBefore(a, b) <==> MinuteOfDay(a) < MinuteOfDay(b)
  {
    if a.hours < b.hours {
      assert a.hours * 60 + 60 <= b.hours * 60;
    } else if b.hours < a.hours {
      assert b.hours * 60 + 60 <= a.hours * 60;
    }
  }

  /** With a minute value past 59 the two orders part ways. */
  lemma IsBeforeDisagreesOutOfRange()
    ensures IsBefore(Time(0, 75), Time(1, 0))
    ensures MinuteOfDay(Time(1, 0)) < MinuteOfDay(Time(0, 75))
  {
  }

  /**
   * `momentDateOnTime`: the instant `t` sets on the calendar day of `instant`,
   * seconds cleared. Hours and minutes roll over as `Date.setHours` does.
   */
  function OnDate(t: Time, instant: nat): (r: nat)
    ensures DayOf(r) == DayOf(instant) + MinuteOfDay(t) / MinutesPerDay
    ensures r % MinutesPerDay == MinuteOfDay(t) % MinutesPerDay
    ensures MinuteOfDay(t) < MinutesPerDay ==> DayOf(r) == DayOf(instant) && r % MinutesPerDay == MinuteOfDay(t)
  {
    DayOf(instant) * MinutesPerDay + MinuteOfDay(t)
  }
}
