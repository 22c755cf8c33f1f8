/**
  The two countdowns on an event card, both measured from the fixed
  reference date 2026-02-07 in whole days rounded up, and the condition for
  the "registration closing soon" banner.
 */
module MarathonCard {
  import opened Text
  import opened Calendar
  import opened MarathonTypes
  import MockMarathons

  /** `new Date("2026-02-07")`: midnight UTC, day 20491 after the epoch. */
  const ReferenceInstant: Instant := 1_770_422_400_000

  /** The ceiling day difference from the reference date to `t`. */
  function DaysFromReference(t: Instant): int {
    DaysCeil(t - ReferenceInstant)
  }

  /**
    `t` lies in day `n` of the countdown: after the end of day `n - 1` and no
    later than `n` whole days past the reference instant.
   */
  predicate OnDay(t: Instant, n: int) {
    ReferenceInstant + MsPerDay * (n - 1) < t <= ReferenceInstant + MsPerDay * n
  }

  /** Every instant lies in exactly one countdown day, the ceiling day difference. */
  lemma OnDayUnique(t: Instant, n: int)
    ensures OnDay(t, n) <==> n == DaysFromReference(t)
  {
    var d := DaysFromReference(t);
    assert MsPerDay * (d - 1) < t - ReferenceInstant <= MsPerDay * d;
    if n < d {
      assert MsPerDay * n <= MsPerDay * (d - 1);
    } else if n > d {
      assert MsPerDay * d <= MsPerDay * (n - 1);
    }
  }

  /** `getDday`: "종료" once the day difference is negative, "D-Day" on day 0, "D-n" after that. */
  function Dday(date: Instant): (s: string)
    ensures s == "종료" <==> date <= ReferenceInstant - MsPerDay
    ensures s == "D-Day" <==> OnDay(date, 0)
  {
    var d := DaysFromReference(date);
    OnDayUnique(date, 0);
    if d < 0 then "종료"
    else if d == 0 then "D-Day"
    else
      var s := "D-" + NatToString(d);
      assert '0' <= s[2] <= '9';
      s
  }

  /**
    For every positive `n`, the badge reads "D-" followed by the decimal
    digits of `n` exactly when the event lies in countdown day `n`.
   */
  lemma DdayCountsDown(date: Instant, n: int)
    requires n >= 1
    ensures Dday(date) == "D-" + NatToString(n) <==> OnDay(date, n)
  {
    var d := DaysFromReference(date);
    OnDayUnique(date, n);
    var badge := "D-" + NatToString(n);
    assert '0' <= badge[2] <= '9';
    if Dday(date) == badge {
      assert d > 0;
      assert Dday(date)[2..] == NatToString(d) && badge[2..] == NatToString(n);
      NatToStringInjective(d, n);
    }
  }

  /** The badge determines the day count of every event that has not ended. */
  lemma DdayDeterminesDay(a: Instant, b: Instant)
    requires Dday(a) == Dday(b)
    ensures DaysFromReference(a) >= 0 ==> DaysFromReference(a) == DaysFromReference(b)
  {
    var da, db := DaysFromReference(a), DaysFromReference(b);
    OnDayUnique(a, da);
    OnDayUnique(b, db);
    OnDayUnique(a, 0);
    OnDayUnique(b, 0);
    if da > 0 {
      DdayCountsDown(a, da);
      DdayCountsDown(b, da);
    }
  }

  /**
    Because the badge rounds up while the status derivation compares
    instants, an event half a day before the reference date already has
    status `Ended` but still shows "D-Day".
   */
  lemma BadgeAndStatusDisagree()
    ensures var date := ReferenceInstant - MsPerDay / 2;
      && MockMarathons.CalculateStatus(date, ReferenceInstant) == Ended
      && Dday(date) == "D-Day"
  {
    var date := ReferenceInstant - MsPerDay / 2;
    assert OnDay(date, 0);
  }

  /** "오늘 마감": registration closes today. */
  const ClosesToday := "오늘 마감"

  /** "일 남음": the suffix of a count of days left. */
  const DaysLeftSuffix := "일 남음"

  /**
    `getRegistrationDaysLeft`: nothing once the registration end is a day or
    more in the past, "오늘 마감" on day 0, the day count followed by "일 남음"
    for days 1 to 7, and nothing beyond a week. A present value is never
    empty, so the card treats it as shown.
   */
  function RegistrationDaysLeft(end: Instant): (r: Option<string>)
    ensures r.None? <==>
      end <= ReferenceInstant - MsPerDay || ReferenceInstant + 7 * MsPerDay < end
    ensures r == Some(ClosesToday) <==> OnDay(end, 0)
    ensures r.Some? ==> |r.value| > 0
  {
    var d := DaysFromReference(end);
    OnDayUnique(end, 0);
    if d < 0 then None
    else if d == 0 then Some(ClosesToday)
    else if d <= 7 then
      var s := NatToString(d) + DaysLeftSuffix;
      assert '0' <= s[0] <= '9';
      Some(s)
    else None
  }

  /** For days 1 to 7, the days-left text names the day count exactly when the end lies in that day. */
  lemma DaysLeftCountsDown(end: Instant, n: int)
    requires 1 <= n <= 7
    ensures RegistrationDaysLeft(end) == Some(NatToString(n) + DaysLeftSuffix) <==> OnDay(end, n)
  {
    var d := DaysFromReference(end);
    OnDayUnique(end, n);
    var text := NatToString(n) + DaysLeftSuffix;
    assert '0' <= text[0] <= '9';
    if RegistrationDaysLeft(end) == Some(text) {
      assert 1 <= d <= 7;
      var s := NatToString(d) + DaysLeftSuffix;
      assert s == text;
      assert |NatToString(d)| == |NatToString(n)|;
      assert s[..|NatToString(d)|] == NatToString(d);
      assert text[..|NatToString(n)|] == NatToString(n);
      NatToStringInjective(d, n);
    }
  }

  /** The condition under which the card shows the "registration closing" banner. */
  predicate ShowsDeadlineBanner(m: Marathon) {
    RegistrationDaysLeft(m.registrationEnd).Some? && m.registrationStatus == Open
  }

  /**
    The banner shows exactly for events whose registration is open and whose
    registration end lies between the start of the reference day's
    countdown and seven whole days after the reference instant.
   */
  lemma DeadlineBannerIff(m: Marathon)
    ensures ShowsDeadlineBanner(m) <==>
      && m.registrationStatus == Open
      && ReferenceInstant - MsPerDay < m.registrationEnd <= ReferenceInstant + 7 * MsPerDay
  {
  }
}
