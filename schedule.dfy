/** The schedule evaluator `check_block_needed`: does a website entry need to
    be blocked at the current wall-clock time?

    Times are compared as HHMM integers: "09:00" becomes 900 and the clock
    reading 23:05 becomes 2305. A website entry is a JSON object whose keys may
    be missing; every lookup of a missing key, and every time string that
    `int` rejects, ends in the caught exception and the answer "not blocked". */
module Schedule {
  import opened Wrappers
  import opened PyInt

  /** One entry of the `websites` list. `None` stands for a missing key. */
  datatype Website = Website(
    url: Option<string>,
    enabled: Option<bool>,
    startTime: Option<string>,
    endTime: Option<string>)

  /** The wall-clock reading `datetime.now()` returns, as hour and minute. */
  datatype Clock = Clock(hour: nat, minute: nat)

  predicate ValidClock(now: Clock) { now.hour < 24 && now.minute < 60 }

  /** `int(now.strftime('%H%M'))`. */
  function CurrentHHMM(now: Clock): (t: int)
    ensures ValidClock(now) ==> 0 <= t <= 2359 && t % 100 < 60
    ensures ValidClock(now) ==> t / 100 == now.hour && t % 100 == now.minute
  {
    now.hour * 100 + now.minute
  }

  /** On valid clock readings, HHMM order is time-of-day order, which is what
      makes comparing HHMM integers a comparison of times. */
  lemma HHMMOrder(a: Clock, b: Clock)
    requires ValidClock(a) && ValidClock(b)
    ensures CurrentHHMM(a) <= CurrentHHMM(b) <==> a.hour * 60 + a.minute <= b.hour * 60 + b.minute
  {
    if a.hour < b.hour {
      assert CurrentHHMM(a) < (a.hour + 1) * 100 <= CurrentHHMM(b);
    } else if a.hour > b.hour {
      assert CurrentHHMM(b) < (b.hour + 1) * 100 <= CurrentHHMM(a);
    }
  }

  /** `s.replace(':', '')`. */
  function RemoveColons(s: string): (r: string)
    ensures ':' !in r
    ensures |r| <= |s|
    ensures ':' !in s ==> r == s
  {
    if s == [] then []
    else if s[0] == ':' then RemoveColons(s[1..])
    else [s[0]] + RemoveColons(s[1..])
  }

  /** `int(s.replace(':', ''))`, `None` when `int` raises. */
  function ParseTime(s: string): (r: Option<int>)
    ensures ':' !in s ==> r == ParseInt(s)
  {
    ParseInt(RemoveColons(s))
  }

  /** A key lookup followed by the time conversion: `None` when the key is
      missing or its value does not convert. */
  function TimeField(field: Option<string>): (r: Option<int>)
    ensures field.None? ==> r.None?
  {
    match field
    case None => None
    case Some(s) => ParseTime(s)
  }

  /** `check_block_needed(website)` with the current time passed in. */
  function CheckBlockNeeded(website: Website, now: Clock): (blocked: bool)
    // a disabled entry, or one without the `enabled` key, is never blocked
    ensures website.enabled != Some(true) ==> !blocked
    // a start or end time that is missing or does not convert gives "not blocked"
    ensures TimeField(website.startTime).None? || TimeField(website.endTime).None? ==> !blocked
    // the url is read by the log line of either outcome: without it, "not blocked"
    ensures website.url.None? ==> !blocked
    // a window that does not cross midnight, both ends inclusive
    ensures website.url.Some? && website.enabled == Some(true) &&
            TimeField(website.startTime).Some? && TimeField(website.endTime).Some? &&
            TimeField(website.startTime).value <= TimeField(website.endTime).value ==>
              (blocked <==> TimeField(website.startTime).value <= CurrentHHMM(now) <= TimeField(website.endTime).value)
    // a window that crosses midnight, both ends inclusive
    ensures website.url.Some? && website.enabled == Some(true) &&
            TimeField(website.startTime).Some? && TimeField(website.endTime).Some? &&
            TimeField(website.startTime).value > TimeField(website.endTime).value ==>
              (blocked <==> CurrentHHMM(now) >= TimeField(website.startTime).value ||
                            CurrentHHMM(now) <= TimeField(website.endTime).value)
  {
    var current := CurrentHHMM(now);
    if website.enabled.None? then false
    else if !website.enabled.value then false
    else
      match TimeField(website.startTime)
      case None => false
      case Some(start) =>
        match TimeField(website.endTime)
        case None => false
        case Some(end) =>
          var inWindow :=
            if start <= end then start <= current <= end
            else current >= start || current <= end;
          inWindow && website.url.Some?
  }

  /** Clockwise distance, in HHMM units, from `a` to `b` on a 24-hour dial. */
  function DialDistance(a: int, b: int): (d: int)
    ensures 0 <= d < 2400
  {
    (b - a) % 2400
  }

  lemma DialDistanceOnDial(a: int, b: int)
    requires 0 <= a < 2400 && 0 <= b < 2400
    ensures DialDistance(a, b) == if b >= a then b - a else b - a + 2400
  {
    if b < a {
      assert (b - a + 2400) % 2400 == b - a + 2400;
      assert (b - a) % 2400 == (b - a + 2400) % 2400;
    }
  }

  /** An independent reading of the window rule: for times on the dial
      (0 <= t < 2400), an enabled entry is blocked exactly when the current time
      is reached from the start no later than the end is, going clockwise. This
      covers both the plain and the midnight-crossing case in one formula. */
  lemma WindowIsDialArc(website: Website, now: Clock)
    requires ValidClock(now)
    requires website.url.Some? && website.enabled == Some(true)
    requires TimeField(website.startTime).Some? && TimeField(website.endTime).Some?
    requires 0 <= TimeField(website.startTime).value < 2400
    requires 0 <= TimeField(website.endTime).value < 2400
    ensures CheckBlockNeeded(website, now) <==>
            DialDistance(TimeField(website.startTime).value, CurrentHHMM(now))
              <= DialDistance(TimeField(website.startTime).value, TimeField(website.endTime).value)
  {
    var s, e, c := TimeField(website.startTime).value, TimeField(website.endTime).value, CurrentHHMM(now);
    DialDistanceOnDial(s, c);
    DialDistanceOnDial(s, e);
  }

  /** A window whose start equals its end blocks at that one HHMM value only. */
  lemma SingleInstantWindow(website: Website, now: Clock)
    requires website.url.Some? && website.enabled == Some(true)
    requires TimeField(website.startTime).Some? && TimeField(website.endTime).Some?
    requires TimeField(website.startTime).value == TimeField(website.endTime).value
    ensures CheckBlockNeeded(website, now) <==> CurrentHHMM(now) == TimeField(website.startTime).value
  {
  }

  /** The value of two decimal digits. */
  function PairValue(tens: char, ones: char): (n: nat)
    requires IsDigit(tens) && IsDigit(ones)
    ensures n < 100
  {
    DigitValue(tens) * 10 + DigitValue(ones)
  }

  /** Two digits with a leading zero, as `strftime('%H:%M')` writes hours and minutes. */
  function TwoDigits(n: nat): (s: string)
    requires n < 100
    ensures |s| == 2 && IsDigit(s[0]) && IsDigit(s[1])
    ensures PairValue(s[0], s[1]) == n
  {
    [DigitChar(n / 10), DigitChar(n % 10)]
  }

  /** "HH:MM". */
  function FormatTime(hour: nat, minute: nat): (s: string)
    requires hour < 100 && minute < 100
    ensures |s| == 5 && s[2] == ':'
  {
    TwoDigits(hour) + ":" + TwoDigits(minute)
  }

  /** An "HH:MM" string converts to the HHMM integer `hour * 100 + minute`. */
  lemma {:induction false} FormatTimeParses(hour: nat, minute: nat)
    requires hour < 100 && minute < 100
    ensures ParseTime(FormatTime(hour, minute)) == Some(hour * 100 + minute)
  {
    ClockTextParses(TwoDigits(hour), TwoDigits(minute));
  }

  /** Any two digit pairs around a colon, "ab:cd", convert to the integer abcd. */
  lemma {:induction false} ClockTextParses(h: string, m: string)
    requires |h| == 2 && IsDigit(h[0]) && IsDigit(h[1])
    requires |m| == 2 && IsDigit(m[0]) && IsDigit(m[1])
    ensures ParseTime(h + ":" + m) == Some(PairValue(h[0], h[1]) * 100 + PairValue(m[0], m[1]))
  {
    var digits := h + m;
    ClockTextColonFree(h, m);
    assert digits[0] == h[0] && digits[1] == h[1] && digits[2] == m[0] && digits[3] == m[1];
    FourDigitsWellFormed(digits);
    ParseTimeDigits(h + ":" + m, digits);
    FourDigitsValue(digits);
  }

  /** Dropping the colon from "ab:cd" leaves the four digits "abcd". */
  lemma {:induction false} ClockTextColonFree(h: string, m: string)
    requires ':' !in h && ':' !in m
    ensures RemoveColons(h + ":" + m) == h + m
  {
    RemoveColonsAppend(h + ":", m);
    RemoveColonsAppend(h, ":");
    assert RemoveColons(":") == [];
    assert h + [] == h;
  }

  /** A time string whose colon-free form is a well-formed digit string converts to its value. */
  lemma ParseTimeDigits(s: string, digits: string)
    requires RemoveColons(s) == digits && WellFormedDigits(digits)
    ensures ParseTime(s) == Some(DigitsValue(digits))
  {
    ParseIntDigits(digits);
  }

  lemma {:induction false} FourDigitsWellFormed(s: string)
    requires |s| == 4 && forall i :: 0 <= i < 4 ==> IsDigit(s[i])
    ensures WellFormedDigits(s)
  {
    AllDigitsNoDoubleUnderscore(s);
  }

  lemma {:induction false} RemoveColonsAppend(a: string, b: string)
    ensures RemoveColons(a + b) == RemoveColons(a) + RemoveColons(b)
  {
    if a == [] {
      assert a + b == b;
    } else {
      var ab := a + b;
      assert ab[0] == a[0] && ab[1..] == a[1..] + b;
      RemoveColonsAppend(a[1..], b);
      if a[0] == ':' {
        assert RemoveColons(ab) == RemoveColons(a[1..] + b);
      } else {
        assert RemoveColons(ab) == [a[0]] + RemoveColons(a[1..] + b);
      }
    }
  }

  lemma {:induction false} FourDigitsValue(s: string)
    requires |s| == 4 && forall i :: 0 <= i < 4 ==> IsDigit(s[i])
    ensures DigitsValue(s) == PairValue(s[0], s[1]) * 100 + PairValue(s[2], s[3])
  {
    assert s[..1][..0] == [];
    assert s[..2][..1] == s[..1];
    assert s[..3][..2] == s[..2];
    assert s[..4] == s;
    assert DigitsValue(s[..1]) == DigitValue(s[0]);
    assert DigitsValue(s[..2]) == DigitValue(s[0]) * 10 + DigitValue(s[1]);
    assert DigitsValue(s[..3]) == DigitsValue(s[..2]) * 10 + DigitValue(s[2]);
  }

  /** A night window 22:00-06:00 crosses midnight: it blocks at 23:00 and at
      06:00 (the end is inclusive), and not at 07:00. */
  lemma NightWindowExample()
    ensures CheckBlockNeeded(Website(Some("example.com"), Some(true), Some(FormatTime(22, 0)), Some(FormatTime(6, 0))), Clock(23, 0))
    ensures CheckBlockNeeded(Website(Some("example.com"), Some(true), Some(FormatTime(22, 0)), Some(FormatTime(6, 0))), Clock(6, 0))
    ensures !CheckBlockNeeded(Website(Some("example.com"), Some(true), Some(FormatTime(22, 0)), Some(FormatTime(6, 0))), Clock(7, 0))
  {
    FormatTimeParses(22, 0);
    FormatTimeParses(6, 0);
  }
}
