/** The duration text shown on each row of the cry table, and a reader for it
    that shows the text loses nothing below the one-hour cap. */
module FormattedStringManager {

  import opened Wrappers
  import opened Intervals

  const OverAnHourText: string := ">1 hr"

  predicate IsDigit(c: char)
  {
    '0' <= c <= '9'
  }

  predicate AllDigits(s: string)
  {
    forall i :: 0 <= i < |s| ==> IsDigit(s[i])
  }

  function DigitChar(d: nat): (c: char)
    requires d < 10
    ensures IsDigit(c)
  {
    (('0' as int) + d) as char
  }

  function DigitValue(c: char): (d: nat)
    requires IsDigit(c)
    ensures d < 10
  {
    (c as int) - ('0' as int)
  }

  /** Swift's `"\(n)"` for a non-negative `Int`: decimal, no leading zeros. */
  function NatToString(n: nat): (s: string)
    ensures |s| > 0 && AllDigits(s)
    ensures |s| > 1 ==> s[0] != '0'
    decreases n
  {
    if n < 10 then [DigitChar(n)] else NatToString(n / 10) + [DigitChar(n % 10)]
  }

  /** The number a string of decimal digits denotes. */
  function DigitsValue(s: string): nat
    requires AllDigits(s)
  {
    if s == [] then 0 else DigitsValue(s[..|s| - 1]) * 10 + DigitValue(s[|s| - 1])
  }

  lemma {:induction false} NatToStringRoundTrip(n: nat)
    ensures DigitsValue(NatToString(n)) == n
    decreases n
  {
    if n >= 10 {
      var s := NatToString(n);
      assert s[..|s| - 1] == NatToString(n / 10);
      NatToStringRoundTrip(n / 10);
    }
  }

  /** `" sec"` / `" secs"`: the unit, plural unless the count is exactly one. */
  function UnitSuffix(n: nat, unit: string): string
  {
    " " + unit + (if n == 1 then "" else "s")
  }

  /** `"\(n) unit\(n == 1 ? "" : "s")"`: the count in decimal, then the unit
      with the plural agreeing with the count, so it reads back as `n`. */
  function Counted(n: nat, unit: string): (s: string)
    ensures |s| > 0 && IsDigit(s[0])
    ensures ParseCounted(s, unit) == Some(n)
  {
    var s := NatToString(n) + UnitSuffix(n, unit);
    SplitCounted(n, UnitSuffix(n, unit));
    s
  }

  /** `getDuration(dateInterval:)`: at least an hour reads ">1 hr"; otherwise
      the whole seconds split into minutes and seconds, and the minutes are
      shown only when there is at least one. */
  function GetDuration(dateInterval: DateInterval): (r: string)
    ensures |r| > 0
    ensures Duration(dateInterval) >= 3600.0 <==> r == OverAnHourText
    ensures Duration(dateInterval) < 3600.0 ==> IsDigit(r[0])
  {
    var duration := Duration(dateInterval);
    if duration >= 3600.0 then OverAnHourText
    else
      var minutes: nat := duration.Floor / 60;
      var seconds: nat := duration.Floor % 60;
      var secondsString := Counted(seconds, "sec");
      var minutesString := Counted(minutes, "min");
      if minutes == 0 then secondsString else minutesString + " " + secondsString
  }

  /** The number of leading decimal digits of `s`. */
  function LeadingDigits(s: string): (k: nat)
    ensures k <= |s| && AllDigits(s[..k])
    ensures k < |s| ==> !IsDigit(s[k])
  {
    if s == [] || !IsDigit(s[0]) then 0
    else
      var k := 1 + LeadingDigits(s[1..]);
      assert s[..k] == [s[0]] + s[1..][..k - 1];
      k
  }

  lemma {:induction false} LeadingDigitsOfNumber(digits: string, rest: string)
    requires AllDigits(digits)
    requires rest == [] || !IsDigit(rest[0])
    ensures LeadingDigits(digits + rest) == |digits|
  {
    if digits != [] {
      assert (digits + rest)[1..] == digits[1..] + rest;
      LeadingDigitsOfNumber(digits[1..], rest);
    }
  }

  /** Reads `"<n> unit"` / `"<n> units"`, with the plural agreeing with `n`. */
  function ParseCounted(s: string, unit: string): Option<nat>
  {
    var k := LeadingDigits(s);
    if k > 0 && s[k..] == UnitSuffix(DigitsValue(s[..k]), unit)
    then Some(DigitsValue(s[..k]))
    else None
  }

  /** What a duration text says: over an hour, or whole minutes and seconds. */
  datatype Reading = OverAnHour | MinSec(minutes: nat, seconds: nat)

  /** Reads back the text `GetDuration` writes, and only that: a seconds count
      under sixty alone, or a minutes count from one to fifty-nine, a space and
      a seconds count under sixty. */
  function ParseDuration(s: string): Option<Reading>
  {
    if s == OverAnHourText then Some(OverAnHour)
    else
      var k := LeadingDigits(s);
      if k == 0 then None else ParseAfterCount(DigitsValue(s[..k]), s[k..])
  }

  /** The rest of a duration text once its leading count `a` is read: either
      the seconds unit, or the minutes unit, a space and a seconds count. */
  function ParseAfterCount(a: nat, rest: string): Option<Reading>
  {
    if rest == UnitSuffix(a, "sec") then
      if a < 60 then Some(MinSec(0, a)) else None
    else
      var minutes := UnitSuffix(a, "min") + " ";
      if 0 < a < 60 && |minutes| <= |rest| && rest[..|minutes|] == minutes then
        match ParseCounted(rest[|minutes|..], "sec")
        case Some(b) => if b < 60 then Some(MinSec(a, b)) else None
        case None => None
      else None
  }

  lemma SplitCounted(n: nat, rest: string)
    requires rest == [] || !IsDigit(rest[0])
    ensures var s := NatToString(n) + rest;
            LeadingDigits(s) == |NatToString(n)| && DigitsValue(s[..LeadingDigits(s)]) == n &&
            s[LeadingDigits(s)..] == rest
  {
    var s := NatToString(n) + rest;
    LeadingDigitsOfNumber(NatToString(n), rest);
    assert s[..|NatToString(n)|] == NatToString(n);
    NatToStringRoundTrip(n);
  }

  lemma ParseSecondsText(seconds: nat)
    requires seconds < 60
    ensures ParseDuration(Counted(seconds, "sec")) == Some(MinSec(0, seconds))
  {
    var s := Counted(seconds, "sec");
    assert s == NatToString(seconds) + UnitSuffix(seconds, "sec");
    SplitCounted(seconds, UnitSuffix(seconds, "sec"));
    assert s[0] != '>';
  }

  /** The text after the minutes count: its unit, a space, then the seconds. */
  function MinutesTail(minutes: nat, seconds: nat): string
  {
    UnitSuffix(minutes, "min") + " " + Counted(seconds, "sec")
  }

  lemma ParseAfterMinutes(minutes: nat, seconds: nat)
    requires 0 < minutes < 60 && seconds < 60
    ensures ParseAfterCount(minutes, MinutesTail(minutes, seconds)) == Some(MinSec(minutes, seconds))
  {
    var tail := MinutesTail(minutes, seconds);
    assert |UnitSuffix(minutes, "sec")| < |tail|;
    var prefix := UnitSuffix(minutes, "min") + " ";
    assert tail[..|prefix|] == prefix;
    assert tail[|prefix|..] == Counted(seconds, "sec");
  }

  lemma ParseMinutesText(minutes: nat, seconds: nat)
    requires 0 < minutes < 60 && seconds < 60
    ensures ParseDuration(Counted(minutes, "min") + " " + Counted(seconds, "sec")) ==
              Some(MinSec(minutes, seconds))
  {
    var tail := MinutesTail(minutes, seconds);
    var s := Counted(minutes, "min") + " " + Counted(seconds, "sec");
    assert s == NatToString(minutes) + tail by {
      assert Counted(minutes, "min") == NatToString(minutes) + UnitSuffix(minutes, "min");
    }
    assert s != OverAnHourText by {
      assert IsDigit(s[0]);
    }
    assert tail[0] == ' ';
    SplitCounted(minutes, tail);
    assert ParseDuration(s) == ParseAfterCount(minutes, tail);
    ParseAfterMinutes(minutes, seconds);
  }

  /** Below the cap the text gives back the whole minutes and the remaining
      whole seconds; at or above it, it says only "over an hour". */
  lemma GetDurationRoundTrip(dateInterval: DateInterval)
    ensures var total := Duration(dateInterval).Floor;
            ParseDuration(GetDuration(dateInterval)) ==
              Some(if Duration(dateInterval) >= 3600.0 then OverAnHour else MinSec(total / 60, total % 60))
  {
    var duration := Duration(dateInterval);
    if duration < 3600.0 {
      var total: nat := duration.Floor;
      if total / 60 == 0 {
        ParseSecondsText(total % 60);
      } else {
        ParseMinutesText(total / 60, total % 60);
      }
    }
  }

  /** Below the cap the text shows a minutes count and a seconds count, both
      under sixty, that recombine to the whole seconds of the duration; the
      minutes count is zero only when the text is the seconds part alone. */
  lemma DurationParts(dateInterval: DateInterval)
    requires Duration(dateInterval) < 3600.0
    ensures exists minutes: nat, seconds: nat ::
              && ParseDuration(GetDuration(dateInterval)) == Some(MinSec(minutes, seconds))
              && minutes < 60 && seconds < 60
              && minutes * 60 + seconds == Duration(dateInterval).Floor
              && (minutes == 0 <==> GetDuration(dateInterval) == Counted(seconds, "sec"))
  {
    var total: nat := Duration(dateInterval).Floor;
    GetDurationRoundTrip(dateInterval);
    var minutes, seconds := total / 60, total % 60;
    if minutes != 0 {
      var r := GetDuration(dateInterval);
      assert r == Counted(minutes, "min") + " " + Counted(seconds, "sec");
      assert ParseDuration(Counted(seconds, "sec")) == Some(MinSec(0, seconds)) by {
        ParseSecondsText(seconds);
      }
    }
    assert ParseDuration(GetDuration(dateInterval)) == Some(MinSec(minutes, seconds));
  }

  /** Two durations under an hour get the same text exactly when they have the
      same whole seconds. */
  lemma GetDurationInjective(a: DateInterval, b: DateInterval)
    requires Duration(a) < 3600.0 && Duration(b) < 3600.0
    ensures GetDuration(a) == GetDuration(b) <==> Duration(a).Floor == Duration(b).Floor
  {
    GetDurationRoundTrip(a);
    GetDurationRoundTrip(b);
    var ta: nat, tb: nat := Duration(a).Floor, Duration(b).Floor;
    if GetDuration(a) == GetDuration(b) {
      assert ta / 60 == tb / 60 && ta % 60 == tb % 60;
    }
  }

}
