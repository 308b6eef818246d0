/**
 * The remaining-time label shown while translating
 * (`estimatedTimeLeftString`): remaining items times the running mean of
 * seconds per item, printed as `Xm Ys` or `Ys`.
 */
module Eta {
  import opened Wrappers
  import opened Chars

  function Digit(d: nat): (c: char)
    requires d < 10
    ensures '0' <= c <= '9'
  {
    ('0' as int + d) as char
  }

  function DigitValue(c: char): nat
    requires '0' <= c <= '9'
  {
    c as int - '0' as int
  }

  predicate IsDigits(s: string) {
    forall k :: 0 <= k < |s| ==> '0' <= s[k] <= '9'
  }

  /** An `Int` as string interpolation prints a non-negative one: decimal
      digits, no leading zero. */
  function Decimal(n: nat): (r: string)
    ensures |r| > 0 && IsDigits(r)
    ensures |r| > 1 ==> r[0] != '0'
    decreases n
  {
    if n < 10 then [Digit(n)] else Decimal(n / 10) + [Digit(n % 10)]
  }

  /** The number a string of decimal digits denotes. */
  function DecimalValue(s: string): nat
    requires IsDigits(s)
    decreases |s|
  {
    if s == [] then 0 else DecimalValue(s[..|s| - 1]) * 10 + DigitValue(s[|s| - 1])
  }

  lemma {:induction false} DecimalRoundTrip(n: nat)
    ensures DecimalValue(Decimal(n)) == n
    decreases n
  {
    if n >= 10 {
      var r := Decimal(n);
      DecimalRoundTrip(n / 10);
      assert r[..|r| - 1] == Decimal(n / 10);
    }
  }

  /** Seconds as the label prints them: whole minutes and the seconds left
      over, the minutes only when there is at least one. */
  function FormatDuration(seconds: nat): string {
    var minutes := seconds / 60;
    if minutes > 0 then Decimal(minutes) + "m " + Decimal(seconds % 60) + "s"
    else Decimal(seconds % 60) + "s"
  }

  /** Reads a label back: `Xm Ys` or `Ys` with decimal X and Y. */
  function ParseDuration(t: string): Option<nat> {
    if |t| < 2 || t[|t| - 1] != 's' then None
    else match FindChar(t, 'm', 0)
      case None =>
        var digits := t[..|t| - 1];
        if IsDigits(digits) then Some(DecimalValue(digits)) else None
      case Some(i) =>
        if i + 2 > |t| - 1 || t[i + 1] != ' ' then None
        else
          var minutes, seconds := t[..i], t[i + 2..|t| - 1];
          if IsDigits(minutes) && IsDigits(seconds) then Some(DecimalValue(minutes) * 60 + DecimalValue(seconds))
          else None
  }

  /** A label with minutes reads back as its minutes and seconds: `t` holds
      the digits `m`, then `m `, then the digits `sec`, then `s`. */
  lemma ParseMinutesSeconds(m: string, sec: string, t: string)
    requires |m| > 0 && IsDigits(m) && IsDigits(sec)
    requires |t| == |m| + |sec| + 3 && t[..|m|] == m && t[|m| + 2..|t| - 1] == sec
    requires t[|m|] == 'm' && t[|m| + 1] == ' ' && t[|t| - 1] == 's'
    ensures ParseDuration(t) == Some(DecimalValue(m) * 60 + DecimalValue(sec))
  {
    var i := |m|;
    forall k | 0 <= k < i
      ensures t[k] != 'm'
    {
      assert t[k] == m[k];
    }
    FindCharIs(t, 'm', 0, i);
  }

  /** A label of seconds alone reads back as those seconds. */
  lemma ParseSecondsOnly(sec: string, t: string)
    requires |sec| > 0 && IsDigits(sec)
    requires |t| == |sec| + 1 && t[..|sec|] == sec && t[|sec|] == 's'
    ensures ParseDuration(t) == Some(DecimalValue(sec))
  {
    forall k | 0 <= k < |t|
      ensures t[k] != 'm'
    {
      if k < |sec| {
        assert t[k] == sec[k];
      }
    }
    assert FindChar(t, 'm', 0).None?;
  }

  /** Where the parts of a label with minutes sit. */
  lemma LabelWithMinutes(m: string, sec: string, t: string)
    requires t == m + "m " + sec + "s"
    ensures |t| == |m| + |sec| + 3 && t[..|m|] == m && t[|m| + 2..|t| - 1] == sec
    ensures t[|m|] == 'm' && t[|m| + 1] == ' ' && t[|t| - 1] == 's'
  {
  }

  /** Where the seconds of a label without minutes sit. */
  lemma LabelOfSeconds(sec: string, t: string)
    requires t == sec + "s"
    ensures |t| == |sec| + 1 && t[..|sec|] == sec && t[|sec|] == 's'
  {
  }

  /** The label gives the number of seconds back, so two different numbers
      of seconds never print alike. */
  lemma ParseFormatted(seconds: nat)
    ensures ParseDuration(FormatDuration(seconds)) == Some(seconds)
  {
    var minutes := seconds / 60;
    var s := Decimal(seconds % 60);
    var t := FormatDuration(seconds);
    DecimalRoundTrip(seconds % 60);
    if minutes > 0 {
      var m := Decimal(minutes);
      DecimalRoundTrip(minutes);
      LabelWithMinutes(m, s, t);
      ParseMinutesSeconds(m, s, t);
    } else {
      LabelOfSeconds(s, t);
      ParseSecondsOnly(s, t);
    }
  }

  function Max(a: int, b: int): int { if a >= b then a else b }

  function MaxReal(a: real, b: real): real { if a >= b then a else b }

  /** Remaining items times the mean seconds per item, a negative mean
      counting as zero. */
  function SecondsLeft(remaining: nat, averageSeconds: real): real {
    remaining as real * MaxReal(averageSeconds, 0.0)
  }

  /** The label, if any: none unless translating with a positive total, none
      when the time left is not positive; otherwise the time left truncated
      to whole seconds. */
  function EstimatedTimeLeft(isTranslating: bool, total: int, translated: int, averageSeconds: real): Option<string> {
    if !isTranslating || total <= 0 then None
    else
      var secondsLeft := SecondsLeft(Max(total - translated, 0), averageSeconds);
      if secondsLeft <= 0.0 then None
      else Some(FormatDuration(secondsLeft.Floor))
  }

  /** The time left is positive exactly when something remains and a positive
      mean has been measured. */
  lemma SecondsLeftPositive(remaining: nat, averageSeconds: real)
    ensures SecondsLeft(remaining, averageSeconds) > 0.0 <==> remaining > 0 && averageSeconds > 0.0
  {
    var a := remaining as real;
    if remaining > 0 && averageSeconds > 0.0 {
      assert a * averageSeconds >= 1.0 * averageSeconds;
    } else if remaining == 0 {
      assert a * MaxReal(averageSeconds, 0.0) == 0.0;
    } else {
      assert a * MaxReal(averageSeconds, 0.0) == a * 0.0;
    }
  }

  /** There is no label exactly when translation is off, the total is not
      positive, nothing remains, or no positive time per item has been
      measured. */
  lemma EstimatedTimeLeftNone(isTranslating: bool, total: int, translated: int, averageSeconds: real)
    ensures EstimatedTimeLeft(isTranslating, total, translated, averageSeconds).None?
        <==> !isTranslating || total <= 0 || translated >= total || averageSeconds <= 0.0
  {
    SecondsLeftPositive(Max(total - translated, 0), averageSeconds);
  }

  /** A label reads back as the whole seconds of the time left. */
  lemma EstimatedTimeLeftValue(isTranslating: bool, total: int, translated: int, averageSeconds: real)
    requires EstimatedTimeLeft(isTranslating, total, translated, averageSeconds).Some?
    ensures translated < total && averageSeconds > 0.0
    ensures ParseDuration(EstimatedTimeLeft(isTranslating, total, translated, averageSeconds).value)
         == Some(SecondsLeft(total - translated, averageSeconds).Floor)
  {
    EstimatedTimeLeftNone(isTranslating, total, translated, averageSeconds);
    var secondsLeft := SecondsLeft(total - translated, averageSeconds);
    assert Max(total - translated, 0) == total - translated;
    ParseFormatted(secondsLeft.Floor);
  }

  /** Less than a second left prints as `0s`. */
  lemma UnderOneSecond()
    ensures EstimatedTimeLeft(true, 10, 9, 0.5) == Some("0s")
  {
    assert SecondsLeft(1, 0.5) == 0.5;
    assert FormatDuration(0) == "0s";
  }

  /** The two label forms. */
  lemma LabelForms()
    ensures FormatDuration(125) == "2m 5s"
    ensures FormatDuration(59) == "59s"
  {
    assert Decimal(59) == Decimal(5) + [Digit(9)];
  }
}
