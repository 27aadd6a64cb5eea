/**
 * Countdown arithmetic shared by both pages: the seconds left until an
 * absolute end time in milliseconds, and the `m:ss` text it is shown as.
 */
module Clock {
  import opened Wrappers
  import opened Js

  /** `Math.max(0, Math.floor((endMs - nowMs) / 1000))`: whole seconds left, never negative. */
  function Countdown(endMs: int, nowMs: int): (r: nat)
    ensures r == 0 <==> endMs - nowMs < 1000
    ensures endMs - nowMs >= 0 ==> r * 1000 <= endMs - nowMs < r * 1000 + 1000
  {
    var diff := (endMs - nowMs) / 1000;
    if diff < 0 then 0 else diff
  }

  /** The countdown of a parsed end time; a NaN end time gives NaN seconds. */
  function CountdownNum(endMs: Num, nowMs: int): Num
  {
    match endMs
    case Int(e) => Int(Countdown(e, nowMs))
    case NaN => NaN
  }

  /** `diff <= 0` on a countdown value: false for NaN. */
  predicate Expired(diff: Num)
  {
    diff.Int? && diff.value <= 0
  }

  /** As time goes on the countdown never goes up. */
  lemma CountdownNonIncreasing(endMs: int, earlier: int, later: int)
    requires earlier <= later
    ensures Countdown(endMs, later) <= Countdown(endMs, earlier)
  {
  }

  /** However late a single evaluation comes, once the end time has passed it reads 0. */
  lemma CountdownAfterEnd(endMs: int, nowMs: int)
    requires nowMs >= endMs
    ensures Countdown(endMs, nowMs) == 0
  {
  }

  /** An end time set `minutes` minutes ahead counts down from exactly `minutes * 60` seconds. */
  lemma CountdownFromStart(nowMs: int, minutes: nat)
    ensures Countdown(nowMs + minutes * 60 * 1000, nowMs) == minutes * 60
  {
  }

  /** JavaScript `a % b` for b > 0: the remainder takes the sign of a. */
  function JsRem(a: int, b: int): (r: int)
    requires b > 0
    ensures a >= 0 ==> 0 <= r < b
    ensures a < 0 ==> -b < r <= 0
    ensures (a - r) % b == 0
  {
    RemainderGaps(a, b);
    if a >= 0 then a % b else -((-a) % b)
  }

  /** Taking off the remainder, or adding that of the negation, leaves a multiple of b. */
  lemma RemainderGaps(a: int, b: int)
    requires b > 0
    ensures (a - a % b) % b == 0 && (a + (-a) % b) % b == 0
  {
    DivModPositive(a, b);
    MultipleRem(b, a / b);
    DivModPositive(-a, b);
    MultipleRem(b, 0 - (-a) / b);
    assert a + (-a) % b == b * (0 - (-a) / b);
  }

  /** A multiple of a positive divisor leaves no remainder. */
  lemma MultipleRem(b: int, k: int)
    requires b > 0
    ensures (b * k) % b == 0
  {
    DivModPositive(b * k, b);
    var q := (b * k) / b;
    assert b * (k - q) == (b * k) % b;
    if k - q > 0 {
      ProductSign(b, q - k);
      assert false;
    } else if k - q < 0 {
      ProductSign(b, k - q);
      assert false;
    }
  }
  /** `${Math.floor(sec / 60)}:${(sec % 60).toString().padStart(2, '0')}`. */
  function FormatTime(sec: int): string
  {
    IntToString(sec / 60) + ":" + Pad2(IntToString(JsRem(sec, 60)))
  }

  /** The student page's `formatTime`: NaN shows as nothing. */
  function DisplayTime(sec: Num): string
  {
    match sec
    case NaN => ""
    case Int(i) => FormatTime(i)
  }

  /** The teacher page's `formatTime`: no value shows as nothing, NaN as `NaN:NaN`. */
  function TeacherTime(sec: Option<Num>): string
  {
    match sec
    case None => ""
    case Some(NaN) => "NaN:NaN"
    case Some(Int(i)) => FormatTime(i)
  }

  /**
   * `r` shows `sec` seconds as unpadded minutes (a leading zero only for
   * zero minutes), a colon and exactly two digits of seconds below 60, and
   * reading both parts back gives `sec` again.
   */
  predicate ShowsSeconds(r: string, sec: nat)
  {
    |r| >= 4 && r[|r| - 3] == ':' && (r[0] == '0' ==> |r| == 4) &&
    AllDigits(r[..|r| - 3]) && AllDigits(r[|r| - 2..]) &&
    DigitsValue(r[|r| - 2..]) < 60 &&
    DigitsValue(r[..|r| - 3]) * 60 + DigitsValue(r[|r| - 2..]) == sec
  }

  /** For a non-negative count of seconds the text reads back as that count. */
  lemma FormatTimeReadsBack(sec: nat)
    ensures ShowsSeconds(FormatTime(sec), sec)
  {
    var m, k := sec / 60, sec % 60;
    assert JsRem(sec, 60) == k;
    var mm := NatToString(m);
    var ss := Pad2(NatToString(k));
    assert FormatTime(sec) == mm + ":" + ss;
    Pad2Digits(k);
    NatToStringValue(m);
    DivModPositive(sec, 60);
    ShowsParts(mm, ss, sec);
  }

  /** Minutes text, a colon and two digits show the seconds they add up to. */
  lemma ShowsParts(mm: string, ss: string, sec: nat)
    requires |mm| >= 1 && |ss| == 2 && AllDigits(mm) && AllDigits(ss)
    requires mm[0] == '0' ==> |mm| == 1
    requires DigitsValue(ss) < 60 && DigitsValue(mm) * 60 + DigitsValue(ss) == sec
    ensures ShowsSeconds(mm + ":" + ss, sec)
  {
    var r := mm + ":" + ss;
    assert r[..|r| - 3] == mm;
    assert r[|r| - 2..] == ss;
  }

  /**
   * The student page shows nothing for a NaN countdown and any countdown
   * that is a number of seconds in the `m:ss` form that reads back.
   */
  lemma DisplayTimeShows(sec: Num)
    ensures sec.NaN? ==> DisplayTime(sec) == ""
    ensures sec.Int? && sec.value >= 0 ==> ShowsSeconds(DisplayTime(sec), sec.value)
  {
    if sec.Int? && sec.value >= 0 {
      FormatTimeReadsBack(sec.value);
    }
  }

  /**
   * The teacher page shows nothing before a countdown exists, `NaN:NaN` for
   * a NaN countdown, and a countdown in seconds in the `m:ss` form that reads back.
   */
  lemma TeacherTimeShows(sec: Option<Num>)
    ensures sec.None? ==> TeacherTime(sec) == ""
    ensures sec == Some(NaN) ==> TeacherTime(sec) == "NaN:NaN"
    ensures sec.Some? && sec.value.Int? && sec.value.value >= 0 ==>
      ShowsSeconds(TeacherTime(sec), sec.value.value)
  {
    if sec.Some? && sec.value.Int? && sec.value.value >= 0 {
      FormatTimeReadsBack(sec.value.value);
    }
  }
}
