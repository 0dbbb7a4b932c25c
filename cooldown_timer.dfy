/**
 * The client's cooldown countdown: the time left until the next spin,
 * shown as `M:SS`, or nothing once it has run out.
 */
module CooldownTimer {
  import opened Common
  import Decimal

  /** One timer update: the text shown and whether `onCooldownComplete` fires. */
  datatype Tick = Tick(text: string, completed: bool)

  /** Whole minutes and leftover whole seconds of a positive remaining time in milliseconds. */
  function Split(diff: int): (ms: (nat, nat))
    requires diff > 0
    ensures ms.1 <= 59
    ensures ms.0 * 60000 + ms.1 * 1000 <= diff
    ensures diff < ms.0 * 60000 + (ms.1 + 1) * 1000
  {
    (diff / 60000, (diff % 60000) / 1000)
  }

  /** `M:SS` form: decimal digits, a colon, then exactly two digits. */
  predicate ClockShape(text: string) {
    && |text| >= 4 && text[|text| - 3] == ':'
    && Decimal.AllDigits(text[..|text| - 3]) && Decimal.AllDigits(text[|text| - 2..])
  }

  /** The minutes a clock text reads as. */
  function MinutesOf(text: string): nat
    requires ClockShape(text)
  {
    Decimal.DecimalValue(text[..|text| - 3])
  }

  /** The seconds a clock text reads as. */
  function SecondsOf(text: string): nat
    requires ClockShape(text)
  {
    Decimal.DecimalValue(text[|text| - 2..])
  }

  /**
   * `${minutes}:${seconds.toString().padStart(2, '0')}`: the minutes in
   * decimal without leading zeros, a colon, then exactly two digits of
   * seconds; the text reads back as the two numbers.
   */
  function Clock(minutes: nat, seconds: nat): (text: string)
    requires seconds <= 59
    ensures ClockShape(text)
    ensures MinutesOf(text) == minutes && SecondsOf(text) == seconds
    ensures text[0] == '0' ==> |text| == 4
  {
    ClockParts(minutes, seconds);
    Decimal.DecimalDigits(minutes) + ":" + Decimal.PadStart2(Decimal.DecimalDigits(seconds))
  }

  lemma ClockParts(minutes: nat, seconds: nat)
    requires seconds <= 59
    ensures var text := Decimal.DecimalDigits(minutes) + ":" + Decimal.PadStart2(Decimal.DecimalDigits(seconds));
      && ClockShape(text) && (text[0] == '0' ==> |text| == 4)
      && MinutesOf(text) == minutes && SecondsOf(text) == seconds
  {
    Decimal.DecimalRoundTrip(minutes);
    Decimal.PaddedRoundTrip(seconds);
    ColonSplit(Decimal.DecimalDigits(minutes), Decimal.PadStart2(Decimal.DecimalDigits(seconds)), minutes, seconds);
  }

  /** Digits, a colon and two more digits read back as the two numbers they denote. */
  lemma ColonSplit(m: string, s: string, minutes: nat, seconds: nat)
    requires 1 <= |m| && Decimal.AllDigits(m) && Decimal.DecimalValue(m) == minutes
    requires |s| == 2 && Decimal.AllDigits(s) && Decimal.DecimalValue(s) == seconds
    ensures var text := m + ":" + s;
      && ClockShape(text) && text[..|text| - 3] == m && text[0] == m[0]
      && MinutesOf(text) == minutes && SecondsOf(text) == seconds
  {
    var text := m + ":" + s;
    assert text[..|text| - 3] == m;
    assert text[|text| - 2..] == s;
  }

  /**
   * The countdown text for `diff` milliseconds left: it reads back as the
   * whole minutes and the leftover whole seconds, rounded down to the second,
   * and the minutes carry no leading zero.
   */
  function CountdownText(diff: int): (text: string)
    requires diff > 0
    ensures ClockShape(text) && SecondsOf(text) <= 59
    ensures text[0] == '0' ==> |text| == 4
    ensures MinutesOf(text) * 60000 + SecondsOf(text) * 1000 <= diff
    ensures diff < MinutesOf(text) * 60000 + (SecondsOf(text) + 1) * 1000
  {
    var ms := Split(diff);
    Clock(ms.0, ms.1)
  }

  /**
   * `updateTimer`, with the effect's check for a missing `nextAllowedAt`:
   * no deadline gives no text; a deadline reached gives no text and fires
   * the completion callback; otherwise the callback does not fire and the
   * text is the countdown for the time left.
   */
  function UpdateTimer(nextAllowedAt: Option<int>, now: int): (t: Tick)
    ensures nextAllowedAt.None? ==> t == Tick("", false)
    ensures nextAllowedAt.Some? ==> (t.completed <==> nextAllowedAt.value <= now)
    ensures nextAllowedAt.Some? ==> (|t.text| == 0 <==> nextAllowedAt.value <= now)
    ensures nextAllowedAt.Some? && now < nextAllowedAt.value ==>
      && ClockShape(t.text) && SecondsOf(t.text) <= 59 && (t.text[0] == '0' ==> |t.text| == 4)
      && MinutesOf(t.text) * 60000 + SecondsOf(t.text) * 1000 <= nextAllowedAt.value - now
      && nextAllowedAt.value - now < MinutesOf(t.text) * 60000 + (SecondsOf(t.text) + 1) * 1000
  {
    if nextAllowedAt.None? then Tick("", false)
    else
      var timeDiff := nextAllowedAt.value - now;
      if timeDiff <= 0 then Tick("", true) else Tick(CountdownText(timeDiff), false)
  }

  /** In the last second of the cooldown the timer shows `0:00`. */
  lemma UpdateTimerLastSecond(deadline: int, now: int)
    requires 0 < deadline - now < 1000
    ensures UpdateTimer(Some(deadline), now).text == "0:00"
  {
    assert Split(deadline - now) == (0, 0);
    assert CountdownText(deadline - now) == Clock(0, 0);
    assert Decimal.DecimalDigits(0) == "0";
    assert Decimal.PadStart2("0") == "00";
  }

  /** The component renders only while there is text: exactly while the cooldown has time left. */
  function Visible(nextAllowedAt: Option<int>, now: int): (shown: bool)
    ensures shown <==> nextAllowedAt.Some? && now < nextAllowedAt.value
  {
    nextAllowedAt.Some? && |UpdateTimer(nextAllowedAt, now).text| != 0
  }
}
