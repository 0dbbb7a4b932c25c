/**
 * The five-minute cooldown rule of the spin function. Times are server
 * times in whole milliseconds; the elapsed time of the source, in minutes,
 * is the elapsed milliseconds divided by 60000.
 */
module Cooldown {
  import opened Common
  import Decimal

  /** Fixed in the spin function; the configuration's own value is not read. */
  const COOLDOWN_MINUTES: nat := 5
  const MS_PER_MINUTE: nat := 60000
  const COOLDOWN_MS: nat := 300000

  datatype Decision = Allowed | Denied(remainingMinutes: nat)

  /**
   * Decides a spin attempt from the time of the user's latest spin, if any.
   * A denial carries the wait rounded up to whole minutes.
   */
  function Check(lastSpin: Option<int>, now: int): (d: Decision)
    ensures lastSpin.None? ==> d == Allowed
    ensures lastSpin.Some? ==>
      (d.Allowed? <==> now - lastSpin.value >= COOLDOWN_MINUTES * MS_PER_MINUTE)
    ensures d.Denied? ==> 1 <= d.remainingMinutes
    ensures d.Denied? ==>
      && (d.remainingMinutes - 1) * MS_PER_MINUTE < COOLDOWN_MS - (now - lastSpin.value)
      && COOLDOWN_MS - (now - lastSpin.value) <= d.remainingMinutes * MS_PER_MINUTE
    ensures d.Denied? && now >= lastSpin.value ==> d.remainingMinutes <= COOLDOWN_MINUTES
  {
    match lastSpin
    case None => Allowed
    case Some(last) =>
      var elapsed := now - last;
      if elapsed >= COOLDOWN_MS then Allowed
      else Denied((COOLDOWN_MS - elapsed + MS_PER_MINUTE - 1) / MS_PER_MINUTE)
  }

  /**
   * The message of the `failed-precondition` error a denial throws: fixed
   * text around the wait in minutes, written in decimal without leading zeros.
   */
  function WaitMessage(remainingMinutes: nat): (m: string)
    ensures |m| > 12 + 35
    ensures m[..12] == "Please wait " && m[|m| - 35..] == " more minutes before spinning again"
    ensures Decimal.AllDigits(m[12..|m| - 35]) && Decimal.DecimalValue(m[12..|m| - 35]) == remainingMinutes
    ensures m[12] == '0' ==> |m| == 12 + 1 + 35
  {
    var digits := Decimal.DecimalDigits(remainingMinutes);
    var m := "Please wait " + digits + " more minutes before spinning again";
    Decimal.DecimalRoundTrip(remainingMinutes);
    assert m[12..|m| - 35] == digits;
    assert m[12] == digits[0];
    assert m[|m| - 35..] == " more minutes before spinning again";
    m
  }
}
