/**
 * The remaining-time display of app.js `getRemainingTimer`. The clock reading
 * and the parsing of the stored timestamp are left to the caller: both instants
 * arrive as milliseconds.
 */
module Timer {
  import opened Wrappers

  /** What the display shows: `-` or a number of seconds. */
  datatype TimerReading = NoTimer | SecondsLeft(seconds: int)

  /** Whole seconds from `lastActionMs` to `nowMs`, rounded down (JavaScript `Math.floor(ms / 1000)`). */
  function ElapsedSeconds(lastActionMs: int, nowMs: int): (e: int)
    ensures e * 1000 <= nowMs - lastActionMs < e * 1000 + 1000
  {
    (nowMs - lastActionMs) / 1000
  }

  /**
   * No timer before any action or while the table is waiting; otherwise the turn
   * length minus the elapsed whole seconds, never below zero.
   */
  function RemainingTimer(lastActionMs: Option<int>, phase: string, turnSeconds: int, nowMs: int): (r: TimerReading)
    ensures r.NoTimer? <==> lastActionMs.None? || phase == "waiting"
    ensures r.SecondsLeft? ==>
      var e := ElapsedSeconds(lastActionMs.value, nowMs);
      && r.seconds >= 0
      && (r.seconds == 0 <==> e >= turnSeconds)
      && (r.seconds > 0 ==> r.seconds + e == turnSeconds)
  {
    if lastActionMs.None? || phase == "waiting" then NoTimer
    else
      var elapsed := ElapsedSeconds(lastActionMs.value, nowMs);
      SecondsLeft(if turnSeconds - elapsed > 0 then turnSeconds - elapsed else 0)
  }

  /** The countdown never goes up as time passes, and never exceeds a non-negative turn length. */
  lemma RemainingNeverIncreases(lastActionMs: int, phase: string, turnSeconds: int, now1: int, now2: int)
    requires phase != "waiting" && now1 <= now2
    ensures var r1 := RemainingTimer(Some(lastActionMs), phase, turnSeconds, now1);
            var r2 := RemainingTimer(Some(lastActionMs), phase, turnSeconds, now2);
            r1.SecondsLeft? && r2.SecondsLeft? && r2.seconds <= r1.seconds
    ensures lastActionMs <= now1 && turnSeconds >= 0 ==>
      RemainingTimer(Some(lastActionMs), phase, turnSeconds, now1).seconds <= turnSeconds
  {
    var e1 := ElapsedSeconds(lastActionMs, now1);
    var e2 := ElapsedSeconds(lastActionMs, now2);
    assert e1 <= e2;
  }
}
