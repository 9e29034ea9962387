/** The `/delay/<n>` handler of the dynamic-data blueprint, a copy of the
    inspection one that differs only in how it formats its timestamp (an
    opaque input here). */
module DynamicData {

  import opened Options
  import opened Text
  import opened Http
  import Inspect

  /** `/delay/<n>`: refuses over 60 seconds before sleeping, exactly as the
      inspection handler does. */
  function DelayResponse(seconds: nat, clock: Inspect.Clock): (d: Inspect.Delayed)
    ensures d == Inspect.DelayResponse(seconds, clock)
    ensures d.sleep.Some? <==> seconds <= 60
  {
    if seconds > 60 then
      Inspect.Delayed(None, Reply(400, [], JsonBody(JObj(map["error" := JStr("Maximum delay is 60 seconds")]))))
    else
      Inspect.Delayed(Some(seconds), Reply(200, [], JsonBody(JObj(map[
        "delay" := JNum(seconds),
        "actual_delay" := clock.actualDelay,
        "timestamp" := JStr(clock.timestamp),
        "message" := JStr("Delayed response after " + NatToString(seconds) + " seconds")
      ]))))
  }
}
