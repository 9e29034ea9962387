/** The second copy of the `/ip` and `/user-agent` handlers, kept in its own
    blueprint file; it resolves the origin with the same rule. */
module RequestInspect {

  import opened Options
  import opened Http
  import Inspect

  /** `/ip` as this file writes it: the same `or`-chain over the same inputs,
      so it answers every request exactly as the other copy does. */
  function GetIp(req: Request): (r: Response)
    ensures r == Inspect.GetIp(req)
    ensures r.Field("origin") == Some(JOpt(Inspect.ResolveOrigin(req)))
  {
    var origin := Options.Or(
      Options.Or(Some(Inspect.ForwardedClient(req.Get("X-Forwarded-For"))), req.Get("X-Real-IP")),
      req.remoteAddr);
    Reply(200, [], JsonBody(Inspect.IpPayload(origin, req.Get("X-Forwarded-For"), req.Get("X-Real-IP"), req.remoteAddr)))
  }

  /** `/user-agent` as this file writes it: the same defaults, so the same
      answer as the other copy. */
  function GetUserAgent(req: Request): (r: Response)
    ensures r == Inspect.GetUserAgent(req)
    ensures req.Get("User-Agent").None? <==> r.Field("user-agent") == Some(JStr(Inspect.UnknownAgent))
                                              && req.Get("User-Agent") != Some(Inspect.UnknownAgent)
  {
    Reply(200, [], JsonBody(JObj(map[
      "user-agent" := JStr(req.Get("User-Agent").GetOr("Unknown")),
      "accept" := JStr(req.Get("Accept").GetOr("")),
      "accept-language" := JStr(req.Get("Accept-Language").GetOr("")),
      "accept-encoding" := JStr(req.Get("Accept-Encoding").GetOr(""))
    ])))
  }
}
