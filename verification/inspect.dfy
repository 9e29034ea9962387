/** The request-inspection handlers `/ip`, `/user-agent` and `/delay/<n>`,
    including the rule that resolves the client's origin address. */
module Inspect {

  import opened Options
  import opened Text
  import opened Http

  // ---------------------------------------------------------------- /ip

  /** `X-Forwarded-For.split(",")[0].strip()`, with a missing header read as
      `""`: the first comma-separated field, trimmed. */
  function ForwardedClient(xff: Option<string>): (f: string)
    ensures ',' !in f && Trimmed(f)
    ensures xff.None? ==> f == ""
  {
    var s := xff.GetOr("");
    var field := Split(s, ',')[0];
    StripWithin(field);
    Strip(field)
  }

  /** The forwarded client is the stretch of the header before its first
      comma (all of it when there is none), trimmed. */
  lemma ForwardedClientIsFirstField(xff: Option<string>)
    ensures var s := xff.GetOr("");
      exists k :: 0 <= k <= |s| && ',' !in s[..k] && (k == |s| || s[k] == ',')
                  && ForwardedClient(xff) == Strip(s[..k])
  {
    var s := xff.GetOr("");
    var field := Split(s, ',')[0];
    assert field == s[..|field|];
  }

  /** The origin `/ip` reports: `forwarded or X-Real-IP or REMOTE_ADDR`. */
  function ResolveOrigin(req: Request): (o: Option<string>)
    ensures o == Some(ForwardedClient(req.Get("X-Forwarded-For"))) || o == req.Get("X-Real-IP") || o == req.remoteAddr
    ensures Truthy(o) <==> ForwardedClient(req.Get("X-Forwarded-For")) != "" || Truthy(req.Get("X-Real-IP")) || Truthy(req.remoteAddr)
  {
    Or(Or(Some(ForwardedClient(req.Get("X-Forwarded-For"))), req.Get("X-Real-IP")), req.remoteAddr)
  }

  /** The forwarded client when that is non-empty, else X-Real-IP when
      non-empty, else `REMOTE_ADDR` as it is (possibly empty or missing). */
  lemma OriginPrecedence(req: Request)
    ensures ForwardedClient(req.Get("X-Forwarded-For")) != "" ==>
      ResolveOrigin(req) == Some(ForwardedClient(req.Get("X-Forwarded-For")))
    ensures ForwardedClient(req.Get("X-Forwarded-For")) == "" && Truthy(req.Get("X-Real-IP")) ==>
      ResolveOrigin(req) == req.Get("X-Real-IP")
    ensures ForwardedClient(req.Get("X-Forwarded-For")) == "" && !Truthy(req.Get("X-Real-IP")) ==>
      ResolveOrigin(req) == req.remoteAddr
  {
  }

  /** An origin that differs from both fallbacks came from X-Forwarded-For,
      and so has no comma and no surrounding whitespace. */
  lemma OriginFromForwardedIsClean(req: Request)
    requires ResolveOrigin(req) != req.Get("X-Real-IP") && ResolveOrigin(req) != req.remoteAddr
    ensures ResolveOrigin(req).Some?
    ensures ',' !in ResolveOrigin(req).value && Trimmed(ResolveOrigin(req).value)
  {
    OriginPrecedence(req);
  }

  /** For `X-Forwarded-For: a, b` the client is `a` trimmed. */
  lemma ForwardedTakesFirstField(a: string, b: string)
    requires ',' !in a
    ensures ForwardedClient(Some(a + "," + b)) == Strip(a)
  {
    assert a + "," + b == a + [','] + b;
    SplitFirstField(a, ',', b);
  }

  /** A first field that is blank, such as in `" , 10.0.0.1"`, makes the
      handler ignore X-Forwarded-For entirely. */
  lemma BlankFirstFieldIgnored(req: Request, a: string, b: string)
    requires ',' !in a && AllSpace(a)
    requires req.Get("X-Forwarded-For") == Some(a + "," + b)
    ensures Truthy(req.Get("X-Real-IP")) ==> ResolveOrigin(req) == req.Get("X-Real-IP")
    ensures !Truthy(req.Get("X-Real-IP")) ==> ResolveOrigin(req) == req.remoteAddr
  {
    ForwardedTakesFirstField(a, b);
    StripAllSpace(a);
    OriginPrecedence(req);
  }

  /** The `/ip` payload: the origin and the three raw inputs, unchanged. */
  function IpPayload(origin: Option<string>, xff: Option<string>, realIp: Option<string>, remote: Option<string>): Json {
    JObj(map[
      "origin" := JOpt(origin),
      "headers" := JObj(map[
        "X-Forwarded-For" := JOpt(xff),
        "X-Real-IP" := JOpt(realIp),
        "Remote-Addr" := JOpt(remote)
      ])
    ])
  }

  /** `/ip`: reports the resolved origin and echoes the raw header values. */
  function GetIp(req: Request): (r: Response)
    ensures r.Reply? && r.status == 200 && r.headers == []
    ensures r.Field("origin") == Some(JOpt(ResolveOrigin(req)))
  {
    var payload := IpPayload(ResolveOrigin(req), req.Get("X-Forwarded-For"), req.Get("X-Real-IP"), req.remoteAddr);
    Reply(200, [], JsonBody(payload))
  }

  /** `/ip` echoes the three inputs unchanged, a missing one as `null`. */
  lemma IpEchoesInputs(req: Request)
    ensures var echo := GetIp(req).Field("headers");
      && echo.Some?
      && echo.value.Get("X-Forwarded-For") == Some(JOpt(req.Get("X-Forwarded-For")))
      && echo.value.Get("X-Real-IP") == Some(JOpt(req.Get("X-Real-IP")))
      && echo.value.Get("Remote-Addr") == Some(JOpt(req.remoteAddr))
  {
    var xff, realIp := req.Get("X-Forwarded-For"), req.Get("X-Real-IP");
    var payload := IpPayload(ResolveOrigin(req), xff, realIp, req.remoteAddr);
    assert GetIp(req).Field("headers") == payload.Get("headers");
    IpPayloadEcho(ResolveOrigin(req), xff, realIp, req.remoteAddr);
  }

  lemma IpPayloadEcho(origin: Option<string>, xff: Option<string>, realIp: Option<string>, remote: Option<string>)
    ensures var echo := IpPayload(origin, xff, realIp, remote).Get("headers");
      && echo.Some?
      && echo.value.Get("X-Forwarded-For") == Some(JOpt(xff))
      && echo.value.Get("X-Real-IP") == Some(JOpt(realIp))
      && echo.value.Get("Remote-Addr") == Some(JOpt(remote))
  {
  }

  // ---------------------------------------------------------------- /user-agent

  const UnknownAgent := "Unknown"

  /** The `/user-agent` payload: User-Agent defaults to `"Unknown"`, the three
      Accept headers to `""`. */
  function AgentPayload(req: Request): Json {
    JObj(map[
      "user-agent" := JStr(req.Get("User-Agent").GetOr(UnknownAgent)),
      "accept" := JStr(req.Get("Accept").GetOr("")),
      "accept-language" := JStr(req.Get("Accept-Language").GetOr("")),
      "accept-encoding" := JStr(req.Get("Accept-Encoding").GetOr(""))
    ])
  }

  /** `/user-agent`: each header verbatim when present (even when empty), the
      default only when it is missing. */
  function GetUserAgent(req: Request): (r: Response)
    ensures r.Reply? && r.status == 200 && r.headers == []
    ensures req.Get("User-Agent").Some? ==> r.Field("user-agent") == Some(JStr(req.Get("User-Agent").value))
    ensures req.Get("User-Agent").None? ==> r.Field("user-agent") == Some(JStr(UnknownAgent))
    ensures r.Field("accept") == Some(JStr(req.Get("Accept").GetOr("")))
    ensures r.Field("accept-language") == Some(JStr(req.Get("Accept-Language").GetOr("")))
    ensures r.Field("accept-encoding") == Some(JStr(req.Get("Accept-Encoding").GetOr("")))
  {
    Reply(200, [], JsonBody(AgentPayload(req)))
  }

  /** `"Unknown"` in the payload means the header was missing, unless the
      client literally sent `Unknown`. */
  lemma UnknownAgentOnlyWhenAbsent(req: Request)
    requires GetUserAgent(req).Field("user-agent") == Some(JStr(UnknownAgent))
    ensures req.Get("User-Agent").None? || req.Get("User-Agent") == Some(UnknownAgent)
  {
  }

  // ---------------------------------------------------------------- /delay/<n>

  const MaxDelay: nat := 60
  const DelayError := "Maximum delay is 60 seconds"
  const DelayedLead := "Delayed response after "
  const DelayedTail := " seconds"

  /** What the handler measures around its sleep, supplied by the caller: the
      rounded elapsed time (a float, kept opaque) and the timestamp. */
  datatype Clock = Clock(actualDelay: Json, timestamp: string)

  /** A handler outcome together with how long it asked to sleep: `None` when
      it returned without sleeping. */
  datatype Delayed = Delayed(sleep: Option<nat>, response: Response)

  /** `/delay/<n>`: over 60 seconds is refused with a 400 before any sleep;
      otherwise the handler sleeps `n` seconds and reports `n`. */
  function DelayResponse(seconds: nat, clock: Clock): (d: Delayed)
    ensures d.response.Reply? && d.response.headers == []
    ensures d.response.status == 400 <==> seconds > MaxDelay
    ensures d.response.status == 400 ==> d.sleep.None? && d.response.Field("error") == Some(JStr(DelayError))
    ensures d.response.status != 400 ==> d.response.status == 200 && d.sleep == Some(seconds)
    ensures d.response.status != 400 ==> d.response.Field("delay") == Some(JNum(seconds))
    ensures d.response.status != 400 ==>
      && d.response.Field("message").Some? && d.response.Field("message").value.JStr?
      && ReadInterpolated(DelayedLead, d.response.Field("message").value.s, DelayedTail) == Some(seconds)
  {
    if seconds > MaxDelay then
      Delayed(None, Reply(400, [], JsonBody(JObj(map["error" := JStr(DelayError)]))))
    else
      ReadInterpolate(DelayedLead, seconds, DelayedTail);
      Delayed(Some(seconds), Reply(200, [], JsonBody(DelayPayload(seconds, clock))))
  }

  function DelayPayload(seconds: nat, clock: Clock): Json {
    JObj(map[
      "delay" := JNum(seconds),
      "actual_delay" := clock.actualDelay,
      "timestamp" := JStr(clock.timestamp),
      "message" := JStr(Interpolate(DelayedLead, seconds, DelayedTail))
    ])
  }

  /** The bound is inclusive: 60 seconds is served, 61 refused. */
  lemma DelayBoundary(clock: Clock)
    ensures DelayResponse(60, clock).response.status == 200
    ensures DelayResponse(61, clock).response.status == 400
  {
  }
}
