/** The caching handlers: `/cache` (answers any conditional request with 304),
    `/cache/<n>` (sets a Cache-Control lifetime) and `/etag/<etag>` (answers
    If-None-Match and If-Match against a caller-supplied entity tag). */
module Cache {

  import opened Options
  import opened Text
  import opened Http
  import opened StatusCodes

  // ---------------------------------------------------------------- /cache

  predicate IsHexDigit(c: char) {
    '0' <= c <= '9' || 'a' <= c <= 'f'
  }

  /** The form of `uuid.uuid4().hex`: 32 lower-case hexadecimal digits. */
  predicate IsUuidHex(s: string) {
    |s| == 32 && forall i :: 0 <= i < |s| ==> IsHexDigit(s[i])
  }

  type UuidHex = s: string | IsUuidHex(s) witness "00000000000000000000000000000000"

  /** What `/cache` draws from the clock and the random generator, supplied
      by the caller: the body timestamp, the `http_date()` of now, and a fresh
      `uuid4().hex`. */
  datatype Fresh = Fresh(timestamp: string, httpDate: string, token: UuidHex)

  /** The handler's test `If-Modified-Since or If-None-Match`, which is `None`
      only when the first is missing or empty and the second is missing. */
  predicate IsConditional(req: Request) {
    Or(req.Get("If-Modified-Since"), req.Get("If-None-Match")).Some?
  }

  /** `/cache`: a 200 with fresh validators, or the status handler's 304. */
  function CacheHandler(req: Request, draw: Fresh): (r: Response)
    ensures r.Reply?
    ensures r.status == 200 || r.status == 304
    ensures r.status == 200 <==> !Truthy(req.Get("If-Modified-Since")) && req.Get("If-None-Match").None?
    ensures r.status == 304 ==> r == StatusCode(304) && r.HeaderValue("Location") == Some("/get")
    ensures r.status == 200 ==> r.HeaderValue("ETag") == Some(draw.token)
    ensures r.status == 200 ==> r.HeaderValue("Last-Modified") == Some(draw.httpDate)
  {
    if !IsConditional(req) then
      var body := JObj(map["timestamp" := JStr(draw.timestamp), "message" := JStr("Returns with no cache")]);
      Reply(200, [], JsonBody(body))
        .WithHeader("Last-Modified", draw.httpDate)
        .WithHeader("ETag", draw.token)
    else
      StatusCode(304)
  }

  /** A present but empty If-None-Match still makes the request conditional:
      Python's `or` yields `""`, which is not `None`. */
  lemma EmptyIfNoneMatchIsConditional(req: Request, draw: Fresh)
    requires req.Get("If-None-Match") == Some("")
    ensures CacheHandler(req, draw).status == 304
  {
  }

  /** The ETag of a 200 from `/cache` is 32 lower-case hex digits. */
  lemma FreshETagIsUuidHex(req: Request, draw: Fresh)
    requires CacheHandler(req, draw).status == 200
    ensures var t := CacheHandler(req, draw).HeaderValue("ETag"); t.Some? && IsUuidHex(t.value)
  {
  }

  /** Replaying the ETag of a 200 as If-None-Match yields 304, however often
      it is replayed and whatever else the request carries. */
  lemma ReplayedETagNotModified(first: Request, f1: Fresh, again: Request, f2: Fresh)
    requires CacheHandler(first, f1).status == 200
    requires again.Get("If-None-Match") == CacheHandler(first, f1).HeaderValue("ETag")
    ensures CacheHandler(again, f2).status == 304
  {
  }

  // ---------------------------------------------------------------- /cache/<n>

  const MaxAgeDirective := "max-age="
  const CacheControlLead := "public, max-age="

  /** The Cache-Control value `/cache/<n>` sets: `f"public, max-age={n}"`. */
  function CacheControlValue(n: nat): string {
    Interpolate(CacheControlLead, n, "")
  }

  /** The lifetime a client reads from the first `max-age=<digits>` directive
      of a Cache-Control value (the directive of section 5.2.2.8 of RFC 7234),
      taking directives as comma-separated and whitespace-trimmed. */
  function MaxAge(value: string): Option<nat> {
    FirstMaxAge(Split(value, ','))
  }

  function FirstMaxAge(directives: seq<string>): Option<nat>
    decreases |directives|
  {
    if directives == [] then None
    else
      var age := ReadInterpolated(MaxAgeDirective, Strip(directives[0]), "");
      if age.Some? then age else FirstMaxAge(directives[1..])
  }

  const CacheMessageLead := "Cache will be valid for "
  const CacheMessageTail := " seconds"

  /** `/cache/<n>`: a 200 whose Cache-Control value carries the lifetime `n`
      and whose message states the same `n`. */
  function CacheControl(n: nat, timestamp: string): (r: Response)
    ensures r.Reply? && r.status == 200
    ensures r.HeaderValue("Cache-Control") == Some(CacheControlValue(n))
    ensures MaxAge(r.HeaderValue("Cache-Control").value) == Some(n)
    ensures r.body.JsonBody? && r.body.json.JObj? && "message" in r.body.json.fields
    ensures r.body.json.fields["message"].JStr?
    ensures ReadInterpolated(CacheMessageLead, r.body.json.fields["message"].s, CacheMessageTail) == Some(n)
  {
    ReadCacheControl(n);
    ReadInterpolate(CacheMessageLead, n, CacheMessageTail);
    var body := JObj(map[
      "message" := JStr(Interpolate(CacheMessageLead, n, CacheMessageTail)),
      "timestamp" := JStr(timestamp)
    ]);
    Reply(200, [], JsonBody(body)).WithHeader("Cache-Control", CacheControlValue(n))
  }

  /** The header `/cache/<n>` writes is the `public` directive followed by
      `max-age=<n>`, and reads back as lifetime `n`. */
  lemma ReadCacheControl(n: nat)
    ensures Split(CacheControlValue(n), ',') == ["public", " " + MaxAgeDirective + NatToString(n)]
    ensures MaxAge(CacheControlValue(n)) == Some(n)
  {
    var directives := Split(CacheControlValue(n), ',');
    DirectivesOf(n);
    assert directives[1..] == [directives[1]];
    assert Strip(directives[0]) == "public" by {
      StripTrimmed("public");
    }
    assert Strip(directives[1]) == Interpolate(MaxAgeDirective, n, "") by {
      StripDirective(NatToString(n));
    }
    ReadInterpolate(MaxAgeDirective, n, "");
    assert |MaxAgeDirective| > |"public"|;
    assert ReadInterpolated(MaxAgeDirective, "public", "") == None;
    assert FirstMaxAge(directives[1..]) == Some(n);
  }

  /** The value splits into the `public` directive and the `max-age` one. */
  lemma DirectivesOf(n: nat)
    ensures Split(CacheControlValue(n), ',') == ["public", " " + MaxAgeDirective + NatToString(n)]
  {
    var tail := " " + MaxAgeDirective + NatToString(n);
    assert CacheControlValue(n) == "public" + [','] + tail;
    SplitAfterField("public", ',', tail);
    SplitWhole(tail, ',');
  }

  lemma StripDirective(digits: string)
    requires Canonical(digits)
    ensures Strip(" " + MaxAgeDirective + digits) == MaxAgeDirective + digits
  {
    var d := MaxAgeDirective + digits;
    assert " " + MaxAgeDirective + digits == [' '] + d;
    assert d[0] == 'm';
    assert IsDigit(d[|d| - 1]) by {
      assert d[|d| - 1] == digits[|digits| - 1];
    }
    StripTrimmed(d);
    StripLeadingSpace(' ', d);
  }

  // ---------------------------------------------------------------- /etag/<etag>

  /** The handler's loose test: the header contains the tag as a substring,
      or contains `*` anywhere (not the comparison of section 2.3.2 of RFC 7232). */
  predicate Matches(header: string, etag: string) {
    Contains(header, etag) || Contains(header, "*")
  }

  /** The normal 200 response, carrying the tag exactly as it came in the path. */
  function EtagNormal(etag: string, timestamp: string): (r: Response)
    ensures r.Reply? && r.status == 200
    ensures r.HeaderValue("ETag") == Some(etag)
    ensures r.Field("message") == Some(JStr("Doesn't match any etags"))
  {
    var body := JObj(map["message" := JStr("Doesn't match any etags"), "timestamp" := JStr(timestamp)]);
    Reply(200, [], JsonBody(body)).WithHeader("ETag", etag)
  }

  /** `/etag/<etag>`: If-None-Match is consulted when non-empty, and only
      otherwise a non-empty If-Match. */
  function EtagHandler(etag: string, req: Request, timestamp: string): (r: Response)
    ensures r.Aborted? ==> r == Aborted(400)
    ensures r.Reply? ==> (r.status == 200 || r.status == 304) && r.HeaderValue("ETag") == Some(etag)
    ensures r.StatusLine() == 304 <==> Truthy(req.Get("If-None-Match")) && Matches(req.Get("If-None-Match").value, etag)
    ensures r.StatusLine() == 304 ==> r.HeaderValue("Location") == Some("/get")
    ensures r.Aborted? <==> !Truthy(req.Get("If-None-Match")) && Truthy(req.Get("If-Match"))
                            && !Matches(req.Get("If-Match").value, etag)
  {
    var ifNoneMatch := req.Get("If-None-Match");
    var ifMatch := req.Get("If-Match");
    if Truthy(ifNoneMatch) then
      if Matches(ifNoneMatch.value, etag) then
        NotModifiedWithTag(etag);
        StatusCode(304).WithHeader("ETag", etag)
      else
        EtagNormal(etag, timestamp)
    else if Truthy(ifMatch) then
      if !Matches(ifMatch.value, etag) then
        NotInTable(412);
        StatusCode(412)
      else
        EtagNormal(etag, timestamp)
    else
      EtagNormal(etag, timestamp)
  }

  /** The status handler's 304 with the tag added keeps its redirect target. */
  lemma NotModifiedWithTag(etag: string)
    ensures var r := StatusCode(304).WithHeader("ETag", etag);
      && r.Reply? && r.status == 304
      && r.HeaderValue("ETag") == Some(etag)
      && r.HeaderValue("Location") == Some("/get")
  {
    var base := StatusCode(304);
    assert base.Reply? && base.HeaderValue("Location") == Some("/get");
    assert !SameName("Location", "ETag") by {
      assert ToLower("Location")[0] == 'l';
    }
  }

  /** A non-empty If-None-Match decides alone: two requests that agree on it
      get the same answer whatever their If-Match says. */
  lemma IfMatchIgnoredAfterIfNoneMatch(etag: string, a: Request, b: Request, timestamp: string)
    requires Truthy(a.Get("If-None-Match"))
    requires a.Get("If-None-Match") == b.Get("If-None-Match")
    ensures EtagHandler(etag, a, timestamp) == EtagHandler(etag, b, timestamp)
  {
  }

  /** A non-empty, non-matching If-None-Match gives the normal 200. */
  lemma NonMatchingIfNoneMatch(etag: string, req: Request, timestamp: string)
    requires Truthy(req.Get("If-None-Match")) && !Matches(req.Get("If-None-Match").value, etag)
    ensures EtagHandler(etag, req, timestamp) == EtagNormal(etag, timestamp)
    ensures EtagNormal(etag, timestamp).status == 200
  {
  }

  /** Any If-None-Match that embeds the tag matches: the quoted form
      `"tag"` and the weak form `W/"tag"` both give 304. */
  lemma EmbeddedTagNotModified(etag: string, pre: string, post: string, req: Request, timestamp: string)
    requires req.Get("If-None-Match") == Some(pre + etag + post)
    requires pre + etag + post != ""
    ensures EtagHandler(etag, req, timestamp).status == 304
  {
    ContainsSelf(etag);
    ContainsInContext(pre, etag, post, etag);
  }

  lemma WeakTagNotModified(etag: string, req: Request, timestamp: string)
    requires req.Get("If-None-Match") == Some("W/\"" + etag + "\"")
    ensures EtagHandler(etag, req, timestamp).status == 304
  {
    EmbeddedTagNotModified(etag, "W/\"", "\"", req, timestamp);
  }

  /** If-None-Match sent on two lines arrives comma-joined, so a tag on the
      second line is still found. */
  lemma RepeatedIfNoneMatchJoined(etag: string, first: string, remote: Option<string>, timestamp: string)
    ensures var req := Request([Header("If-None-Match", first), Header("If-None-Match", etag)], remote);
      EtagHandler(etag, req, timestamp).StatusLine() == 304
  {
    RepeatedHeaderJoined(Header("If-None-Match", first), Header("If-None-Match", etag), "If-None-Match");
    ContainsSelf(etag);
    ContainsInContext(first + ",", etag, "", etag);
    assert first + "," + etag + "" == first + "," + etag;
  }

  /** A failing If-Match asks the status handler for 412, which is not in its
      table, so the request aborts with 400. */
  lemma FailedIfMatchAborts(etag: string, req: Request, timestamp: string)
    requires !Truthy(req.Get("If-None-Match"))
    requires Truthy(req.Get("If-Match")) && !Matches(req.Get("If-Match").value, etag)
    ensures EtagHandler(etag, req, timestamp) == Aborted(400)
  {
    MissingCodesAbort();
  }

  /** In every other case the answer is the normal 200 with the raw tag. */
  lemma OtherwiseNormal(etag: string, req: Request, timestamp: string)
    requires !Truthy(req.Get("If-None-Match"))
    requires !Truthy(req.Get("If-Match")) || Matches(req.Get("If-Match").value, etag)
    ensures EtagHandler(etag, req, timestamp) == EtagNormal(etag, timestamp)
    ensures EtagNormal(etag, timestamp).status == 200
    ensures EtagNormal(etag, timestamp).HeaderValue("ETag") == Some(etag)
  {
  }
}
