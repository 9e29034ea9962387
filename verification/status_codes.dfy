/** The `/status/<code>` handler, the hub the other handlers call to produce a
    status response, and `/status/random`. */
module StatusCodes {

  import opened Options
  import opened Text
  import opened Http

  /** The fixed table of codes the handler knows, with their reason phrases.
      406 and 412 are not in it. */
  const Descriptions: map<nat, string> := map[
    200 := "OK",
    201 := "Created",
    202 := "Accepted",
    204 := "No Content",
    300 := "Multiple Choices",
    301 := "Moved Permanently",
    302 := "Found",
    304 := "Not Modified",
    400 := "Bad Request",
    401 := "Unauthorized",
    403 := "Forbidden",
    404 := "Not Found",
    405 := "Method Not Allowed",
    408 := "Request Timeout",
    409 := "Conflict",
    410 := "Gone",
    413 := "Payload Too Large",
    414 := "URI Too Long",
    415 := "Unsupported Media Type",
    418 := "I'm a teapot",
    422 := "Unprocessable Entity",
    429 := "Too Many Requests",
    500 := "Internal Server Error",
    501 := "Not Implemented",
    502 := "Bad Gateway",
    503 := "Service Unavailable",
    504 := "Gateway Timeout",
    505 := "HTTP Version Not Supported"
  ]

  const UnknownMessage := "Unknown Status Code"

  /** The codes `/status/random` picks from. */
  const CommonCodes: seq<nat> := [200, 201, 400, 401, 403, 404, 500, 502, 503]

  predicate IsRedirect(code: nat) {
    300 <= code < 400
  }

  /** The message placed in the payload: the table's phrase, or the fallback. */
  function Message(code: nat): (m: string)
    ensures code in Descriptions ==> m == Descriptions[code]
    ensures code !in Descriptions ==> m == UnknownMessage
  {
    if code in Descriptions then Descriptions[code] else UnknownMessage
  }

  /** No phrase in the table is the fallback text, so the fallback in a
      payload always means the code was not in the table. */
  lemma FallbackNotInTable()
    ensures forall c :: c in Descriptions ==> Descriptions[c] != UnknownMessage
  {
  }

  // ---------------------------------------------------------------- description

  const DescriptionLead := "This is a "
  const DescriptionTail := " response from HTTPilot"

  /** The payload's `description`: `f"This is a {code} {message} response from HTTPilot"`. */
  function DescriptionText(code: nat, message: string): string {
    DescriptionLead + NatToString(code) + " " + message + DescriptionTail
  }

  /** Reads the code and message back out of a description. */
  function ParseDescription(s: string): (r: Option<(nat, string)>)
    ensures r.Some? ==> DescriptionText(r.value.0, r.value.1) == s
  {
    if |s| >= |DescriptionLead| + |DescriptionTail|
       && s[..|DescriptionLead|] == DescriptionLead
       && s[|s| - |DescriptionTail|..] == DescriptionTail then
      var mid := s[|DescriptionLead|..|s| - |DescriptionTail|];
      var k := DigitRun(mid);
      if 0 < k < |mid| && mid[k] == ' ' && Canonical(mid[..k]) then
        Reassembled(s, mid, k);
        Some((DigitsValue(mid[..k]), mid[k + 1..]))
      else None
    else None
  }

  /** The parts `ParseDescription` reads out rebuild the description. */
  lemma Reassembled(s: string, mid: string, k: nat)
    requires |s| >= |DescriptionLead| + |DescriptionTail|
    requires s[..|DescriptionLead|] == DescriptionLead
    requires s[|s| - |DescriptionTail|..] == DescriptionTail
    requires mid == s[|DescriptionLead|..|s| - |DescriptionTail|]
    requires 0 < k < |mid| && mid[k] == ' ' && Canonical(mid[..k])
    ensures DescriptionText(DigitsValue(mid[..k]), mid[k + 1..]) == s
  {
    NatToStringOfDigits(mid[..k]);
    Framed(s, DescriptionLead, DescriptionTail);
    SplitAtSpace(mid, k);
  }

  /** A string with a known lead and tail is the lead, the middle and the tail. */
  lemma Framed(s: string, lead: string, tail: string)
    requires |s| >= |lead| + |tail|
    requires s[..|lead|] == lead && s[|s| - |tail|..] == tail
    ensures s == lead + s[|lead|..|s| - |tail|] + tail
  {
  }

  lemma SplitAtSpace(mid: string, k: nat)
    requires k < |mid| && mid[k] == ' '
    ensures mid == mid[..k] + " " + mid[k + 1..]
  {
  }

  /** Every description names its code and message recoverably. */
  lemma ReadDescription(code: nat, message: string)
    ensures ParseDescription(DescriptionText(code, message)) == Some((code, message))
  {
    var s := DescriptionText(code, message);
    var d := NatToString(code);
    assert s[..|DescriptionLead|] == DescriptionLead;
    assert s[|s| - |DescriptionTail|..] == DescriptionTail;
    var mid := s[|DescriptionLead|..|s| - |DescriptionTail|];
    assert mid == d + (" " + message);
    DigitRunOfPrefix(d, " " + message);
    assert mid[..|d|] == d;
    assert mid[|d| + 1..] == message;
    ReadNatToString(code);
  }

  // ---------------------------------------------------------------- classification

  /** Which branch of the handler a code takes. */
  datatype Outcome =
    | Empty204
    | Redirect(code: nat, message: string)
    | Known(code: nat, message: string)
    | Abort400

  /** The branches in the order the handler tests them: 204 first, then any
      3xx code (known or not), then the table, and otherwise an abort. */
  function Classify(code: nat): (o: Outcome)
    ensures o.Empty204? <==> code == 204
    ensures o.Redirect? <==> IsRedirect(code)
    ensures o.Known? <==> code != 204 && !IsRedirect(code) && code in Descriptions
    ensures o.Abort400? <==> code != 204 && !IsRedirect(code) && code !in Descriptions
    ensures o.Redirect? || o.Known? ==> o.code == code && o.message == Message(code)
  {
    if code == 204 then Empty204
    else if IsRedirect(code) then Redirect(code, Message(code))
    else if code in Descriptions then Known(code, Message(code))
    else Abort400
  }

  /** The JSON payload shared by the redirect and table branches. */
  function Payload(code: nat, message: string): Json {
    JObj(map[
      "status" := JNum(code),
      "message" := JStr(message),
      "description" := JStr(DescriptionText(code, message))
    ])
  }

  /** The response each branch produces. */
  function Render(o: Outcome): Response {
    match o
    case Empty204 => Reply(204, [], NoBody)
    case Redirect(c, m) => Reply(c, [Header("Location", "/get")], JsonBody(Payload(c, m)))
    case Known(c, m) => Reply(c, [], JsonBody(Payload(c, m)))
    case Abort400 => Aborted(400)
  }

  /** `status_code(code)`: a response whose status is the requested code, or
      an abort with 400. */
  function StatusCode(code: nat): (r: Response)
    ensures r.Aborted? <==> code != 204 && !IsRedirect(code) && code !in Descriptions
    ensures r.Aborted? ==> r.code == 400
    ensures r.Reply? ==> r.status == code
    ensures code == 204 ==> r == Reply(204, [], NoBody)
    ensures IsRedirect(code) ==> r.HeaderValue("Location") == Some("/get")
    ensures r.Reply? && code != 204 ==> r.body == JsonBody(Payload(code, Message(code)))
  {
    Render(Classify(code))
  }

  /** The payload of every non-empty reply describes the reply's own status:
      its `status` field is the status line, and its `description` reads
      back as that status and the `message` field. */
  lemma PayloadMatchesStatus(code: nat)
    requires StatusCode(code).Reply? && code != 204
    ensures var r := StatusCode(code);
      && r.body.JsonBody? && r.body.json.JObj?
      && r.body.json.fields["status"] == JNum(r.status)
      && ParseDescription(r.body.json.fields["description"].s)
         == Some((r.status, r.body.json.fields["message"].s))
  {
    ReadDescription(code, Message(code));
  }

  /** The fallback message can reach a client only in a 3xx response, because
      any other unknown code aborts. */
  lemma FallbackOnlyInRedirects(code: nat)
    requires StatusCode(code).Reply? && code != 204
    requires StatusCode(code).body.json.fields["message"] == JStr(UnknownMessage)
    ensures IsRedirect(code)
    ensures StatusCode(code).HeaderValue("Location") == Some("/get")
  {
    FallbackNotInTable();
  }

  /** Codes missing from the table and outside 3xx abort with 400: among them
      the 406 the image handler asks for and the 412 the ETag handler asks for. */
  lemma MissingCodesAbort()
    ensures StatusCode(406) == Aborted(400)
    ensures StatusCode(412) == Aborted(400)
    ensures StatusCode(999) == Aborted(400)
  {
    NotInTable(406);
    NotInTable(412);
    NotInTable(999);
  }

  lemma NotInTable(code: nat)
    requires code == 406 || code == 412 || code == 999
    ensures code !in Descriptions
  {
  }

  /** An unknown 3xx code is still a redirect, with the fallback message. */
  lemma UnknownRedirect()
    ensures StatusCode(399).Reply? && StatusCode(399).status == 399
    ensures StatusCode(399).body == JsonBody(Payload(399, UnknownMessage))
  {
  }

  // ---------------------------------------------------------------- random

  /** `/status/random` with the random choice supplied as an index into the
      list of common codes. */
  function RandomStatus(pick: nat): (r: Response)
    requires pick < |CommonCodes|
    ensures r.Reply? && r.status in CommonCodes
    ensures r.status != 204 && !IsRedirect(r.status) && r.status in Descriptions
    ensures r.body == JsonBody(Payload(r.status, Descriptions[r.status]))
  {
    StatusCode(CommonCodes[pick])
  }

  /** Every common code is reachable, and each one is answered as itself. */
  lemma RandomStatusCoversCommonCodes(code: nat)
    requires code in CommonCodes
    ensures exists pick :: 0 <= pick < |CommonCodes| && RandomStatus(pick).status == code
  {
    var pick :| 0 <= pick < |CommonCodes| && CommonCodes[pick] == code;
    assert RandomStatus(pick).status == code;
  }
}
