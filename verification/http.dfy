/** The request and response values the route handlers read and build: a JSON
    document, header lists with the case-insensitive lookup and replacement
    the web framework provides, a response, and a request. */
module Http {

  import opened Options
  import opened Text

  /** A JSON value as `jsonify` produces it; objects are unordered. */
  datatype Json = JNull | JNum(n: int) | JStr(s: string) | JObj(fields: map<string, Json>) {

    /** The member `key` of an object. */
    function Get(key: string): Option<Json> {
      if JObj? && key in fields then Some(fields[key]) else None
    }
  }

  /** A Python `str` or `None` as a JSON value. */
  function JOpt(o: Option<string>): (j: Json)
    ensures o.None? <==> j == JNull
    ensures o.Some? ==> j == JStr(o.value)
  {
    match o
    case None => JNull
    case Some(s) => JStr(s)
  }

  // ---------------------------------------------------------------- headers

  datatype Header = Header(name: string, value: string)

  type Headers = seq<Header>

  /** Header names compare without regard to ASCII case. */
  predicate SameName(a: string, b: string) {
    ToLower(a) == ToLower(b)
  }

  /** `response.headers.get(name)` on a response's header list: the value of
      the first header of that name. */
  function GetHeader(hs: Headers, name: string): Option<string> {
    if hs == [] then None
    else if SameName(hs[0].name, name) then Some(hs[0].value)
    else GetHeader(hs[1..], name)
  }

  /** The headers of `hs` whose name is not `name`, in order. */
  function RemoveHeader(hs: Headers, name: string): (r: Headers)
    ensures forall h :: h in r <==> h in hs && !SameName(h.name, name)
    ensures forall n :: !SameName(n, name) ==> GetHeader(r, n) == GetHeader(hs, n)
  {
    if hs == [] then []
    else if SameName(hs[0].name, name) then RemoveHeader(hs[1..], name)
    else [hs[0]] + RemoveHeader(hs[1..], name)
  }

  /** `headers[name] = value`: the first header of that name is replaced in
      place and every later one dropped; with none, the header is appended. */
  function SetHeader(hs: Headers, name: string, value: string): (r: Headers)
    ensures Header(name, value) in r
    ensures forall h :: h in r <==> h == Header(name, value) || (h in hs && !SameName(h.name, name))
    ensures GetHeader(r, name) == Some(value)
    ensures forall n :: !SameName(n, name) ==> GetHeader(r, n) == GetHeader(hs, n)
  {
    if hs == [] then [Header(name, value)]
    else if SameName(hs[0].name, name) then [Header(name, value)] + RemoveHeader(hs[1..], name)
    else [hs[0]] + SetHeader(hs[1..], name, value)
  }

  // ---------------------------------------------------------------- responses

  /** A response body: none, a JSON document, or the bytes of a packaged file
      (opaque here; named by its path). */
  datatype Body = NoBody | JsonBody(json: Json) | FileBody(path: string)

  /** What a handler produces: a response, or the HTTP error an `abort(code)`
      raises, which the framework turns into its own error page. */
  datatype Response =
    | Reply(status: nat, headers: Headers, body: Body)
    | Aborted(code: nat)
  {
    /** The status line the client sees. */
    function StatusLine(): nat {
      match this
      case Reply(s, _, _) => s
      case Aborted(c) => c
    }

    function HeaderValue(name: string): Option<string> {
      if Reply? then GetHeader(headers, name) else None
    }

    /** The member `key` of a JSON body. */
    function Field(key: string): Option<Json> {
      if Reply? && body.JsonBody? then body.json.Get(key) else None
    }

    /** `response.headers[name] = value` on a response object. */
    function WithHeader(name: string, value: string): (r: Response)
      requires Reply?
      ensures r.Reply? && r.status == status && r.body == body
      ensures r.HeaderValue(name) == Some(value)
      ensures forall n :: !SameName(n, name) ==> r.HeaderValue(n) == HeaderValue(n)
    {
      Reply(status, SetHeader(headers, name, value), body)
    }
  }

  // ---------------------------------------------------------------- requests

  /** The value a request header reaches the handler with. The WSGI server
      folds every header line of one name into a single environment entry,
      joining their values with `,` in arrival order, and `request.headers`
      reads that entry. */
  function JoinedHeader(hs: Headers, name: string): Option<string>
    decreases |hs|
  {
    if hs == [] then None
    else
      var rest := JoinedHeader(hs[1..], name);
      if !SameName(hs[0].name, name) then rest
      else if rest.None? then Some(hs[0].value)
      else Some(hs[0].value + "," + rest.value)
  }

  /** A header is missing exactly when no line of that name was sent. */
  lemma {:induction false} JoinedHeaderAbsent(hs: Headers, name: string)
    ensures JoinedHeader(hs, name).None? <==> forall h :: h in hs ==> !SameName(h.name, name)
    decreases |hs|
  {
    if hs != [] {
      JoinedHeaderAbsent(hs[1..], name);
      assert forall h :: h in hs ==> h == hs[0] || h in hs[1..];
    }
  }

  /** A header sent on one line only arrives verbatim. */
  lemma {:induction false} SingleHeaderVerbatim(pre: Headers, h: Header, post: Headers, name: string)
    requires SameName(h.name, name)
    requires forall g :: g in pre + post ==> !SameName(g.name, name)
    ensures JoinedHeader(pre + [h] + post, name) == Some(h.value)
    decreases |pre|
  {
    var hs := pre + [h] + post;
    if pre == [] {
      assert hs[1..] == post;
      assert forall g :: g in post ==> g in pre + post;
      JoinedHeaderAbsent(post, name);
    } else {
      assert hs[1..] == pre[1..] + [h] + post;
      assert hs[0] == pre[0] && pre[0] in pre + post;
      assert forall g :: g in pre[1..] + post ==> g in pre + post;
      SingleHeaderVerbatim(pre[1..], h, post, name);
    }
  }

  /** Two header lines of the same name arrive as one value, comma-joined. */
  lemma RepeatedHeaderJoined(a: Header, b: Header, name: string)
    requires SameName(a.name, name) && SameName(b.name, name)
    ensures JoinedHeader([a, b], name) == Some(a.value + "," + b.value)
  {
    assert [a, b][1..] == [b];
    assert [b][1..] == [];
    assert JoinedHeader([b], name) == Some(b.value);
  }

  /** The parts of a request the handlers read: its header lines as sent and
      the peer address the server recorded (`REMOTE_ADDR`, which may be
      missing). */
  datatype Request = Request(headers: Headers, remoteAddr: Option<string>) {
    /** `request.headers.get(name)`. */
    function Get(name: string): Option<string> {
      JoinedHeader(headers, name)
    }
  }
}
