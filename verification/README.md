# HTTPilot route handlers in Dafny

HTTPilot is a Flask service for exercising HTTP clients. Its route handlers
echo the request back, or answer with a status, a caching behaviour, an image
or a header set that the client asked for. This project models the handlers
that make decisions. Each one is a pure function from a request (headers plus
the peer address) to a response: a status, headers, and a JSON or file body.
An `abort(code)` is modelled as a distinct `Aborted(code)` outcome.

Modules, one per file:

- `Options`, `Text`: the Python semantics the handlers rely on.
  - `or` on `str`/`None` values.
  - `str.lower` and `str.capitalize`.
  - `str.strip`, using the full `str.isspace` set.
  - `str.split(",")` and the substring test `in`.
  - `str(int)`, together with f-string interpolation and its read-back.
- `Http`: JSON values, header lists, responses and requests.
  - Lookup ignores ASCII case.
  - A request header sent on several lines reaches the handler as one value, the lines joined with `,` in arrival order, because the WSGI server folds them into one environment entry.
  - `headers[name] = value` replaces the first header of that name, drops the rest, or appends when there is none.
- `StatusCodes`: `/status/<code>`, which the other handlers call to build status responses, and `/status/random`.
- `Cache`: `/cache`, `/cache/<n>` and `/etag/<etag>`.
- `Image`: Accept negotiation in `/image`, and the four per-format routes.
- `Inspect`: `/ip`, `/user-agent` and `/delay/<n>`.
- `RequestInspect`: the second copy of `/ip` and `/user-agent`, proved equal to the first.
- `DynamicData`: the second copy of `/delay/<n>`, proved equal to the first.
- `ResponseInspect`: `/response-headers`.

The code and its test suite disagree in two places, and the model follows the
code:

- The image handler answers an unmatched Accept with `status_code(406)`.
- The ETag handler answers a failing If-Match with `status_code(412)`.

Neither 406 nor 412 is in the status table, and neither is a 3xx code, so
both requests abort with 400 (`StatusCodes.MissingCodesAbort`).

`/response-headers` emits one header per distinct capitalised name, never one
per query parameter:

- A key repeated in the URL yields one header carrying its first value, since
  `request.args.items()` gives each key once with its first value
  (`ResponseInspect.RepeatedKeyKeepsFirst`).
- Distinct keys that capitalise alike yield one header carrying the later
  value, since the handler's dict keeps the last assignment
  (`ResponseInspect.CollidingKeysCollapse`).

`src/app.py:27-31` registers only the `main`, `http_methods`, `status_codes`
and `inspect` blueprints. The cache, image, request-inspection,
response-inspection and dynamic-data handlers are modelled as the functions
their files define, whether or not an application mounts them.

## Model

| member | source | states |
|---|---|---|
| `Options.Or` | src/routes/inspect.py:22-26 | Python `a or b`: the result is `a` when `a` is a non-empty string, otherwise `b`. It is truthy exactly when one of the operands is. |
| `Text.Capitalize` | src/routes/response_inspect.py:17 | On ASCII input, `str.capitalize` keeps the length, upper-cases the first character and lower-cases the rest. |
| `Text.CapitalizeIdempotent` | src/routes/response_inspect.py:17 | A capitalised name is a fixed point of capitalisation. |
| `Text.ToLower` | src/routes/image.py:27 | `str.lower` on ASCII input keeps the length and lower-cases each character in place. |
| `Text.Contains` | src/routes/image.py:29-35 | The substring test `needle in hay`: the empty needle is in every string, and a needle longer than the haystack is in none. |
| `Text.ContainsIffOccurs` | src/routes/image.py:29-35 | The substring test `needle in hay` holds exactly when the needle occurs at some position of the haystack. |
| `Text.ContainsAcrossSeparator` | src/routes/image.py:29-35 | A needle without the separator occurs in `a + sep + b` exactly when it occurs in `a` or in `b`. |
| `Text.Split` | src/routes/inspect.py:23 | `split(",")` yields at least one field and no field contains the separator. The first field is the prefix of the input up to the first separator, or all of the input. |
| `Text.SplitJoin` | src/routes/inspect.py:23 | Joining the fields of a split with the separator gives back the input. |
| `Text.SplitFirstField` | src/routes/inspect.py:23 | When `a` has no separator, the first field of `a + sep + b` is `a`. |
| `Text.Strip` | src/routes/inspect.py:23 | `str.strip` yields a string with no leading or trailing whitespace. |
| `Text.StripSlice` | src/routes/inspect.py:23 | The stripped string is a contiguous slice of the input, and everything cut from either end is whitespace. |
| `Text.NatToString` | src/routes/status_codes.py:50 | `str(n)` is a canonical decimal numeral (no leading zero except for `0`). |
| `Text.ReadNatToString` | src/routes/status_codes.py:50 | The decimal digits of `str(n)` read back as `n`. |
| `Text.NatToStringOfDigits` | src/routes/status_codes.py:50 | Every canonical numeral is `str` of its value, so canonical numerals and naturals are in one-to-one correspondence. |
| `Text.ReadInterpolate` | src/routes/cache.py:35 | Text of the form `f"{pre}{n}{post}"` reads back as `n`. |
| `Http.SetHeader` | src/routes/cache.py:24-25 | `headers[name] = value` leaves the header present with that value, keeps other headers, and removes every other header of the same name regardless of case. |
| `Http.Response.WithHeader` | src/routes/cache.py:24-25 | `response.headers[name] = value` keeps the status and body, makes `name` read as `value`, and leaves every other name's value unchanged. |
| `Http.JoinedHeaderAbsent` | src/routes/image.py:24 | A request header is missing exactly when no line of that name was sent, whatever its letter case. |
| `Http.SingleHeaderVerbatim` | src/routes/cache.py:46 | A header sent on a single line reaches the handler verbatim. |
| `Http.RepeatedHeaderJoined` | src/routes/cache.py:46-47 | Two lines of one header reach the handler as their values joined with `,`. |
| `Http.RemoveHeader` | src/routes/cache.py:24-25 | Removing a name keeps exactly the headers of other names, and their lookups are unchanged. |
| `StatusCodes.Classify` | src/routes/status_codes.py:53-69 | 204 is tested first, then any code in [300, 400), then membership in the table. Every other code aborts. Each branch holds exactly under its condition. |
| `StatusCodes.StatusCode` | src/routes/status_codes.py:45-69 | The handler aborts with 400 exactly when the code is not 204, not 3xx and not in the table. Otherwise the status is the requested code. 204 has an empty body, a 3xx carries `Location: /get`, and the other replies carry the code's payload. |
| `StatusCodes.ReadDescription` | src/routes/status_codes.py:47-51 | The `description` text reads back as the code and the message it was built from. |
| `StatusCodes.PayloadMatchesStatus` | src/routes/status_codes.py:47-66 | In every non-empty reply, the payload's `status` is the status line, and its `description` names that status and the `message` field. |
| `StatusCodes.FallbackOnlyInRedirects` | src/routes/status_codes.py:45-69 | "Unknown Status Code" only reaches a client in a 3xx reply with `Location: /get`. |
| `StatusCodes.MissingCodesAbort` | src/routes/status_codes.py:14-43 | 406, 412 and 999 are absent from the table, so they abort with 400. |
| `StatusCodes.RandomStatus` | src/routes/status_codes.py:72-80 | The random route answers with one of the nine common codes. That code is in the table, it is not 204 or 3xx, and the reply carries its table payload. |
| `StatusCodes.RandomStatusCoversCommonCodes` | src/routes/status_codes.py:77-78 | Every common code can be drawn. |
| `Cache.CacheHandler` | src/routes/cache.py:14-28 | The reply is 200 exactly when If-Modified-Since is missing or empty and If-None-Match is missing. A 200 carries the drawn ETag and Last-Modified; otherwise the reply is the status handler's 304. |
| `Cache.EmptyIfNoneMatchIsConditional` | src/routes/cache.py:17-21 | An empty If-None-Match still gives 304, because `or` returns `""`, which is not `None`. |
| `Cache.ReplayedETagNotModified` | src/routes/cache.py:17-28 | Sending a 200's ETag back as If-None-Match gives 304. |
| `Cache.CacheControl` | src/routes/cache.py:31-40 | `/cache/<n>` answers 200 with Cache-Control exactly `public, max-age=<n>`. That value's first `max-age` directive reads as `n`, and the message states the same `n`. |
| `Cache.ReadCacheControl` | src/routes/cache.py:39 | `"public, max-age=<n>"` splits into exactly two directives, `public` and ` max-age=<n>`, and the value reads back as lifetime `n`. |
| `Cache.EtagHandler` | src/routes/cache.py:43-61 | The reply is 304 exactly when If-None-Match is non-empty and contains the tag or `*`. It aborts with 400 exactly when If-None-Match is missing or empty and a non-empty If-Match contains neither. Any other request gets a 200. Every reply that is not an abort carries the path's tag as its ETag. |
| `Cache.EtagNormal` | src/routes/cache.py:57-61 | The normal `/etag` reply is a 200 carrying the raw tag as its ETag and the "Doesn't match any etags" message. |
| `Cache.RepeatedIfNoneMatchJoined` | src/routes/cache.py:46-53 | If-None-Match sent on two lines, with the tag on the second, still gives 304. |
| `Cache.IfMatchIgnoredAfterIfNoneMatch` | src/routes/cache.py:49-56 | When If-None-Match is non-empty, If-Match is never consulted. |
| `Cache.EmbeddedTagNotModified` | src/routes/cache.py:50 | Any If-None-Match that embeds the tag (quoted, weak, in a list) matches. |
| `Cache.FailedIfMatchAborts` | src/routes/cache.py:54-56 | A failing If-Match asks for 412 and therefore aborts with 400. |
| `Cache.OtherwiseNormal` | src/routes/cache.py:57-61 | Every remaining case is the normal 200 with the raw tag. |
| `Image.FormatRoute` | src/routes/image.py:41-66 | Each per-format route answers 200 with its format's Content-Type. |
| `Image.ContentTypesDistinct` | src/routes/image.py:45-66 | The four routes use four different Content-Types. |
| `Image.Choose` | src/routes/image.py:29-38 | The chosen format is offered, and no offered format ranks above it in the order webp, svg+xml, jpeg, png (or the `image` wildcard). Nothing is chosen exactly when nothing is offered. |
| `Image.ImageHandler` | src/routes/image.py:20-38 | With no Accept header the answer is PNG. Otherwise the chosen format's route is served, and the request aborts with 400 exactly when no format is offered. |
| `Image.RepeatedAcceptServesPng` | src/routes/image.py:27-36 | Two Accept lines, `text/html` then `image/png`, arrive as one value that names PNG, so PNG is served. |
| `Image.CaseInsensitive` | src/routes/image.py:27 | Two Accept values that lower-case alike get the same answer. |
| `Image.OrderIrrelevant` | src/routes/image.py:29-36 | Swapping two comma-separated parts of the Accept value does not change the choice. |
| `Image.NoTokenAborts` | src/routes/image.py:29-38 | A bare any-type range, or an empty Accept, aborts with 400. |
| `Inspect.ForwardedClient` | src/routes/inspect.py:23 | The forwarded client contains no comma and no surrounding whitespace, and it is `""` when the header is missing. |
| `Inspect.ForwardedClientIsFirstField` | src/routes/inspect.py:23 | The forwarded client is the stripped stretch of the header before its first comma. |
| `Inspect.ResolveOrigin` | src/routes/inspect.py:22-26 | The origin is one of the three candidates (the forwarded client, X-Real-IP, `REMOTE_ADDR`), and it is non-empty exactly when one of them is. |
| `Inspect.OriginPrecedence` | src/routes/inspect.py:22-26 | The origin is the forwarded client when that is non-empty, else X-Real-IP when non-empty, else `REMOTE_ADDR` as given. |
| `Inspect.ForwardedTakesFirstField` | src/routes/inspect.py:23 | For `X-Forwarded-For: a, b` the client is `a` stripped. |
| `Inspect.BlankFirstFieldIgnored` | src/routes/inspect.py:22-26 | A blank first field makes the handler skip X-Forwarded-For entirely. |
| `Inspect.GetIp` | src/routes/inspect.py:18-37 | `/ip` answers 200 and reports the resolved origin. |
| `Inspect.IpEchoesInputs` | src/routes/inspect.py:31-35 | `/ip` echoes the three raw inputs unchanged, a missing one as `null`. |
| `Inspect.GetUserAgent` | src/routes/inspect.py:40-50 | Each header is reported verbatim when present, even when empty. A missing User-Agent is reported as "Unknown", and a missing Accept header of any of the three kinds as `""`. |
| `Inspect.UnknownAgentOnlyWhenAbsent` | src/routes/inspect.py:45 | "Unknown" is reported only for a missing User-Agent, or for one whose value is literally `Unknown`. |
| `Inspect.DelayResponse` | src/routes/inspect.py:59-76 | A request is refused with 400, before any sleep, exactly when `n > 60`. Otherwise the handler sleeps `n` seconds and reports `n` both in `delay` and in its message. |
| `Inspect.DelayBoundary` | src/routes/inspect.py:62 | The bound is inclusive: 60 is served, 61 is refused. |
| `RequestInspect.GetIp` | src/routes/request_inspect.py:14-33 | The second `/ip` answers every request exactly as the first. |
| `RequestInspect.GetUserAgent` | src/routes/request_inspect.py:36-46 | The second `/user-agent` answers every request exactly as the first. |
| `DynamicData.DelayResponse` | src/routes/dynamic_data.py:12-29 | Given the same clock readings, the second `/delay/<n>` answers as the first, and it sleeps exactly when `n <= 60`. The two copies format their timestamps differently; the clock hides that difference. |
| `ResponseInspect.ArgsItems` | src/routes/response_inspect.py:16 | `request.args.items()` has unique keys, exactly the query's keys, and gives each key its first value in the query. |
| `ResponseInspect.RepeatedKeyKeepsFirst` | src/routes/response_inspect.py:16-22 | A key repeated in the URL yields one header, carrying the first value. |
| `ResponseInspect.Put` | src/routes/response_inspect.py:17 | `d[k] = v` makes `k` a key with value `v`, changes no other key's value, and keeps the keys unique. |
| `ResponseInspect.Collect` | src/routes/response_inspect.py:13-17 | The collected dict has one key per distinct capitalised parameter name, and each key holds the value of the last parameter with that name. |
| `ResponseInspect.NamesOf` | src/routes/response_inspect.py:16-17 | A name is collected exactly when some parameter's key capitalises to it. |
| `ResponseInspect.ResponseHeaders` | src/routes/response_inspect.py:9-24 | The body maps each collected name to its last value. Every added header is one of those names with that value, and no two added headers share a name. |
| `ResponseInspect.AsHeaders` | src/routes/response_inspect.py:21-22 | One header is added per dict entry, in the dict's order, with the entry's name and value. |
| `ResponseInspect.EveryNameSent` | src/routes/response_inspect.py:21-22 | Every name in the body is also sent as a header with the same value. |
| `ResponseInspect.CollidingKeysCollapse` | src/routes/response_inspect.py:16-22 | Two keys that differ only in case become one header, with the later value. |
| `ResponseInspect.AddedHeadersDistinctIgnoringCase` | src/routes/response_inspect.py:21-22 | No two added headers name the same HTTP header, even when letter case is ignored. |

## Left out

- Framework-owned work is not modelled:
  - routing;
  - `<int:...>` converters, taken as non-negative integers;
  - blueprint registration;
  - the Content-Type and Content-Length headers that `jsonify` adds itself.
- `/response-headers` also sends the framework's own JSON Content-Type header. An added `Content-type` header therefore sits beside it, and that pairing is not modelled.
- `ResponseInspect.ResponseHeaders`: the framework refuses a header value containing CR or LF with a `ValueError`, which the application's 500 handler (`src/app.py:42-48`) answers. The model does not carry that error path and answers 200 for such values.
- `Cache.EtagHandler`: for the same reason, a tag containing CR or LF makes the program answer 500 wherever it sets the ETag header. The model does not carry that error path and answers 304 or 200.
- `DynamicData.DelayResponse`: the two `/delay/<n>` copies format the timestamp differently. `src/routes/inspect.py:73` writes `datetime.utcnow().isoformat() + "Z"`, with no offset. `src/routes/dynamic_data.py:26` calls `utcnow()` (`src/routes/utils.py:7-9`), which writes an aware time and so ends in `+00:00Z`. The clock is an opaque input, so equality with `Inspect.DelayResponse` holds only for the same clock readings and says nothing about that format.
- The server strips the body from 304 responses. The model does not apply that, and keeps the JSON body the status handler builds.
- Python's `str.lower`, `str.upper` and `str.capitalize` are modelled for ASCII letters only; other characters are left unchanged. Full Unicode case mapping is outside the model.
- `Http.GetHeader` has no contract of its own. It is the reference definition that the other response-header members are stated against: the case-insensitive, first-match `response.headers.get`.
- `Http.JoinedHeader` is the reference definition of a request header's value; its properties are stated by `Http.JoinedHeaderAbsent`, `Http.SingleHeaderVerbatim` and `Http.RepeatedHeaderJoined`. The model does not follow the WSGI server in dropping header names that contain `_`.
- The query string reaches the model as its decoded `(key, value)` pairs; the URL parsing and percent-decoding are not modelled.
- Inputs outside the handlers' control are passed in as parameters:
  - the clock (`utcnow`, `http_date`, the measured delay, which is a float kept opaque);
  - `uuid4` (as a value of the 32-hex-digit form);
  - `random.choice` (as an index).
- The sleep itself is not performed; `Inspect.Delayed` records how long the handler asks to sleep.
- The image files' bytes are not modelled; a file body is named by its path. The case where a file is missing (`resource` returning `None`) is not modelled.
- Left out because they are thin wrappers that just echo request data:
  - `/headers` in both inspection files;
  - `/cookies` in `src/routes/inspect.py`;
  - `/json`, `/xml` and `/html`.
- Also left out as thin wrappers: the cookie, HTTP-method, main and response-format routes.
- The range, drip and stream handlers are not modelled: `src/routes/dynamic_data.py` ends at a TODO and has no implementation of them.
- The redirect routes are not modelled, because no redirect route can answer. `src/routes/redirect.py:5` imports `view_get`, which `src/routes/http_methods.py` does not define, so the module fails to import. Even its single-hop branch asks `url_for` for `http_methods.view_get`, which is not an endpoint.
- The compression filters call foreign compressors and are not modelled.
