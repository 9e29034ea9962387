/** `/image`: picks an image format from the Accept header and answers with
    the matching per-format route, and the four per-format routes. */
module Image {

  import opened Options
  import opened Text
  import opened Http
  import opened StatusCodes

  datatype Format = Png | Jpeg | Webp | Svg

  /** The Content-Type each per-format route sets. */
  function ContentType(f: Format): string {
    match f
    case Png => "image/png"
    case Jpeg => "image/jpeg"
    case Webp => "image/webp"
    case Svg => "image/svg+xml"
  }

  /** The packaged file each per-format route serves. */
  function ResourcePath(f: Format): string {
    match f
    case Png => "images/pig.png"
    case Jpeg => "images/jackal.jpg"
    case Webp => "images/wolf.webp"
    case Svg => "images/logo.svg"
  }

  /** `/image/png`, `/image/jpeg`, `/image/webp`, `/image/svg`: the file's
      bytes under the format's Content-Type. */
  function FormatRoute(f: Format): (r: Response)
    ensures r.Reply? && r.status == 200
    ensures r.HeaderValue("Content-Type") == Some(ContentType(f))
  {
    Reply(200, [Header("Content-Type", ContentType(f))], FileBody(ResourcePath(f)))
  }

  /** Different formats are served under different Content-Types. */
  lemma ContentTypesDistinct(f: Format, g: Format)
    requires f != g
    ensures ContentType(f) != ContentType(g)
  {
    match (f, g)
    case (Png, _) => assert ContentType(f)[6] != ContentType(g)[6];
    case (Jpeg, _) => assert ContentType(f)[6] != ContentType(g)[6];
    case (Webp, _) => assert ContentType(f)[6] != ContentType(g)[6];
    case (Svg, _) => assert ContentType(f)[6] != ContentType(g)[6];
  }

  // ---------------------------------------------------------------- negotiation

  /** Whether a lower-cased Accept value names a format, by substring:
      PNG is also named by the `image` wildcard range. */
  predicate Offers(accept: string, f: Format) {
    match f
    case Webp => Contains(accept, "image/webp")
    case Svg => Contains(accept, "image/svg+xml")
    case Jpeg => Contains(accept, "image/jpeg")
    case Png => Contains(accept, "image/png") || Contains(accept, "image/*")
  }

  /** The fixed precedence: webp, then svg+xml, then jpeg, then png. */
  function Rank(f: Format): nat {
    match f
    case Webp => 0
    case Svg => 1
    case Jpeg => 2
    case Png => 3
  }

  /** The format the handler's `if`/`elif` chain selects from a lower-cased
      Accept value: the offered format of best precedence, or none. */
  function Choose(accept: string): (r: Option<Format>)
    ensures r.None? <==> forall f :: !Offers(accept, f)
    ensures r.Some? ==> Offers(accept, r.value)
    ensures r.Some? ==> forall g :: Rank(g) < Rank(r.value) ==> !Offers(accept, g)
  {
    if Contains(accept, "image/webp") then
      assert Offers(accept, Webp);
      Some(Webp)
    else if Contains(accept, "image/svg+xml") then
      assert Offers(accept, Svg);
      Some(Svg)
    else if Contains(accept, "image/jpeg") then
      assert Offers(accept, Jpeg);
      Some(Jpeg)
    else if Contains(accept, "image/png") || Contains(accept, "image/*") then
      assert Offers(accept, Png);
      Some(Png)
    else None
  }

  /** `/image`: PNG when there is no Accept header; otherwise the chosen
      format's route, and when nothing is chosen the status handler's 406,
      which is not in its table and so aborts with 400. */
  function ImageHandler(req: Request): (r: Response)
    ensures req.Get("Accept").None? ==> r == FormatRoute(Png)
    ensures r == Aborted(400) || exists f :: r == FormatRoute(f)
    ensures req.Get("Accept").Some? ==>
      (r == Aborted(400) <==> forall f :: !Offers(ToLower(req.Get("Accept").value), f))
    ensures req.Get("Accept").Some? && Choose(ToLower(req.Get("Accept").value)).Some? ==>
      r == FormatRoute(Choose(ToLower(req.Get("Accept").value)).value)
  {
    var accept := req.Get("Accept");
    if accept.None? then FormatRoute(Png)
    else
      match Choose(ToLower(accept.value))
      case Some(f) => FormatRoute(f)
      case None =>
        MissingCodesAbort();
        StatusCode(406)
  }

  /** A header naming a format in any letter case selects as its lower-case
      form does: matching runs on the lower-cased value. */
  lemma CaseInsensitive(a: Request, b: Request)
    requires a.Get("Accept").Some? && b.Get("Accept").Some?
    requires ToLower(a.Get("Accept").value) == ToLower(b.Get("Accept").value)
    ensures ImageHandler(a) == ImageHandler(b)
  {
  }

  /** Lower-casing the value first changes nothing. */
  lemma LowerCasedHeaderSame(a: Request, b: Request)
    requires a.Get("Accept").Some?
    requires b.Get("Accept") == Some(ToLower(a.Get("Accept").value))
    ensures ImageHandler(a) == ImageHandler(b)
  {
    ToLowerIdempotent(a.Get("Accept").value);
  }

  /** The order of the media ranges in the header does not matter: swapping
      two comma-separated parts leaves the choice unchanged. */
  lemma {:induction false} OrderIrrelevant(x: string, y: string)
    ensures Choose(ToLower(x + "," + y)) == Choose(ToLower(y + "," + x))
  {
    var lx, ly := ToLower(x), ToLower(y);
    ToLowerAroundComma(x, y);
    ToLowerAroundComma(y, x);
    SameTokens(lx, ly, "image/webp");
    SameTokens(lx, ly, "image/svg+xml");
    SameTokens(lx, ly, "image/jpeg");
    SameTokens(lx, ly, "image/png");
    SameTokens(lx, ly, "image/*");
    SameOffersSameChoice(lx + [','] + ly, ly + [','] + lx);
  }

  lemma ToLowerAroundComma(x: string, y: string)
    ensures ToLower(x + "," + y) == ToLower(x) + [','] + ToLower(y)
  {
    ToLowerConcat(x + ",", y);
    ToLowerConcat(x, ",");
  }

  /** A token without a comma is found on either side of a comma alike. */
  lemma SameTokens(a: string, b: string, token: string)
    requires ',' !in token
    ensures Contains(a + [','] + b, token) <==> Contains(b + [','] + a, token)
  {
    ContainsAcrossSeparator(a, ',', b, token);
    ContainsAcrossSeparator(b, ',', a, token);
  }

  /** The choice depends only on which of the five tokens occur. */
  lemma SameOffersSameChoice(a: string, b: string)
    requires Contains(a, "image/webp") <==> Contains(b, "image/webp")
    requires Contains(a, "image/svg+xml") <==> Contains(b, "image/svg+xml")
    requires Contains(a, "image/jpeg") <==> Contains(b, "image/jpeg")
    requires Contains(a, "image/png") <==> Contains(b, "image/png")
    requires Contains(a, "image/*") <==> Contains(b, "image/*")
    ensures Choose(a) == Choose(b)
  {
  }

  /** Two Accept lines, `text/html` then `image/png`, arrive as one value
      that names PNG, so PNG is served. */
  lemma RepeatedAcceptServesPng()
    ensures ImageHandler(Request([Header("Accept", "text/html"), Header("Accept", "image/png")], None))
            == FormatRoute(Png)
  {
    RepeatedHeaderJoined(Header("Accept", "text/html"), Header("Accept", "image/png"), "Accept");
    HtmlThenPngLowered("text/html", "image/png");
    HtmlThenPngChoosesPng("text/html", "image/png");
  }

  lemma HtmlThenPngLowered(html: string, png: string)
    requires html == "text/html" && png == "image/png"
    ensures ToLower(html + "," + png) == html + "," + png
  {
    var s := html + "," + png;
    forall i | 0 <= i < |s|
      ensures !IsUpper(s[i])
    {
    }
  }

  lemma HtmlThenPngChoosesPng(html: string, png: string)
    requires html == "text/html" && png == "image/png"
    ensures Choose(html + "," + png) == Some(Png)
  {
    assert html + "," + png == html + [','] + png;
    ContainsAcrossSeparator(html, ',', png, "image/webp");
    ContainsAcrossSeparator(html, ',', png, "image/svg+xml");
    ContainsAcrossSeparator(html, ',', png, "image/jpeg");
    ContainsAcrossSeparator(html, ',', png, "image/png");
    ContainsSelf(png);
  }

  /** A media range that matches no token, such as the bare any-type range, and the
      empty header both end in the 400 abort. */
  lemma NoTokenAborts(req: Request)
    requires req.Get("Accept") == Some("*/*") || req.Get("Accept") == Some("")
    ensures ImageHandler(req) == Aborted(400)
  {
    var l := ToLower(req.Get("Accept").value);
    assert |l| < 9;
    assert Choose(l) == None;
  }
}
