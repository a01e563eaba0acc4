/**
  The worker's request handler: fetch the origin response, and when it is
  HTML, generate one nonce, stamp it on every script element and declare it
  in a Content-Security-Policy header; otherwise pass the response through.

  The origin fetch and the random source are inputs: the handler receives
  the origin's response and the sixteen bytes `crypto.getRandomValues`
  would have produced.
 */
module Worker {
  import opened Wrappers
  import opened Base64
  import Fetch
  import Html
  import Csp

  // ---------------------------------------------------------------- nonce generation

  /** The number of random bytes in a nonce (a Uint8Array of this length). */
  const NonceBytes := 16

  /**
    The nonce made from sixteen random bytes: 24 characters, 22 from the
    base64 alphabet and then `==`, which decode back to the bytes.
   */
  function NonceOf(random: seq<byte>): (nonce: string)
    requires |random| == NonceBytes
    ensures |nonce| == 24
    ensures forall i | 0 <= i < 22 :: IsAlphabetChar(nonce[i])
    ensures nonce[22..] == "=="
    ensures Decode(nonce) == Some(random)
  {
    var nonce := Encode(random);
    EncodeShape(random);
    assert PaddingLength(16) == 2;
    assert nonce[22] == '=' && nonce[23] == '=';
    assert nonce[22..] == "==";
    DecodeEncode(random);
    nonce
  }

  /**
    `generateNonce`: fill a fresh 16-byte array in place with the random
    bytes, turn each byte into one code unit, and base64-encode the result
    with `btoa`, which cannot throw here since every code unit is a byte.
   */
  method GenerateNonce(random: seq<byte>) returns (nonce: string)
    requires |random| == NonceBytes
    ensures nonce == NonceOf(random)
  {
    var buffer := new byte[NonceBytes];
    for i := 0 to NonceBytes
      invariant buffer[..i] == random[..i]
    {
      buffer[i] := random[i];
    }
    assert buffer[..] == random;
    var binary := FromCharCode(buffer[..]);
    BtoaOfBytes(buffer[..]);
    var encoded := Btoa(binary);
    nonce := encoded.value;
  }

  // ---------------------------------------------------------------- dispatch

  /** `i` is a position where `sub` occurs in `s`. */
  predicate OccursAt(s: string, sub: string, i: nat)
  {
    i + |sub| <= |s| && s[i..i + |sub|] == sub
  }

  /** Past a non-match at position 0, `sub` occurs in `s` exactly when it occurs in `s[1..]`. */
  lemma OccursInTail(s: string, sub: string)
    requires |s| > 0 && !OccursAt(s, sub, 0)
    ensures (exists i: nat :: OccursAt(s, sub, i)) <==> (exists j: nat :: OccursAt(s[1..], sub, j))
  {
    if i: nat :| OccursAt(s, sub, i) {
      assert s[1..][i - 1..i - 1 + |sub|] == s[i..i + |sub|];
      assert OccursAt(s[1..], sub, i - 1);
    }
    if j: nat :| OccursAt(s[1..], sub, j) {
      assert s[1..][j..j + |sub|] == s[j + 1..j + 1 + |sub|];
      assert OccursAt(s, sub, j + 1);
    }
  }

  /** `String.prototype.includes`: a case-sensitive test for `sub` occurring anywhere in `s`. */
  function Includes(s: string, sub: string): (r: bool)
    ensures r <==> exists i: nat :: OccursAt(s, sub, i)
    decreases |s|
  {
    if |sub| > |s| then false
    else if s[..|sub|] == sub then
      assert OccursAt(s, sub, 0);
      true
    else
      assert !OccursAt(s, sub, 0);
      OccursInTail(s, sub);
      Includes(s[1..], sub)
  }

  /** The branch test: a `content-type` header is present and contains `text/html`, case as given. */
  function IsHtml(response: Fetch.Response): (html: bool)
    ensures html <==> exists k | k in response.headers ::
      Fetch.Lower(k) == Fetch.Lower("content-type") && Includes(response.headers[k], "text/html")
  {
    match Fetch.Get(response.headers, "content-type")
    case Some(contentType) => Includes(contentType, "text/html")
    case None => false
  }

  /**
    The response the worker returns, as a function of the origin response,
    the configuration and the random bytes.
   */
  function Handle(origin: Fetch.Response, env: Csp.Env, random: seq<byte>): (r: Fetch.Response)
    requires |random| == NonceBytes
    ensures !IsHtml(origin) ==> r == origin
    ensures IsHtml(origin) ==> r.status == origin.status && r.statusText == origin.statusText
    ensures IsHtml(origin) ==> r.body == Html.Rewrite(origin.body, NonceOf(random))
    ensures IsHtml(origin) ==> Fetch.Get(r.headers, Csp.HeaderName(env)) == Some(Csp.PolicyValue(NonceOf(random)))
  {
    if IsHtml(origin) then
      var nonce := NonceOf(random);
      var transformed := origin.(body := Html.Rewrite(origin.body, nonce));
      var name := Csp.HeaderName(env);
      Fetch.GetSet(transformed.headers, name, Csp.PolicyValue(nonce), name);
      transformed.(headers := Fetch.Set(transformed.headers, name, Csp.PolicyValue(nonce)))
    else
      origin
  }

  /**
    `handleRequest`, step by step as the source takes them: read the
    content type, generate the nonce, build the handler, run the rewriter
    over the body, then set the one header on the transformed response.
   */
  method HandleRequest(origin: Fetch.Response, env: Csp.Env, random: seq<byte>) returns (response: Fetch.Response)
    requires |random| == NonceBytes
    ensures response == Handle(origin, env, random)
  {
    var contentType := Fetch.Get(origin.headers, "content-type");
    if contentType.Some? && Includes(contentType.value, "text/html") {
      var nonce := GenerateNonce(random);
      var handler := new Html.ScriptNonceHandler(nonce);
      var body := Html.Transform(handler, origin.body);
      var headers := new Fetch.Headers(origin.headers);
      var cspHeader := Csp.PolicyValue(nonce);
      headers.SetHeader(Csp.HeaderName(env), cspHeader);
      return Fetch.Response(origin.status, origin.statusText, headers.list, body);
    }
    return origin;
  }

  // ---------------------------------------------------------------- what the handler promises

  /** The two header names stay distinct after lower-casing. */
  lemma HeaderNamesDistinct()
    ensures Fetch.Lower(Csp.EnforcingHeader) != Fetch.Lower(Csp.ReportOnlyHeader)
  {
    assert |Fetch.Lower(Csp.EnforcingHeader)| != |Fetch.Lower(Csp.ReportOnlyHeader)|;
  }

  /** A response that is not HTML is returned as it came: same status, headers and body, no policy header added. */
  lemma PassThrough(origin: Fetch.Response, env: Csp.Env, random: seq<byte>)
    requires |random| == NonceBytes
    requires !IsHtml(origin)
    ensures Handle(origin, env, random) == origin
    ensures Fetch.Get(Handle(origin, env, random).headers, Csp.EnforcingHeader) == Fetch.Get(origin.headers, Csp.EnforcingHeader)
    ensures Fetch.Get(Handle(origin, env, random).headers, Csp.ReportOnlyHeader) == Fetch.Get(origin.headers, Csp.ReportOnlyHeader)
  {
  }

  /**
    On an HTML response the only header change is the one policy header,
    named after ENFORCE_CSP; status and all other headers are kept, and
    the other policy header is left as the origin sent it.
   */
  lemma HtmlHeaders(origin: Fetch.Response, env: Csp.Env, random: seq<byte>)
    requires |random| == NonceBytes
    requires IsHtml(origin)
    ensures var r := Handle(origin, env, random);
      && r.status == origin.status
      && r.statusText == origin.statusText
      && Fetch.Get(r.headers, Csp.HeaderName(env)) == Some(Csp.PolicyValue(NonceOf(random)))
      && Fetch.Get(r.headers, Csp.OtherHeaderName(env)) == Fetch.Get(origin.headers, Csp.OtherHeaderName(env))
      && (forall name | Fetch.Lower(name) != Fetch.Lower(Csp.HeaderName(env)) ::
            Fetch.Get(r.headers, name) == Fetch.Get(origin.headers, name))
      && r.headers.Keys == origin.headers.Keys + {Fetch.Lower(Csp.HeaderName(env))}
  {
    var r := Handle(origin, env, random);
    var name := Csp.HeaderName(env);
    Fetch.GetSet(origin.headers, name, Csp.PolicyValue(NonceOf(random)), name);
    HeaderNamesDistinct();
    forall other | Fetch.Lower(other) != Fetch.Lower(name)
      ensures Fetch.Get(r.headers, other) == Fetch.Get(origin.headers, other)
    {
      Fetch.GetSet(origin.headers, name, Csp.PolicyValue(NonceOf(random)), other);
    }
  }

  /** When the origin sent neither policy header, an HTML response leaves with exactly one of them. */
  lemma ExactlyOnePolicyHeader(origin: Fetch.Response, env: Csp.Env, random: seq<byte>)
    requires |random| == NonceBytes
    requires IsHtml(origin)
    requires Fetch.Get(origin.headers, Csp.EnforcingHeader).None?
    requires Fetch.Get(origin.headers, Csp.ReportOnlyHeader).None?
    ensures var r := Handle(origin, env, random);
      && (Fetch.Get(r.headers, Csp.EnforcingHeader).Some? <==> env.enforceCsp == "true")
      && (Fetch.Get(r.headers, Csp.ReportOnlyHeader).Some? <==> env.enforceCsp != "true")
  {
    HtmlHeaders(origin, env, random);
  }

  /**
    The nonce in the header is the nonce on the scripts: on an HTML response,
    every script element's `nonce` attribute is the nonce the policy header
    declares, and as many script elements carry it as the origin body had.
   */
  lemma SameNonceInBodyAndHeader(origin: Fetch.Response, env: Csp.Env, random: seq<byte>)
    requires |random| == NonceBytes
    requires IsHtml(origin)
    ensures var r := Handle(origin, env, random);
      && Fetch.Get(r.headers, Csp.HeaderName(env)).Some?
      && Csp.DeclaredNonce(Fetch.Get(r.headers, Csp.HeaderName(env)).value) == Some(NonceOf(random))
      && (forall i | 0 <= i < |r.body| && Html.IsScript(r.body[i]) ::
            && Html.NonceAttribute in r.body[i].attributes
            && r.body[i].attributes[Html.NonceAttribute] == NonceOf(random))
      && Html.CountNonced(r.body, NonceOf(random)) == Html.CountScripts(origin.body)
  {
    var r := Handle(origin, env, random);
    var nonce := NonceOf(random);
    HtmlHeaders(origin, env, random);
    Csp.DeclaredNonceOfPolicy(nonce);
    Html.RewriteCount(origin.body, nonce);
    forall i | 0 <= i < |r.body| && Html.IsScript(r.body[i])
      ensures Html.NonceAttribute in r.body[i].attributes && r.body[i].attributes[Html.NonceAttribute] == nonce
    {
      assert Html.IsScript(origin.body[i]);
    }
  }

  /**
    On an HTML response the body is the origin body with every script
    element stamped with the nonce, and nothing else changed.
   */
  lemma HtmlBody(origin: Fetch.Response, env: Csp.Env, random: seq<byte>)
    requires |random| == NonceBytes
    requires IsHtml(origin)
    ensures var r := Handle(origin, env, random);
      && |r.body| == |origin.body|
      && (forall i | 0 <= i < |r.body| && !Html.IsScript(origin.body[i]) :: r.body[i] == origin.body[i])
      && (forall i | 0 <= i < |r.body| && Html.IsScript(origin.body[i]) ::
            r.body[i] == origin.body[i].(attributes := origin.body[i].attributes[Html.NonceAttribute := NonceOf(random)]))
  {
  }

  /** The content-type test is case-sensitive: `TEXT/HTML` does not select the HTML branch. */
  lemma UpperCaseContentTypeIsNotHtml(origin: Fetch.Response)
    requires origin.headers == map["content-type" := "TEXT/HTML"]
    ensures !IsHtml(origin)
  {
    Fetch.LowerIdempotent("content-type");
    assert "TEXT/HTML"[0] != "text/html"[0];
    assert !OccursAt("TEXT/HTML", "text/html", 0);
  }

  /** A content type with parameters after `text/html` still selects the HTML branch. */
  lemma HtmlWithCharsetIsHtml(origin: Fetch.Response)
    requires origin.headers == map["content-type" := "text/html; charset=utf-8"]
    ensures IsHtml(origin)
  {
    Fetch.LowerIdempotent("content-type");
    assert OccursAt("text/html; charset=utf-8", "text/html", 0);
  }

  /**
    Header names match without regard to case: an origin whose content type
    was set under the name `Content-Type` still selects the HTML branch.
   */
  lemma MixedCaseHeaderNameIsHtml(origin: Fetch.Response)
    requires origin.headers == Fetch.Set(map[], "Content-Type", "text/html")
    ensures IsHtml(origin)
  {
    Fetch.GetSet(map[], "Content-Type", "text/html", "content-type");
    assert Fetch.Lower("content-type") == Fetch.Lower("Content-Type");
    assert OccursAt("text/html", "text/html", 0);
  }
}
