# strict-dynamic CSP worker, modelled in Dafny

The worker sits between a client and the origin. When the origin answers
with HTML, it generates one random nonce, stamps that nonce on every
`<script>` element of the body, and declares the same nonce in a
`Content-Security-Policy` header. The header is the report-only variant
unless `ENFORCE_CSP` is `"true"`. Every other response passes through
untouched.

The model follows `src/index.ts`:

- `wrappers.dfy` holds `Option` and `Result`.
- `base64.dfy` (module `Base64`) holds the `btoa` step of `generateNonce`.
  It is standard base64 per section 4 of RFC 4648, built from 6-bit groups
  (sextets). A strict decoder is its partner, and the two are proved
  inverse.
- `fetch.dfy` (module `Fetch`) holds response headers. `get` and `set`
  match header names without regard to ASCII case, as the Fetch standard's
  `Headers` does. The model keys each header by its lower-cased name, and
  the type `HeaderList` admits no other key. It also holds the response
  value and a `Headers` object that `set` changes in place.
- `html.dfy` (module `Html`) holds the body as a stream of nodes. The
  `ScriptNonceHandler` and `HtmlElement` classes change an element's
  attributes in place. The `Transform` method is the rewriter's single
  pass, and it is proved equal to the pure function `Rewrite`.
- `csp.dfy` (module `Csp`) holds the header name chosen from `ENFORCE_CSP`
  and the policy template. The template is checked against a serialisation
  of an explicit directive list. The nonce can be read back from the header
  text.
- `worker.dfy` (module `Worker`) holds `generateNonce`, a method that fills
  a 16-byte array in place. It also holds `handleRequest`, both as a method
  that takes the source's steps and as the pure function `Handle`. The
  end-to-end promises are lemmas over `Handle`.

The 16 random bytes and the origin response are parameters.

## Model

| member | source | states |
|---|---|---|
| `Base64.CharOf` | src/index.ts:24 | each 6-bit value maps to a character of the RFC 4648 alphabet |
| `Base64.ValueOf` | src/index.ts:24 | an alphabet character has a value exactly when it is in the alphabet, and that value maps back to the same character |
| `Base64.ValueOfCharOf` | src/index.ts:24 | reading back the character of a value gives the value (the table is injective) |
| `Base64.Chars` | src/index.ts:24 | one alphabet character per sextet, and nothing else |
| `Base64.Values` | src/index.ts:24 | a text has sextet values exactly when all its characters are in the alphabet, and those values spell the text again |
| `Base64.ValuesOfChars` | src/index.ts:24 | reading the characters of a sextet sequence gives back that sequence |
| `Base64.SextetsOf` | src/index.ts:24 | n bytes give (4n + 2) / 3 sextets, which is 4 per whole 3-byte group and 2 or 3 for a final partial group |
| `Base64.BytesOf` | src/index.ts:24 | a sextet sequence it accepts has the length that SextetsOf gives for the resulting bytes |
| `Base64.BytesOfSextetsOf` | src/index.ts:24 | joining the sextets of any byte sequence restores the bytes |
| `Base64.SextetsOfBytesOf` | src/index.ts:24 | every accepted sextet sequence is the sextets of its bytes, because non-zero discarded bits are rejected |
| `Base64.PaddingLength` | src/index.ts:24 | the padding count is below 3 and completes the sextets to a multiple of 4 characters |
| `Base64.Encode` | src/index.ts:24 | the encoding of n bytes has 4 * ceil(n / 3) characters |
| `Base64.StandardVectorsShort` | src/index.ts:24 | the encoder reproduces the test vectors of section 10 of RFC 4648 for "", "f", "fo" and "foo" |
| `Base64.StandardVectorsPadded` | src/index.ts:24 | the encoder reproduces the RFC 4648 test vectors for "foob" and "fooba", padding included |
| `Base64.StandardVectorFoobar` | src/index.ts:24 | the encoder reproduces the RFC 4648 test vector for "foobar" |
| `Base64.EncodeShape` | src/index.ts:24 | the encoding is alphabet characters followed by exactly PaddingLength(n) `=` |
| `Base64.DecodeEncode` | src/index.ts:24 | decoding the encoding of any bytes returns those bytes |
| `Base64.EncodeDecode` | src/index.ts:24 | every text the decoder accepts is the encoding of what it decodes to |
| `Base64.DecodeIffEncode` | src/index.ts:24 | Decode(s) == Some(b) exactly when s == Encode(b) |
| `Base64.FromCharCode` | src/index.ts:24 | `String.fromCharCode(...array)` gives one code unit per byte, equal to the byte |
| `Base64.Btoa` | src/index.ts:24 | `btoa` succeeds exactly when every code unit is at most 0xFF |
| `Base64.BtoaOfBytes` | src/index.ts:24 | `btoa` of a byte string never throws and yields the base64 encoding of the bytes |
| `Worker.NonceOf` | src/index.ts:21-25 | 16 bytes give a 24-character nonce whose first 22 characters are alphabet characters and whose last two are `==`, and it decodes back to the 16 bytes |
| `Worker.GenerateNonce` | src/index.ts:21-25 | filling the 16-byte array in place with the random bytes and applying `btoa(String.fromCharCode(...))` yields NonceOf of those bytes |
| `Fetch.LowerIdempotent` | src/index.ts:43 | header-name lower-casing leaves no upper-case letter, is idempotent, and keeps lower-case names |
| `Fetch.StoredNames` | src/index.ts:43 | a stored name matches a requested name without regard to case exactly when it is the requested name lower-cased |
| `Fetch.Get` | src/index.ts:43 | `headers.get(name)` finds a value exactly when some stored header name equals `name` without regard to ASCII case, and then it is that header's value |
| `Fetch.Set` | src/index.ts:56 | `headers.set` leaves the lower-cased name present, gives every header matching the name without regard to case the new value, and keeps every other entry |
| `Fetch.GetSet` | src/index.ts:56 | after `set(n, v)`, `get(m)` is v when m and n name the same header, and is unchanged otherwise |
| `Fetch.Headers.constructor` | src/index.ts:50 | the transformed response's headers start as the origin's |
| `Fetch.Headers.SetHeader` | src/index.ts:56 | setting a header in place leaves the list equal to Set of the old list |
| `Html.Rewrite` | src/index.ts:35-37 | order and length are kept; each script element gets `nonce` equal to the nonce, replacing any earlier value, and keeps all other attributes; all other nodes are unchanged |
| `Html.RewriteOverwrites` | src/index.ts:36 | a second rewrite replaces the first nonce, so the last nonce set wins |
| `Html.RewriteCount` | src/index.ts:47-48 | after the rewrite, the number of script elements carrying the nonce equals the number of script elements, and no script element is added or lost |
| `Html.HtmlElement.constructor` | src/index.ts:35 | the element object starts with the node's tag and attributes |
| `Html.HtmlElement.SetAttribute` | src/index.ts:36 | `setAttribute` adds the attribute or replaces its value, and changes nothing else |
| `Html.ScriptNonceHandler.constructor` | src/index.ts:31-33 | the handler holds the nonce it was built with |
| `Html.ScriptNonceHandler.Element` | src/index.ts:35-37 | the handler sets `nonce` on the element to its own nonce and changes no other attribute |
| `Html.Transform` | src/index.ts:47-50 | one pass over the body, handing each script element to the handler, produces exactly Rewrite(body, nonce) |
| `Csp.Mode` | src/index.ts:53 | the suffix is empty exactly when ENFORCE_CSP is `"true"`, and otherwise turns the enforcing name into the report-only name |
| `Csp.HeaderName` | src/index.ts:53-56 | the name is `Content-Security-Policy` exactly when ENFORCE_CSP is `"true"`, and `Content-Security-Policy-Report-Only` exactly otherwise |
| `Csp.OtherHeaderName` | src/index.ts:53 | the name not chosen is the other of the two policy header names |
| `Csp.PolicyValue` | src/index.ts:54 | the header value is a fixed `script-src 'strict-dynamic' 'nonce-` prefix, the nonce, and a fixed `' 'unsafe-inline'; object-src 'none'; base-uri 'none';` suffix |
| `Csp.PolicyValueIsSerialized` | src/index.ts:54 | the header value is exactly script-src, object-src and base-uri in that order, each closed by `;` (the last one too), with the nonce source in script-src |
| `Csp.DeclaredNonceOfPolicy` | src/index.ts:54 | the nonce read back from the header value is exactly the nonce spliced in |
| `Csp.PolicyValueInjective` | src/index.ts:54 | two header values are equal exactly when their nonces are equal |
| `Worker.IsHtml` | src/index.ts:43-45 | the HTML branch is taken exactly when some stored header named `content-type` (in any case) has a value containing `text/html` |
| `Worker.Includes` | src/index.ts:45 | `includes` is true exactly when the search text occurs at some position, compared case-sensitively |
| `Worker.Handle` | src/index.ts:41-63 | a non-HTML response is returned as it came; an HTML one keeps status and status text, has its body rewritten with the nonce generated from the random bytes, and carries the policy for that nonce under the header ENFORCE_CSP selects |
| `Worker.HandleRequest` | src/index.ts:41-63 | the handler's steps produce exactly the response Handle describes |
| `Worker.HeaderNamesDistinct` | src/index.ts:53-56 | the enforcing and report-only names stay distinct after header-name lower-casing |
| `Worker.PassThrough` | src/index.ts:43-45 | without a content-type containing `text/html`, the origin response is returned unchanged and no policy header is added |
| `Worker.HtmlHeaders` | src/index.ts:50-58 | on HTML, status and status text are kept; the chosen header holds the policy; every other header, including the other policy header, is as the origin sent it; the only new name is the chosen one |
| `Worker.ExactlyOnePolicyHeader` | src/index.ts:53-56 | if the origin sent neither policy header, an HTML response carries exactly the one that ENFORCE_CSP selects |
| `Worker.SameNonceInBodyAndHeader` | src/index.ts:46-56 | the nonce declared in the header is the generated one, every script element carries that same nonce, and the count of nonce-carrying scripts equals the origin's script count |
| `Worker.HtmlBody` | src/index.ts:46-50 | on HTML, the body keeps its length and order, non-script nodes are unchanged, and each script gains exactly the nonce attribute |
| `Worker.UpperCaseContentTypeIsNotHtml` | src/index.ts:45 | the test is case-sensitive, so a content type of `TEXT/HTML` takes the pass-through branch |
| `Worker.MixedCaseHeaderNameIsHtml` | src/index.ts:43-45 | a content type set under the name `Content-Type` is found by `get('content-type')` and selects the HTML branch |
| `Worker.HtmlWithCharsetIsHtml` | src/index.ts:45 | a content type of `text/html; charset=utf-8` takes the HTML branch |

## Behaviour of the code worth knowing

The model follows `src/index.ts` in each case below.

- The tests (test/index.spec.ts:73, :84, :122-168) expect a richer policy
  than the code builds. They expect a `STYLE_NONCE` switch that stamps
  `<style>` elements. They expect an `https:` fallback in `script-src`, a
  `style-src` directive, and `upgrade-insecure-requests`. They also expect
  no trailing `;`. The code builds only
  `script-src 'strict-dynamic' 'nonce-N' 'unsafe-inline'; object-src 'none'; base-uri 'none';`
  and rewrites only `script` elements.
- Nothing removes the other policy header. If the origin already sent it,
  both policy headers leave the worker. `Worker.HtmlHeaders` states this:
  the other header is exactly as the origin sent it.
  `Worker.ExactlyOnePolicyHeader` gives the exactly-one result for an
  origin that sent neither.
- Media types are case-insensitive (section 8.3.1 of RFC 9110), but
  `includes('text/html')` (src/index.ts:45) compares case-sensitively.
  `Worker.UpperCaseContentTypeIsNotHtml` records this.

## Left out

- `crypto.getRandomValues` (src/index.ts:23): the entropy source is not
  modelled. Its 16 bytes are the `random` parameter, and its failure modes
  are out of scope.
- `fetch(request)` (src/index.ts:42): network I/O. The origin response is a
  parameter, and the request itself is not modelled.
- HTMLRewriter's HTML tokenising and streaming (src/index.ts:47-50): it is a
  platform library. The body is an already-tokenised node stream, and
  element tag names are taken as the lower-case names the rewriter reports.
  Attribute names are likewise taken as the lower-case names the HTML
  tokenizer produces, so `setAttribute('nonce', …)` is a plain map update
  on the key `nonce`. An attribute map holding `NONCE` cannot come from the
  rewriter, and the model does not fold it into `nonce`.
  Malformed markup, self-closing tags and chunked streaming are not
  modelled.
- Whatever else `HTMLRewriter.transform` may do to the response headers:
  the library is not shown. The model copies status, status text and
  headers unchanged.
- Attribute order within an element: attributes are a map. `setAttribute`
  on a new name is modelled as adding it, not as appending it at the end.
- Header lists with repeated names: `headers.get` joins repeated values,
  and the model keeps one value per lower-cased name.
- The spelling under which a header name was first stored: the Fetch
  standard keeps it and lower-cases only when listing headers. The model
  stores the lower-cased name, which `get` and `set` cannot tell apart.
- Async/Promise plumbing and the `export default { fetch }` glue
  (src/index.ts:65-69).
- `ENFORCE_CSP` left unset: `Env` declares it as a string. An unset variable
  behaves like any value other than `"true"`.
- The test-only behaviour named above (`STYLE_NONCE`, `https:`,
  `upgrade-insecure-requests`): it is not implemented in src/index.ts.
