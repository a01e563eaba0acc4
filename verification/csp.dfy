/**
  Policy synthesis: which Content-Security-Policy header the worker sets,
  and the policy it puts in it.  The policy is a fixed list of directives
  with the request's nonce in the `script-src` directive.
 */
module Csp {
  import opened Wrappers

  /** The worker's configuration: the ENFORCE_CSP variable. */
  datatype Env = Env(enforceCsp: string)

  const EnforcingHeader := "Content-Security-Policy"
  const ReportOnlyHeader := "Content-Security-Policy-Report-Only"

  /** The suffix appended to the header name: none when ENFORCE_CSP is exactly "true". */
  function Mode(env: Env): (suffix: string)
    ensures suffix == "" <==> env.enforceCsp == "true"
    ensures EnforcingHeader + suffix == ReportOnlyHeader <==> env.enforceCsp != "true"
  {
    if env.enforceCsp == "true" then "" else "-Report-Only"
  }

  /** The header name: enforcing exactly when ENFORCE_CSP is "true", report-only for any other value. */
  function HeaderName(env: Env): (name: string)
    ensures name == EnforcingHeader <==> env.enforceCsp == "true"
    ensures name == ReportOnlyHeader <==> env.enforceCsp != "true"
  {
    EnforcingHeader + Mode(env)
  }

  /** The header name the worker does not set for this configuration. */
  function OtherHeaderName(env: Env): (name: string)
    ensures name != HeaderName(env)
    ensures {name, HeaderName(env)} == {EnforcingHeader, ReportOnlyHeader}
  {
    if env.enforceCsp == "true" then ReportOnlyHeader else EnforcingHeader
  }

  /** The fixed text before and after the nonce in the policy. */
  const PolicyPrefix := "script-src 'strict-dynamic' 'nonce-"
  const PolicySuffix := "' 'unsafe-inline'; object-src 'none'; base-uri 'none';"

  /**
    The policy text, with the nonce spliced into the `script-src` directive:
    a fixed prefix, the nonce, and a fixed suffix.
   */
  function PolicyValue(nonce: string): (v: string)
    ensures |v| == |PolicyPrefix| + |nonce| + |PolicySuffix|
    ensures v[..|PolicyPrefix|] == PolicyPrefix
    ensures v[|PolicyPrefix|..|v| - |PolicySuffix|] == nonce
    ensures v[|v| - |PolicySuffix|..] == PolicySuffix
  {
    PolicyPrefix + nonce + PolicySuffix
  }

  // ---------------------------------------------------------------- a reference serialisation

  /** One policy directive: a directive name and its source expressions. */
  datatype Directive = Directive(name: string, sources: seq<string>)

  /** The source expression that admits elements carrying the given nonce. */
  function NonceSource(nonce: string): string
  {
    "'nonce-" + nonce + "'"
  }

  /** The directives of the worker's policy, in order. */
  function StrictDynamicPolicy(nonce: string): seq<Directive>
  {
    [ Directive("script-src", ["'strict-dynamic'", NonceSource(nonce), "'unsafe-inline'"]),
      Directive("object-src", ["'none'"]),
      Directive("base-uri", ["'none'"]) ]
  }

  /** Each source expression is preceded by one space. */
  function SerializeSources(sources: seq<string>): string
  {
    if sources == [] then "" else " " + sources[0] + SerializeSources(sources[1..])
  }

  /** A directive is its name and sources, closed by `;`. */
  function SerializeDirective(d: Directive): string
  {
    d.name + SerializeSources(d.sources) + ";"
  }

  /** Directives are written in order, each closed by `;` and separated by one space. */
  function Serialize(ds: seq<Directive>): string
  {
    if ds == [] then ""
    else if |ds| == 1 then SerializeDirective(ds[0])
    else SerializeDirective(ds[0]) + " " + Serialize(ds[1..])
  }

  /**
    The policy text is the serialisation of exactly three directives, in the
    order script-src, object-src, base-uri, each closed by `;` (the last one
    too), with nothing else in it.
   */
  lemma PolicyValueIsSerialized(nonce: string)
    ensures PolicyValue(nonce) == Serialize(StrictDynamicPolicy(nonce))
  {
    var ds := StrictDynamicPolicy(nonce);
    SerializeThreeDirectives(ds[0], ds[1], ds[2]);
    ScriptDirectiveText(nonce);
    SerializeOne("'none'");
    assert SerializeDirective(ds[1]) == "object-src 'none';";
    assert SerializeDirective(ds[2]) == "base-uri 'none';";
    JoinPolicyText(nonce);
  }

  // Each literal join below is a lemma of its own, so that it is proved in a
  // small context.
  lemma JoinPolicyText(nonce: string)
    ensures PolicyPrefix + nonce + PolicySuffix
         == ("script-src 'strict-dynamic' 'nonce-" + nonce + "' 'unsafe-inline';")
            + " " + "object-src 'none';" + " " + "base-uri 'none';"
  {
  }

  lemma ScriptDirectiveText(nonce: string)
    ensures SerializeDirective(StrictDynamicPolicy(nonce)[0])
         == "script-src 'strict-dynamic' 'nonce-" + nonce + "' 'unsafe-inline';"
  {
    var srcs := StrictDynamicPolicy(nonce)[0].sources;
    SerializeThree(srcs[0], srcs[1], srcs[2]);
    ScriptSourcesText(nonce);
    ScriptDirectiveJoin(nonce);
  }

  lemma ScriptSourcesText(nonce: string)
    ensures " " + "'strict-dynamic'" + " " + ("'nonce-" + nonce + "'") + " " + "'unsafe-inline'"
         == " 'strict-dynamic' 'nonce-" + nonce + "' 'unsafe-inline'"
  {
  }

  lemma ScriptDirectiveJoin(nonce: string)
    ensures "script-src" + (" 'strict-dynamic' 'nonce-" + nonce + "' 'unsafe-inline'") + ";"
         == "script-src 'strict-dynamic' 'nonce-" + nonce + "' 'unsafe-inline';"
  {
  }

  lemma SerializeThreeDirectives(a: Directive, b: Directive, c: Directive)
    ensures Serialize([a, b, c]) == SerializeDirective(a) + " " + SerializeDirective(b) + " " + SerializeDirective(c)
  {
    assert [a, b, c][1..] == [b, c];
    assert [b, c][1..] == [c];
    assert Serialize([b, c]) == SerializeDirective(b) + " " + SerializeDirective(c);
  }

  lemma SerializeOne(x: string)
    ensures SerializeSources([x]) == " " + x
  {
    assert [x][1..] == [];
  }

  lemma SerializeThree(x: string, y: string, z: string)
    ensures SerializeSources([x, y, z]) == " " + x + " " + y + " " + z
  {
    assert [x, y, z][1..] == [y, z];
    assert [y, z][1..] == [z];
    SerializeOne(z);
  }

  // ---------------------------------------------------------------- reading the nonce back

  /** The nonce a policy of the worker's shape declares; None for any other text. */
  function DeclaredNonce(policy: string): Option<string>
  {
    if |policy| >= |PolicyPrefix| + |PolicySuffix|
      && policy[..|PolicyPrefix|] == PolicyPrefix
      && policy[|policy| - |PolicySuffix|..] == PolicySuffix
    then Some(policy[|PolicyPrefix|..|policy| - |PolicySuffix|])
    else None
  }

  /** The nonce declared by the policy text is exactly the nonce it was built from. */
  lemma DeclaredNonceOfPolicy(nonce: string)
    ensures DeclaredNonce(PolicyValue(nonce)) == Some(nonce)
  {
    var v := PolicyValue(nonce);
    assert v == PolicyPrefix + nonce + PolicySuffix;
    assert v[..|PolicyPrefix|] == PolicyPrefix;
    assert v[|v| - |PolicySuffix|..] == PolicySuffix;
    assert v[|PolicyPrefix|..|v| - |PolicySuffix|] == nonce;
  }

  /** Different nonces give different policies. */
  lemma PolicyValueInjective(n1: string, n2: string)
    ensures PolicyValue(n1) == PolicyValue(n2) <==> n1 == n2
  {
    if PolicyValue(n1) == PolicyValue(n2) {
      DeclaredNonceOfPolicy(n1);
      DeclaredNonceOfPolicy(n2);
    }
  }
}
