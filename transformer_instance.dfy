/**
 * The transformer wired to the resolver the way the tests configure it:
 * embed code `https://assets.adobedtm.com` and allow-list
 * `['assets.adobedtm.com']`, with the transformer's `decorate` being the
 * resolver's decoration of strings.
 */
module TransformerInstance {
  import opened Wrappers
  import opened JsValue
  import opened PathSpecifier
  import opened SettingsTransformer
  import opened DynamicHostResolver

  const EmbedCode: string := "https://assets.adobedtm.com"
  const AllowList: seq<string> := ["assets.adobedtm.com"]
  const TestUrl: ParsedUrl := ParsedUrl("https:", "assets.adobedtm.com", "assets.adobedtm.com")
  const Relative: string := "/some/relative/url"
  const Rewritten: string := "https://assets.adobedtm.com/some/relative/url"

  /** What a browser's anchor reports for the embed code. */
  predicate ParsesEmbedCode(parse: string -> ParsedUrl) {
    parse(EmbedCode) == TestUrl
  }

  /** The resolver's decoration of strings for the tests' configuration. */
  function Decorate(s: string): (decorated: string) {
    DecorateUrl(TurbineHost(true, TestUrl), s)
  }

  /** The tests' configuration passes every guard and augments. */
  lemma InstanceValidates(parse: string -> ParsedUrl, pageProtocol: string)
    requires ParsesEmbedCode(parse)
    ensures Validate(EmbedCode, Some(AllowList), pageProtocol, parse) == Success(Config(true, true, TestUrl))
  {
    assert EmbedCode[..8] == "https://";
    assert IsHttpUrl(EmbedCode);
  }

  /** The tests' host needs no port cleaning, so the turbine host is the embed code. */
  lemma TurbineHostOfInstance()
    ensures TurbineHost(true, TestUrl) == EmbedCode
  {
    InstanceHostIsPortless();
    EmbedCodeIsJoin();
  }

  lemma EmbedCodeIsJoin()
    ensures TestUrl.protocol + "//" + TestUrl.host == EmbedCode
  {
    var joined := TestUrl.protocol + "//" + TestUrl.host;
    assert |joined| == |EmbedCode|;
    assert forall i :: 0 <= i < |EmbedCode| ==> joined[i] == EmbedCode[i];
  }

  lemma InstanceHostIsPortless()
    ensures SanitizeHost(TestUrl.host) == TestUrl.host
  {
    var h := TestUrl.host;
    assert h[|h| - 1] == 'm';
    SanitizeKeepsPortlessHost(h);
  }

  lemma RewrittenIsJoin()
    ensures EmbedCode + Relative == Rewritten
  {
    assert |EmbedCode + Relative| == |Rewritten|;
    assert forall i :: 0 <= i < |Rewritten| ==> (EmbedCode + Relative)[i] == Rewritten[i];
  }

  /** The expected value the tests fix for `decorate("/some/relative/url")`. */
  lemma DecorateRelative()
    ensures Decorate(Relative) == Rewritten
  {
    TurbineHostOfInstance();
    assert Relative[..1] == "/";
    RewrittenIsJoin();
  }

  /** The memo in use: two decorations through the tests' resolver agree and give the expected URL. */
  method DecorateTwice(parse: string -> ParsedUrl, pageProtocol: string) returns (first: Value, second: Value)
    requires ParsesEmbedCode(parse)
    ensures first == second == Str(Rewritten)
  {
    InstanceValidates(parse, pageProtocol);
    var created := CreateDynamicHostResolver(EmbedCode, Some(AllowList), pageProtocol, parse);
    var resolver := created.value;
    first := resolver.DecorateWithDynamicHost(Str(Relative));
    second := resolver.DecorateWithDynamicHost(Str(Relative));
    DecorateRelative();
  }

  /** The tests' first rewrite: a top-level `source` holding "/some/relative/url" ends up at the CDN host. */
  lemma InstanceRewritesTopLevelSource(fields: map<string, Value>)
    requires "source" in fields && fields["source"] == Str(Relative)
    ensures ApplySpecifiers(Obj(fields), ["source"], "someModule/folder/lib.js", Decorate) ==
              Obj(fields["source" := Str(Rewritten)])
  {
    ApplySingleKey(fields, "source", ["source"], "someModule/folder/lib.js", Decorate);
    DecorateRelative();
  }
}
