/**
 * The dynamic host resolver: at construction it decides whether dynamic-host
 * enforcement is on, validates the library embed code and checks its host
 * against the CDN allow-list; afterwards it hands out the (memoised) turbine
 * host and decorates relative URLs with it.
 *
 * The browser's URL parse (assigning `href` to a fresh anchor element) is the
 * parameter `parse`, and `window.location.protocol` is `pageProtocol`.
 */
module DynamicHostResolver {
  import opened Wrappers
  import opened JsValue

  /** The anchor element's view of a URL after its `href` is assigned. */
  datatype ParsedUrl = ParsedUrl(protocol: string, host: string, hostname: string)

  /** A fresh anchor element whose `href` was never set: it has no host. */
  const BlankAnchor: ParsedUrl := ParsedUrl("", "", "")

  /** The two construction failures, told apart by their `code`. */
  datatype ErrorCode = ConstructorError | HostNotAllowed {
    function Code(): string {
      match this
      case ConstructorError => "dynamic_host_resolver_constructor_error"
      case HostNotAllowed => "dynamic_host_not_allowed"
    }
  }

  /** What construction settles once and for all. */
  datatype Config = Config(isDynamicEnforced: bool, shouldAugment: bool, turbineUrl: ParsedUrl)

  predicate StartsWith(s: string, prefix: string) {
    |prefix| <= |s| && s[..|prefix|] == prefix
  }

  predicate EndsWith(s: string, suffix: string) {
    |suffix| <= |s| && s[|s| - |suffix|..] == suffix
  }

  /** The embed code starts with `http://` or `https://`. */
  predicate IsHttpUrl(s: string) {
    StartsWith(s, "http://") || StartsWith(s, "https://")
  }

  /** The embed code is protocol-relative: it starts with `//`. */
  predicate IsProtocolRelative(s: string) {
    StartsWith(s, "//")
  }

  /** The href the anchor is given: a protocol-relative embed code borrows the page's protocol. */
  function Href(embedCode: string, pageProtocol: string): (href: string)
    ensures IsHttpUrl(embedCode) ==> href == embedCode
    ensures !IsHttpUrl(embedCode) ==> href == pageProtocol + embedCode
  {
    if !IsHttpUrl(embedCode) then pageProtocol + embedCode else embedCode
  }

  /**
   * An embed code that passes the shape guard yields an absolute href: it
   * names its own `http(s)` scheme or the page's protocol before `//`, and
   * the embed code itself is kept whole at the end.
   */
  lemma HrefIsAbsolute(embedCode: string, pageProtocol: string)
    requires IsHttpUrl(embedCode) || IsProtocolRelative(embedCode)
    ensures IsHttpUrl(Href(embedCode, pageProtocol)) || StartsWith(Href(embedCode, pageProtocol), pageProtocol + "//")
    ensures EndsWith(Href(embedCode, pageProtocol), embedCode)
  {
    var href := Href(embedCode, pageProtocol);
    if !IsHttpUrl(embedCode) {
      assert href[..|pageProtocol| + 2] == pageProtocol + embedCode[..2];
      assert href[|href| - |embedCode|..] == embedCode;
    }
  }

  /**
   * The guards run by the factory. The embed code "" stands for every falsy
   * JavaScript value; `allowList` is `None` when the list is not an array.
   */
  function Validate(embedCode: string, allowList: Option<seq<string>>, pageProtocol: string,
                    parse: string -> ParsedUrl): (r: Result<Config, ErrorCode>)
    // enforcement is on exactly when the list is an array, even an empty one
    ensures r.Success? ==> r.value.isDynamicEnforced == allowList.Some?
    ensures allowList.None? ==> r.Success? && !r.value.shouldAugment && r.value.turbineUrl == BlankAnchor
    ensures r.Success? ==> (r.value.shouldAugment <==> allowList.Some? && embedCode != "")
    // a missing or malformed embed code, or one without a host, is a constructor error
    ensures allowList.Some? && embedCode == "" ==> r == Failure(ConstructorError)
    ensures (allowList.Some? && embedCode != "" && !IsHttpUrl(embedCode) && !IsProtocolRelative(embedCode))
              ==> r == Failure(ConstructorError)
    ensures r == Failure(ConstructorError) <==>
              allowList.Some? &&
              (embedCode == "" || (!IsHttpUrl(embedCode) && !IsProtocolRelative(embedCode)) ||
               parse(Href(embedCode, pageProtocol)).host == "")
    // a well-formed embed code whose hostname is not listed is refused
    ensures r == Failure(HostNotAllowed) <==>
              allowList.Some? && embedCode != "" && (IsHttpUrl(embedCode) || IsProtocolRelative(embedCode)) &&
              parse(Href(embedCode, pageProtocol)).host != "" &&
              parse(Href(embedCode, pageProtocol)).hostname !in allowList.value
    ensures allowList == Some([]) ==> r.Failure?
    // on success under enforcement, the URL is the parse of the href and its hostname is listed
    ensures r.Success? && r.value.isDynamicEnforced ==>
              r.value.turbineUrl == parse(Href(embedCode, pageProtocol)) &&
              r.value.turbineUrl.host != "" && r.value.turbineUrl.hostname in allowList.value
  {
    var isDynamicEnforced := allowList.Some?;
    var shouldAugment := isDynamicEnforced && embedCode != "";
    if !isDynamicEnforced then Success(Config(false, false, BlankAnchor))
    else if embedCode != "" && !IsHttpUrl(embedCode) && !IsProtocolRelative(embedCode) then
      Failure(ConstructorError)
    else
      var turbineUrl := if embedCode != "" then parse(Href(embedCode, pageProtocol)) else BlankAnchor;
      if turbineUrl.host == "" then Failure(ConstructorError)
      else if turbineUrl.hostname !in allowList.value then Failure(HostNotAllowed)
      else Success(Config(isDynamicEnforced, shouldAugment, turbineUrl))
  }

  /** `pat` occurs in `s` starting at index `j`. */
  predicate OccursAt(s: string, pat: string, j: nat) {
    j + |pat| <= |s| && s[j..j + |pat|] == pat
  }

  /** JavaScript's `s.replace(pat, rep)` with a string pattern: only the FIRST occurrence is replaced. */
  function ReplaceFirst(s: string, pat: string, rep: string): (r: string)
    ensures |rep| <= |pat| ==> |r| <= |s|
    decreases |s|
  {
    if StartsWith(s, pat) then rep + s[|pat|..]
    else if s == [] then s
    else [s[0]] + ReplaceFirst(s[1..], pat, rep)
  }

  /** Without an occurrence of the pattern, `replace` returns the string unchanged. */
  lemma {:induction false} ReplaceFirstAbsent(s: string, pat: string, rep: string)
    requires forall j :: 0 <= j <= |s| ==> !OccursAt(s, pat, j)
    ensures ReplaceFirst(s, pat, rep) == s
    decreases |s|
  {
    assert !OccursAt(s, pat, 0);
    if s != [] {
      forall j | 0 <= j <= |s[1..]| ensures !OccursAt(s[1..], pat, j) {
        assert !OccursAt(s, pat, j + 1);
        if j + |pat| <= |s[1..]| { assert s[1..][j..j + |pat|] == s[j + 1..j + 1 + |pat|]; }
      }
      ReplaceFirstAbsent(s[1..], pat, rep);
    }
  }

  /** `replace` splices `rep` in place of the first occurrence of the pattern. */
  lemma {:induction false} ReplaceFirstAt(s: string, pat: string, rep: string, i: nat)
    requires OccursAt(s, pat, i)
    requires forall j :: 0 <= j < i ==> !OccursAt(s, pat, j)
    ensures ReplaceFirst(s, pat, rep) == s[..i] + rep + s[i + |pat|..]
    decreases i
  {
    if i == 0 {
      assert s[..|pat|] == s[0..|pat|];
    } else {
      assert !OccursAt(s, pat, 0);
      var t := s[1..];
      assert OccursAt(t, pat, i - 1) by { assert t[i - 1..i - 1 + |pat|] == s[i..i + |pat|]; }
      forall j | 0 <= j < i - 1 ensures !OccursAt(t, pat, j) {
        assert !OccursAt(s, pat, j + 1);
        assert t[j..j + |pat|] == s[j + 1..j + 1 + |pat|];
      }
      ReplaceFirstAt(t, pat, rep, i - 1);
      assert s[..i] == [s[0]] + t[..i - 1];
      assert t[i - 1 + |pat|..] == s[i + |pat|..];
    }
  }

  /** The default-port suffixes the host is cleaned of, in the order they are tried. */
  const DefaultPortSuffixes: seq<string> := [":80", ":80/", ":443", ":443/"]

  predicate EndsWithDefaultPort(h: string) {
    EndsWith(h, ":80") || EndsWith(h, ":80/") || EndsWith(h, ":443") || EndsWith(h, ":443/")
  }

  /**
   * The cleaning of `turbineUrl.host`: the first of the suffixes the host
   * ends with is removed by `replace`, that is, at its first occurrence.
   */
  function SanitizeHost(h: string): (r: string)
    ensures |r| <= |h|
    ensures !EndsWithDefaultPort(h) ==> r == h
  {
    if EndsWith(h, ":80") then ReplaceFirst(h, ":80", "")
    else if EndsWith(h, ":80/") then ReplaceFirst(h, ":80/", "")
    else if EndsWith(h, ":443") then ReplaceFirst(h, ":443", "")
    else if EndsWith(h, ":443/") then ReplaceFirst(h, ":443/", "")
    else h
  }

  /** Removing a suffix that occurs nowhere earlier leaves the rest of the host. */
  lemma ReplaceFinalOccurrence(base: string, suffix: string)
    requires |suffix| >= 2
    requires forall j :: 0 <= j < |base| ==> !OccursAt(base + suffix, suffix, j)
    ensures EndsWith(base + suffix, suffix)
    ensures ReplaceFirst(base + suffix, suffix, "") == base
    ensures (base + suffix)[|base + suffix| - 1] == suffix[|suffix| - 1]
    ensures (base + suffix)[|base + suffix| - 2] == suffix[|suffix| - 2]
  {
    var h := base + suffix;
    assert h[|base|..|base| + |suffix|] == suffix;
    ReplaceFirstAt(h, suffix, "", |base|);
    assert h[..|base|] == base;
    assert h[|base| + |suffix|..] == [];
    assert h[|h| - |suffix|..] == suffix;
  }

  /** A host whose character at distance `d` from the end differs from the suffix's does not end with it. */
  lemma NotEndsWithAt(h: string, suffix: string, d: nat)
    requires d < |suffix| && d < |h|
    requires h[|h| - 1 - d] != suffix[|suffix| - 1 - d]
    ensures !EndsWith(h, suffix)
  {
    if |suffix| <= |h| {
      assert h[|h| - |suffix|..][|suffix| - 1 - d] == h[|h| - 1 - d];
    }
  }

  /**
   * A host ending in one default-port suffix, with no earlier occurrence of
   * that suffix, loses exactly that suffix: the suffixes tried before it
   * cannot also end the host.
   */
  lemma SanitizeStripsDefaultPort(base: string, k: nat)
    requires k < |DefaultPortSuffixes|
    requires forall j :: 0 <= j < |base| ==> !OccursAt(base + DefaultPortSuffixes[k], DefaultPortSuffixes[k], j)
    ensures SanitizeHost(base + DefaultPortSuffixes[k]) == base
  {
    var suffix := DefaultPortSuffixes[k];
    var h := base + suffix;
    ReplaceFinalOccurrence(base, suffix);
    if k == 1 {
      NotEndsWithAt(h, ":80", 0);
    } else if k == 2 {
      NotEndsWithAt(h, ":80", 0);
      NotEndsWithAt(h, ":80/", 0);
    } else if k == 3 {
      NotEndsWithAt(h, ":80", 0);
      NotEndsWithAt(h, ":80/", 1);
      NotEndsWithAt(h, ":443", 0);
    }
  }

  /** A host whose last character ends none of the suffixes (a hostname ending in a letter, say) is kept. */
  lemma SanitizeKeepsPortlessHost(h: string)
    requires h != [] && h[|h| - 1] !in {'0', '/', '3'}
    ensures SanitizeHost(h) == h
  {
    NotEndsWithAt(h, ":80", 0);
    NotEndsWithAt(h, ":80/", 0);
    NotEndsWithAt(h, ":443", 0);
    NotEndsWithAt(h, ":443/", 0);
  }

  /**
   * As written the replacement hits the FIRST occurrence, not the suffix:
   * when `:80` also occurs earlier in the host (as in the IPv6 host
   * `[::80]:80`, with `pre` = `[:` and `mid` = `]`), the earlier occurrence
   * is removed and the port stays.
   */
  lemma SanitizeReplacesFirstOccurrence(pre: string, mid: string)
    requires forall j :: 0 <= j < |pre| ==> !OccursAt(pre + ":80" + mid + ":80", ":80", j)
    ensures SanitizeHost(pre + ":80" + mid + ":80") == pre + mid + ":80"
  {
    var h := pre + ":80" + mid + ":80";
    assert h == pre + (":80" + mid + ":80");
    assert h[|pre|..|pre| + 3] == ":80";
    ReplaceFirstAt(h, ":80", "", |pre|);
    assert h[..|pre|] == pre;
    assert h[|pre| + 3..] == mid + ":80";
    assert h[|h| - 3..] == ":80";
  }

  /** `protocol//host` for an augmenting resolver, with the host cleaned of a default port; "" otherwise. */
  function TurbineHost(shouldAugment: bool, turbineUrl: ParsedUrl): (host: string)
    ensures !shouldAugment ==> host == ""
    ensures shouldAugment ==> StartsWith(host, turbineUrl.protocol + "//")
    ensures shouldAugment ==> host[|turbineUrl.protocol| + 2..] == SanitizeHost(turbineUrl.host)
  {
    if shouldAugment then turbineUrl.protocol + "//" + SanitizeHost(turbineUrl.host) else ""
  }

  /** The turbine host is `protocol//host` with a default port removed, when the port occurs only at the end. */
  lemma TurbineHostStripsDefaultPort(protocol: string, base: string, hostname: string, k: nat)
    requires k < |DefaultPortSuffixes|
    requires forall j :: 0 <= j < |base| ==> !OccursAt(base + DefaultPortSuffixes[k], DefaultPortSuffixes[k], j)
    ensures TurbineHost(true, ParsedUrl(protocol, base + DefaultPortSuffixes[k], hostname)) == protocol + "//" + base
  {
    SanitizeStripsDefaultPort(base, k);
  }

  /** A host with no default port (one ending in a letter, say) comes through as `protocol//host`. */
  lemma TurbineHostKeepsPortlessHost(protocol: string, host: string, hostname: string)
    requires host != [] && host[|host| - 1] !in {'0', '/', '3'}
    ensures TurbineHost(true, ParsedUrl(protocol, host, hostname)) == protocol + "//" + host
  {
    SanitizeKeepsPortlessHost(host);
  }

  /**
   * `[host, url'].join('/')`, where `url'` is `url` less one leading `/`: a
   * root-relative URL is appended to the host as it is, any other gets a `/`
   * in between. An absolute URL is not recognised and is prefixed too.
   */
  function DecorateUrl(host: string, url: string): (r: string)
    ensures StartsWith(url, "/") ==> r == host + url
    ensures !StartsWith(url, "/") ==> r == host + "/" + url
  {
    host + "/" + (if |url| > 0 && url[0] == '/' then url[1..] else url)
  }

  /** The decorated part after the host gives back the URL, less one leading `/`. */
  lemma DecorateUrlRecoversPath(host: string, url: string)
    ensures StartsWith(DecorateUrl(host, url), host + "/")
    ensures "/" + DecorateUrl(host, url)[|host| + 1..] == if StartsWith(url, "/") then url else "/" + url
  {
    var r := DecorateUrl(host, url);
    if StartsWith(url, "/") {
      assert r == host + "/" + url[1..] by { assert url == "/" + url[1..]; }
    }
    assert r[..|host| + 1] == host + "/";
  }

  /** `decorateWithDynamicHost` on any JavaScript value: only strings, and only when augmenting, change. */
  function DecorateValue(shouldAugment: bool, host: string, v: Value): (r: Value)
    ensures !shouldAugment || !v.Str? ==> r == v
    ensures shouldAugment && v.Str? ==> r == Str(DecorateUrl(host, v.s))
  {
    if shouldAugment && v.Str? then Str(DecorateUrl(host, v.s)) else v
  }

  /** The object the factory returns; `memoizedHostResult` is filled by the first `GetTurbineHost`. */
  class Resolver {
    const isDynamicEnforced: bool
    const shouldAugment: bool
    const turbineUrl: ParsedUrl
    var memoizedHostResult: Option<string>

    /** A memoised host is the one the configuration determines. */
    ghost predicate Valid()
      reads this
    {
      memoizedHostResult.Some? ==> memoizedHostResult.value == TurbineHost(shouldAugment, turbineUrl)
    }

    constructor (config: Config)
      ensures isDynamicEnforced == config.isDynamicEnforced
      ensures shouldAugment == config.shouldAugment
      ensures turbineUrl == config.turbineUrl
      ensures memoizedHostResult == None
      ensures Valid()
    {
      isDynamicEnforced := config.isDynamicEnforced;
      shouldAugment := config.shouldAugment;
      turbineUrl := config.turbineUrl;
      memoizedHostResult := None;
    }

    /** Computed on the first call and returned from the memo on every later one. */
    method GetTurbineHost() returns (host: string)
      requires Valid()
      modifies this`memoizedHostResult
      ensures Valid()
      ensures host == TurbineHost(shouldAugment, turbineUrl)
      ensures memoizedHostResult == Some(host)
      ensures old(memoizedHostResult).Some? ==> memoizedHostResult == old(memoizedHostResult)
    {
      if memoizedHostResult.Some? {
        return memoizedHostResult.value;
      }
      if shouldAugment {
        var sanitizedHost := SanitizeHost(turbineUrl.host);
        memoizedHostResult := Some(turbineUrl.protocol + "//" + sanitizedHost);
      } else {
        memoizedHostResult := Some("");
      }
      host := memoizedHostResult.value;
    }

    /** Decorates a string URL with the turbine host; any other value, or any value when not augmenting, is returned as is. */
    method DecorateWithDynamicHost(sourceUrl: Value) returns (r: Value)
      requires Valid()
      modifies this`memoizedHostResult
      ensures Valid()
      ensures r == DecorateValue(shouldAugment, TurbineHost(shouldAugment, turbineUrl), sourceUrl)
      ensures shouldAugment && sourceUrl.Str? ==> memoizedHostResult == Some(TurbineHost(shouldAugment, turbineUrl))
      ensures !(shouldAugment && sourceUrl.Str?) ==> memoizedHostResult == old(memoizedHostResult)
    {
      if shouldAugment && sourceUrl.Str? {
        var host := GetTurbineHost();
        var url := sourceUrl.s;
        var relative := if |url| > 0 && url[0] == '/' then url[1..] else url;
        return Str(host + "/" + relative);
      }
      return sourceUrl;
    }
  }

  /** The factory: runs the guards and, when none fails, builds a resolver with an empty memo. */
  method CreateDynamicHostResolver(embedCode: string, allowList: Option<seq<string>>, pageProtocol: string,
                                   parse: string -> ParsedUrl) returns (r: Result<Resolver, ErrorCode>)
    ensures Validate(embedCode, allowList, pageProtocol, parse).Failure? ==>
              r == Failure(Validate(embedCode, allowList, pageProtocol, parse).error)
    ensures Validate(embedCode, allowList, pageProtocol, parse).Success? ==>
              var config := Validate(embedCode, allowList, pageProtocol, parse).value;
              && r.Success? && fresh(r.value) && r.value.Valid()
              && r.value.isDynamicEnforced == config.isDynamicEnforced
              && r.value.shouldAugment == config.shouldAugment
              && r.value.turbineUrl == config.turbineUrl
              && r.value.memoizedHostResult == None
  {
    var validated := Validate(embedCode, allowList, pageProtocol, parse);
    if validated.Failure? {
      return Failure(validated.error);
    }
    var resolver := new Resolver(validated.value);
    return Success(resolver);
  }
}
