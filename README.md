# Settings rewriting for dynamic CDN hosts — a Dafny model

This project models the settings-rewriting layer of the Adobe Launch runtime
("Turbine"). Before an action runs, the relative URLs in its settings are
rewritten so that they point at the content-delivery host the library was
loaded from. Two cooperating pieces are modelled:

- **The dynamic host resolver** (`DynamicHostResolver`). At construction it
  decides whether dynamic-host enforcement is on (exactly when the CDN
  allow-list is an array, even an empty one). When enforcement is on, it
  validates the library embed code and checks the embed code's hostname
  against the allow-list. It then provides a memoised `getTurbineHost`
  (`protocol//host`, cleaned of one default-port suffix) and
  `decorateWithDynamicHost`, which joins that host and a relative URL with a
  single `/`. The guards are a pure function, `Validate`, that returns a
  `Result` carrying one of the two error codes. The resolver object is a
  class whose only mutable field is the memo. Its invariant `Valid()` says
  that a memoised host is the one the configuration determines.
- **The settings file transformer** (`SettingsTransformer`). It is given a
  settings tree (`JsValue.Value`) and a list of path specifiers such as
  `a.b.someUrl` or `c[].aList[].someUrl`, parsed by `PathSpecifier`. For each
  specifier in turn it walks the tree and replaces every string leaf it
  reaches with `decorate(leaf)`. Missing keys, type mismatches and
  non-string leaves are skipped silently. `null` and `undefined` settings,
  and all settings when enforcement is off, pass through unchanged. For the
  Custom Code action, `source` is rewritten only when `isExternal` is `true`.
  `Transform` is the method that loops over the specifiers; it is proved
  against the fold `ApplySpecifiers` of the recursive walk `ApplyPath`.
  Locations in the tree are written as sequences of `Key`/`Index` steps. The
  lemmas say three things: a location the path names gets the per-leaf rule;
  every location off the path keeps its value; no location appears or
  disappears.

The module `TransformerInstance` wires the two together the way the tests
configure them: embed code `https://assets.adobedtm.com` and allow-list
`['assets.adobedtm.com']`. It proves that `decorate("/some/relative/url")`
is `https://assets.adobedtm.com/some/relative/url`.

Modelling choices:
- The browser's URL parse (assigning `href` to a fresh anchor element) is
  the parameter `parse: string -> ParsedUrl`. The page protocol
  (`window.location.protocol`) is the parameter `pageProtocol`. An anchor
  whose `href` was never set is `BlankAnchor`, which has no host.
- The embed code is a string. `""` stands for every falsy value (`undefined`,
  `null`, `""`). The allow-list is `Option<seq<string>>`, where `None` means
  "not an array".
- The default-port cleaning uses `String.prototype.replace` with a string
  pattern. That call removes the FIRST occurrence of the pattern, not the
  suffix the regular expression tested. `ReplaceFirst` models this as
  written. `SanitizeStripsDefaultPort` proves suffix removal when the
  pattern occurs nowhere earlier. `SanitizeReplacesFirstOccurrence` shows the
  difference when the pattern also occurs earlier: for example, the IPv6
  host `[::80]:80` becomes `[:]:80`.
- The implementation of the transformer (`src/createSettingsFileTransformer.js`)
  is not part of this model. Its behaviour is taken from the test file
  `src/__tests__/createSettingsFileTransformer.test.js`. Where the tests do
  not decide, the model makes these choices:
  - an empty segment is looked up as the key `""` like any other key;
  - the Custom Code rule gates only the specifier that parses to exactly `source`;
  - `isExternal` is read from the tree as it stands when that specifier is
    reached, which matches in-place mutation.

## Model

| member | source | states |
|---|---|---|
| `DynamicHostResolver.Validate` | src/createDynamicHostResolver.js:15-62 | Enforcement is on exactly when the allow-list is an array, and an absent list never fails. `shouldAugment` holds exactly when enforcement is on and the embed code is non-empty. A constructor error happens exactly when, under enforcement, the embed code is empty, matches neither `^https?://` nor `^//`, or parses to no host. `dynamic_host_not_allowed` happens exactly when a well-formed code with a host has a hostname outside the list. A present but empty list always fails. On success under enforcement the URL is the parse of the href, and its hostname is listed; with no allow-list it is the blank anchor. The two failures carry the codes `dynamic_host_resolver_constructor_error` and `dynamic_host_not_allowed`, given by `ErrorCode.Code`. |
| `DynamicHostResolver.HrefIsAbsolute` | src/createDynamicHostResolver.js:42-47 | The href `Href` builds from an embed code that passes the shape guard is absolute: it carries its own `http(s)://` scheme or the page protocol followed by `//`, and it ends with the whole embed code. |
| `DynamicHostResolver.ReplaceFirst` | src/createDynamicHostResolver.js:81-87 | `replace` with a string pattern never lengthens the string when the replacement is no longer than the pattern. |
| `DynamicHostResolver.ReplaceFirstAbsent` | src/createDynamicHostResolver.js:81-87 | Without an occurrence of the pattern, `replace` returns its input. |
| `DynamicHostResolver.ReplaceFirstAt` | src/createDynamicHostResolver.js:81-87 | `replace` splices the replacement in place of the first occurrence of the pattern. |
| `DynamicHostResolver.SanitizeHost` | src/createDynamicHostResolver.js:79-88 | A host that ends in none of `:80`, `:80/`, `:443`, `:443/` is kept. The cleaned host is never longer than the original. |
| `DynamicHostResolver.SanitizeStripsDefaultPort` | src/createDynamicHostResolver.js:79-88 | A host ending in one of the four suffixes, tried in order, loses exactly that one suffix when the suffix occurs nowhere earlier. |
| `DynamicHostResolver.SanitizeKeepsPortlessHost` | src/createDynamicHostResolver.js:79-88 | A host whose last character ends none of the suffixes is kept as it is. |
| `DynamicHostResolver.SanitizeReplacesFirstOccurrence` | src/createDynamicHostResolver.js:80-81 | As written, a host `pre:80mid:80` whose first `:80` is the one after `pre` becomes `premid:80`: the earlier occurrence goes and the port stays. For example, `[::80]:80` becomes `[:]:80`. |
| `DynamicHostResolver.TurbineHostStripsDefaultPort` | src/createDynamicHostResolver.js:75-93 | For an augmenting resolver, `TurbineHost` is `protocol//` followed by the host less its default-port suffix, when that suffix occurs nowhere earlier in the host. |
| `DynamicHostResolver.TurbineHostKeepsPortlessHost` | src/createDynamicHostResolver.js:75-93 | For an augmenting resolver, a host with no default port (its last character ends none of the suffixes) gives `TurbineHost` = `protocol//host`. |
| `DynamicHostResolver.Resolver.GetTurbineHost` | src/createDynamicHostResolver.js:69-96 | Every call returns `TurbineHost` of the configuration: `""` when not augmenting, otherwise `protocol//` and the cleaned host. After the call the memo holds it. A memo that is already set is never changed. |
| `DynamicHostResolver.DecorateUrl` | src/createDynamicHostResolver.js:106-111 | A root-relative URL is appended to the host as it is; any other URL gets one `/` between host and URL. |
| `DynamicHostResolver.DecorateUrlRecoversPath` | src/createDynamicHostResolver.js:106-111 | The result starts with `host/`, and what follows gives back the URL less at most one leading `/`. |
| `DynamicHostResolver.Resolver.DecorateWithDynamicHost` | src/createDynamicHostResolver.js:104-115 | The result is `DecorateValue` with the memoised turbine host: a value that is not a string, and every value when not augmenting, comes back unchanged, and a string is joined to the host by `DecorateUrl`. The memo is filled only when a string is decorated. |
| `DynamicHostResolver.Resolver.constructor` | src/createDynamicHostResolver.js:117-123 | The resolver keeps the validated flags and URL (the `isDynamicEnforced` getter is the constant field), and its memo starts empty. |
| `DynamicHostResolver.CreateDynamicHostResolver` | src/createDynamicHostResolver.js:15-135 | The factory fails with the error `Validate` finds. Otherwise it returns a fresh, valid resolver holding the validated configuration and an empty memo. |
| `PathSpecifier.Split` | src/__tests__/createSettingsFileTransformer.test.js:380-386 | Splitting on `.` gives at least one piece, and no piece contains a dot. |
| `PathSpecifier.JoinSplit` | src/__tests__/createSettingsFileTransformer.test.js:380-386 | The pieces joined with `.` give back the specifier. |
| `PathSpecifier.SplitJoin` | src/__tests__/createSettingsFileTransformer.test.js:380-386 | Splitting a join of dot-free pieces gives back the pieces. |
| `PathSpecifier.SplitDotFree` | src/__tests__/createSettingsFileTransformer.test.js:111 | A specifier without a dot is one segment. |
| `PathSpecifier.SplitTwo` | src/__tests__/createSettingsFileTransformer.test.js:141 | A specifier with one dot splits into the two parts around it. |
| `PathSpecifier.ParseSegment` | src/__tests__/createSettingsFileTransformer.test.js:141 | A segment expands exactly when it ends in `[]`. It is then the key followed by `[]`; otherwise it is the key itself. |
| `PathSpecifier.ParseFormatSegment` | src/__tests__/createSettingsFileTransformer.test.js:141 | Formatting a segment and parsing the result gives the segment back, unless it is a plain key that itself ends in `[]`. |
| `PathSpecifier.Parse` | src/__tests__/createSettingsFileTransformer.test.js:380-386 | A parsed specifier has at least one segment, and no key contains a dot. |
| `PathSpecifier.FormatParse` | src/__tests__/createSettingsFileTransformer.test.js:380-386 | Parsing loses nothing: formatting the parse gives back the specifier text. |
| `PathSpecifier.ParseFormat` | src/__tests__/createSettingsFileTransformer.test.js:380-386 | A path with dot-free keys, and no plain key ending in `[]`, survives formatting then parsing. |
| `SettingsTransformer.ApplyPathAtMatch` | src/__tests__/createSettingsFileTransformer.test.js:104-162 | At every location the path names, the walk `ApplyPath` (with `ApplyEach` over the elements of an expanded array) applies the per-leaf rule `RewriteLeaf` to what was there, in every element an expansion visits: a string becomes `decorate` of itself, and a number, boolean, object or array is kept. |
| `SettingsTransformer.ApplyPathOffPath` | src/__tests__/createSettingsFileTransformer.test.js:164-238 | Every location that is neither named by the path nor an ancestor of a named one keeps its value. This covers sibling keys, same-named keys elsewhere, and everything below a named leaf. |
| `SettingsTransformer.ApplyPathKeepsShape` | src/__tests__/createSettingsFileTransformer.test.js:122-162 | The walk never adds or removes a key or an array element anywhere in the tree. |
| `SettingsTransformer.ApplyPathUnresolved` | src/__tests__/createSettingsFileTransformer.test.js:488-501 | A path that reaches no string leaf leaves the tree exactly as it was. Missing keys and expanding a non-array are silent. |
| `SettingsTransformer.ApplyPathKeepsIntermediate` | src/__tests__/createSettingsFileTransformer.test.js:282-334 | A string met in the middle of a path is never decorated, even when named like a URL key. |
| `SettingsTransformer.Transform` | src/__tests__/createSettingsFileTransformer.test.js:41-101 | `null` and `undefined` settings come back as they were, and so do all settings when enforcement is off. Otherwise the result is `ApplySpecifiers`: each specifier's walk applied, in order, to the tree the earlier ones left, when the module policy `PolicyAllows` it. |
| `SettingsTransformer.ApplySpecifiersOffPath` | src/__tests__/createSettingsFileTransformer.test.js:336-432 | A location off the path of every specifier keeps its value, under any module policy. |
| `SettingsTransformer.ApplySpecifiersKeepsShape` | src/__tests__/createSettingsFileTransformer.test.js:336-432 | Applying any list of specifiers never adds or removes a location. |
| `SettingsTransformer.ApplySpecifiersRewritesOnce` | src/__tests__/createSettingsFileTransformer.test.js:336-432 | Specifiers apply independently. A string named by one specifier, and off the paths of the others, ends up decorated exactly once. The one exception is the Custom Code `source` path. `CustomCodeSource` covers it only when `source` is the sole specifier. |
| `SettingsTransformer.CustomCodeSource` | src/__tests__/createSettingsFileTransformer.test.js:503-557 | For the Custom Code module, the policy `PolicyAllows` lets `source` be decorated exactly when `isExternal` is `true`. With `false`, `undefined` or no flag the settings are unchanged. |
| `SettingsTransformer.ApplySingleKey` | src/__tests__/createSettingsFileTransformer.test.js:104-120 | A dot-free specifier applies the per-leaf rule to that key of the root and changes nothing else, in every module except for the Custom Code `source` key. A missing key changes nothing. |
| `SettingsTransformer.ApplyArrayWildcard` | src/__tests__/createSettingsFileTransformer.test.js:122-162 | `list[].leaf` maps `RewriteElement` over the array at `list` in every module. `RewriteElement` keeps an element that is not a mapping or lacks the key, and otherwise gives only `leaf` the per-leaf rule. Nothing else changes. A `list` that is missing or is not an array changes nothing. |
| `TransformerInstance.InstanceValidates` | src/__tests__/createSettingsFileTransformer.test.js:16-18 | The tests' embed code and allow-list pass every guard, with enforcement and augmentation on. |
| `TransformerInstance.DecorateRelative` | src/__tests__/createSettingsFileTransformer.test.js:115-117 | For that resolver, `decorate("/some/relative/url")` is `https://assets.adobedtm.com/some/relative/url`. |
| `TransformerInstance.DecorateTwice` | src/createDynamicHostResolver.js:69-73 | Two decorations through one resolver (the second served from the memo) agree and give the expected URL. |
| `TransformerInstance.InstanceRewritesTopLevelSource` | src/__tests__/createSettingsFileTransformer.test.js:104-120 | With that resolver's decoration, a top-level `source` of `/some/relative/url` becomes the CDN URL, and the other keys are unchanged. |

## Left out

- The debug-controller subscription and the `window.dynamicHostResolver` global (src/createDynamicHostResolver.js:125-133): observability wiring on ambient global state.
- Browser URL parsing through `document.createElement('a')` and `window.location.protocol`: foreign DOM calls, taken as the parameters `parse` and `pageProtocol`.
- Object identity: the transformer mutates the caller's tree in place and returns the same reference. The model works on values, so "the same reference, untouched" becomes "an equal value". Aliasing (one object reachable along two paths) is not captured.
- Strings are sequences of Unicode scalar values, while JavaScript strings are UTF-16 code units: `charAt(0)`, `slice(1)` and the lengths in `SanitizeHost`'s bound count different units, and a lone surrogate cannot be represented. The patterns matched here are all ASCII, so nothing observable changes.
- The human-readable error messages (src/createDynamicHostResolver.js:27-28 and :55-57) are not modelled. The two failures are told apart by their codes, `ErrorCode.Code`, which are what callers test.
- JavaScript numbers are modelled as `int`; the transformer never inspects them. Non-string, truthy embed codes (which a regular expression would coerce) are not modelled.
- The module-policy registry is one predicate, `PolicyAllows`, with the Custom Code entry only.
- An empty path segment is looked up as the key `""`. It therefore matches nothing unless a mapping really has that key.
- `DecorateUrl` does not guard against already-absolute URLs; neither does the source. Callers pass only relative URLs.
- src/createSettingsFileTransformer.js is not part of this model; the tests fix the transformer's behaviour. The test harness's four-argument call of the resolver factory (src/__tests__/createSettingsFileTransformer.test.js:25-35) is not modelled either.
- src/bootstrap.js, the localStorage wrapper and the DOM event tests: global wiring, I/O and event dispatch outside the rewriting layer.
