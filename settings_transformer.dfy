/**
 * The settings file transformer: for each path specifier of an action, the
 * string leaves it reaches in the action's settings are replaced by
 * `decorate(leaf)`. Missing keys, type mismatches and non-string leaves are
 * skipped silently.
 */
module SettingsTransformer {
  import opened Wrappers
  import opened JsValue
  import opened PathSpecifier

  /** The per-leaf rule: strings are decorated, every other value is kept. */
  function RewriteLeaf(v: Value, decorate: string -> string): (r: Value)
    ensures v.Str? <==> r.Str?
    ensures v.Str? ==> r.s == decorate(v.s)
    ensures !v.Str? ==> r == v
  {
    if v.Str? then Str(decorate(v.s)) else v
  }

  /**
   * The walk of one parsed path from `v`. A plain segment indexes a mapping;
   * an expanding segment fans out over every element of the array at its
   * key; anything else drops the branch and leaves the tree as it was.
   */
  function ApplyPath(v: Value, path: seq<Segment>, decorate: string -> string): (r: Value)
    decreases v
  {
    if path == [] then RewriteLeaf(v, decorate)
    else if v.Obj? && path[0].key in v.fields then
      var child := v.fields[path[0].key];
      if !path[0].expand then
        Obj(v.fields[path[0].key := ApplyPath(child, path[1..], decorate)])
      else if child.Arr? then
        Obj(v.fields[path[0].key := Arr(ApplyEach(child, path[1..], decorate))])
      else v
    else v
  }

  /** The walk of the rest of a path from every element of an array. */
  function ApplyEach(arr: Value, path: seq<Segment>, decorate: string -> string): (r: seq<Value>)
    requires arr.Arr?
    ensures |r| == |arr.elems|
    decreases arr, 0
  {
    seq(|arr.elems|, i requires 0 <= i < |arr.elems| => ApplyPath(arr.elems[i], path, decorate))
  }

  /** The concrete locations a path names: one `Key` per plain segment, a `Key` and an `Index` per expansion. */
  predicate Matches(path: seq<Segment>, loc: seq<Step>)
    decreases |path|
  {
    if path == [] then loc == []
    else if !path[0].expand then
      |loc| >= 1 && loc[0] == Key(path[0].key) && Matches(path[1..], loc[1..])
    else
      |loc| >= 2 && loc[0] == Key(path[0].key) && loc[1].Index? && Matches(path[1..], loc[2..])
  }

  /**
   * `loc` is neither a location the path names nor an ancestor of one: it
   * leaves the path at some step, or it lies strictly below a named location.
   */
  predicate OffPath(path: seq<Segment>, loc: seq<Step>)
    decreases |path|
  {
    if path == [] then loc != []
    else if loc == [] then false
    else if loc[0] != Key(path[0].key) then true
    else if !path[0].expand then OffPath(path[1..], loc[1..])
    else if |loc| == 1 then false
    else if !loc[1].Index? then true
    else OffPath(path[1..], loc[2..])
  }

  /** At a location the path names, the walk applies the per-leaf rule to what was there. */
  lemma {:induction false} ApplyPathAtMatch(v: Value, path: seq<Segment>, decorate: string -> string, loc: seq<Step>)
    requires Matches(path, loc) && Get(v, loc).Some?
    ensures Get(ApplyPath(v, path, decorate), loc) == Some(RewriteLeaf(Get(v, loc).value, decorate))
    decreases v
  {
    if path != [] {
      var k := path[0].key;
      assert v.Obj? && k in v.fields;
      var child := v.fields[k];
      var r := ApplyPath(v, path, decorate);
      if !path[0].expand {
        ApplyPathAtMatch(child, path[1..], decorate, loc[1..]);
        assert r.fields[k] == ApplyPath(child, path[1..], decorate);
      } else {
        var i := loc[1].i;
        var rest := loc[2..];
        assert Get(v, loc) == Get(child, loc[1..]);
        assert loc[1..][1..] == rest;
        assert child.Arr? && i < |child.elems|;
        assert Get(child, loc[1..]) == Get(child.elems[i], rest);
        ApplyPathAtMatch(child.elems[i], path[1..], decorate, rest);
        var newChild := Arr(ApplyEach(child, path[1..], decorate));
        assert r.fields[k] == newChild;
        assert Get(r, loc) == Get(newChild, loc[1..]);
        assert Get(newChild, loc[1..]) == Get(newChild.elems[i], rest);
      }
    }
  }

  /** Off the path, the walk changes nothing: siblings, other branches and everything below a named leaf. */
  lemma {:induction false} ApplyPathOffPath(v: Value, path: seq<Segment>, decorate: string -> string, loc: seq<Step>)
    requires OffPath(path, loc)
    ensures Get(ApplyPath(v, path, decorate), loc) == Get(v, loc)
    decreases v
  {
    var r := ApplyPath(v, path, decorate);
    if path == [] {
      if v.Str? {
        assert Get(r, loc) == None by { GetBelowScalar(r, loc); }
        assert Get(v, loc) == None by { GetBelowScalar(v, loc); }
      }
    } else if v.Obj? && path[0].key in v.fields {
      var k := path[0].key;
      var child := v.fields[k];
      if loc[0] != Key(k) {
        match loc[0]
        case Key(k') =>
          assert r.Obj? && r.fields.Keys == v.fields.Keys;
          assert k' in r.fields ==> r.fields[k'] == v.fields[k'];
        case Index(_) =>
      } else if !path[0].expand {
        ApplyPathOffPath(child, path[1..], decorate, loc[1..]);
      } else if child.Arr? {
        var newChild := Arr(ApplyEach(child, path[1..], decorate));
        assert r.fields[k] == newChild;
        assert |loc| >= 2;
        match loc[1]
        case Key(_) =>
        case Index(i) =>
          var rest := loc[2..];
          assert loc[1..][1..] == rest;
          if i < |child.elems| {
            ApplyPathOffPath(child.elems[i], path[1..], decorate, rest);
            assert Get(newChild, loc[1..]) == Get(newChild.elems[i], rest);
            assert Get(child, loc[1..]) == Get(child.elems[i], rest);
          }
      }
    }
  }

  /** The walk neither adds nor removes locations: keys and array lengths are kept everywhere. */
  lemma {:induction false} ApplyPathKeepsShape(v: Value, path: seq<Segment>, decorate: string -> string, loc: seq<Step>)
    ensures Get(ApplyPath(v, path, decorate), loc).Some? <==> Get(v, loc).Some?
    decreases v
  {
    var r := ApplyPath(v, path, decorate);
    if loc == [] || r == v {
    } else if path == [] {
      assert v.Str?;
      GetBelowScalar(r, loc);
      GetBelowScalar(v, loc);
    } else {
      var k := path[0].key;
      var child := v.fields[k];
      if loc[0] != Key(k) {
        ApplyPathOffPath(v, path, decorate, loc);
      } else if !path[0].expand {
        ApplyPathKeepsShape(child, path[1..], decorate, loc[1..]);
      } else {
        var newChild := Arr(ApplyEach(child, path[1..], decorate));
        assert r.fields[k] == newChild;
        if |loc| >= 2 {
          match loc[1]
          case Key(_) =>
          case Index(i) =>
            var rest := loc[2..];
            assert loc[1..][1..] == rest;
            if i < |child.elems| {
              ApplyPathKeepsShape(child.elems[i], path[1..], decorate, rest);
              assert Get(newChild, loc[1..]) == Get(newChild.elems[i], rest);
              assert Get(child, loc[1..]) == Get(child.elems[i], rest);
            }
        }
      }
    }
  }

  /** A string sits at `loc`. */
  predicate StringAt(v: Value, loc: seq<Step>) {
    Get(v, loc).Some? && Get(v, loc).value.Str?
  }

  /** A path that reaches no string leaf leaves the tree exactly as it was, and never fails. */
  lemma {:induction false} ApplyPathUnresolved(v: Value, path: seq<Segment>, decorate: string -> string)
    requires forall loc :: Matches(path, loc) ==> !StringAt(v, loc)
    ensures ApplyPath(v, path, decorate) == v
    decreases v
  {
    if path == [] {
      assert Matches(path, []);
    } else if v.Obj? && path[0].key in v.fields {
      var k := path[0].key;
      var child := v.fields[k];
      if !path[0].expand {
        forall loc | Matches(path[1..], loc) ensures !StringAt(child, loc) {
          var full := [Key(k)] + loc;
          assert full[0] == Key(k) && full[1..] == loc;
          assert Matches(path, full);
          GetCons(v, Key(k), loc);
        }
        ApplyPathUnresolved(child, path[1..], decorate);
        assert v.fields[k := child] == v.fields;
      } else if child.Arr? {
        var each := ApplyEach(child, path[1..], decorate);
        forall i | 0 <= i < |child.elems| ensures each[i] == child.elems[i] {
          forall loc | Matches(path[1..], loc) ensures !StringAt(child.elems[i], loc) {
            var full := [Key(k), Index(i)] + loc;
            assert full[0] == Key(k) && full[1].Index? && full[2..] == loc;
            assert Matches(path, full);
            assert full[1..] == [Index(i)] + loc;
            GetCons(v, Key(k), [Index(i)] + loc);
            GetCons(child, Index(i), loc);
          }
          ApplyPathUnresolved(child.elems[i], path[1..], decorate);
        }
        assert each == child.elems;
        assert v.fields[k := child] == v.fields;
      }
    }
  }

  /** The module reference path of the built-in Custom Code action. */
  const CustomCodeModule: string := "core/src/lib/actions/customCode.js"

  /** The custom-code `source` specifier, parsed. */
  const SourcePath: seq<Segment> := [Segment("source", false)]

  /** The settings say `isExternal === true`. */
  predicate IsExternal(settings: Value) {
    settings.Obj? && "isExternal" in settings.fields && settings.fields["isExternal"] == Bool(true)
  }

  /**
   * Module-specific policy consulted before a path is walked: for the Custom
   * Code action the `source` path is walked only when `isExternal` is `true`;
   * every other module and path is always walked.
   */
  predicate PolicyAllows(modulePath: string, settings: Value, path: seq<Segment>) {
    modulePath == CustomCodeModule && path == SourcePath ==> IsExternal(settings)
  }

  /** The tree after the specifiers have been applied in order, each to the result of the ones before. */
  function ApplySpecifiers(v: Value, specs: seq<string>, modulePath: string, decorate: string -> string): (r: Value)
    decreases |specs|
  {
    if specs == [] then v
    else
      var prev := ApplySpecifiers(v, specs[..|specs| - 1], modulePath, decorate);
      var path := Parse(specs[|specs| - 1]);
      if PolicyAllows(modulePath, prev, path) then ApplyPath(prev, path, decorate) else prev
  }

  /**
   * The transformer returned by the factory, applied to one action's
   * settings: `null` and `undefined` settings, and every settings value when
   * enforcement is off, come back as they were; otherwise every specifier is
   * walked in order over the same tree.
   */
  method Transform(isDynamicEnforced: bool, decorate: string -> string, settings: Value,
                   pathSpecifiers: seq<string>, modulePath: string) returns (result: Value)
    ensures !isDynamicEnforced || settings.Null? || settings.Undefined? ==> result == settings
    ensures isDynamicEnforced && !settings.Null? && !settings.Undefined? ==>
              result == ApplySpecifiers(settings, pathSpecifiers, modulePath, decorate)
  {
    if !isDynamicEnforced || settings.Null? || settings.Undefined? {
      return settings;
    }
    result := settings;
    var i := 0;
    while i < |pathSpecifiers|
      invariant 0 <= i <= |pathSpecifiers|
      invariant result == ApplySpecifiers(settings, pathSpecifiers[..i], modulePath, decorate)
    {
      var path := Parse(pathSpecifiers[i]);
      assert pathSpecifiers[..i + 1][..i] == pathSpecifiers[..i];
      if PolicyAllows(modulePath, result, path) {
        result := ApplyPath(result, path, decorate);
      }
      i := i + 1;
    }
    assert pathSpecifiers[..i] == pathSpecifiers;
  }

  /** `loc` is off the path of every specifier in `specs`. */
  predicate OffAll(specs: seq<string>, loc: seq<Step>) {
    forall j :: 0 <= j < |specs| ==> OffPath(Parse(specs[j]), loc)
  }

  /** Locations off every specifier's path keep their value, whatever the module policy decides. */
  lemma {:induction false} ApplySpecifiersOffPath(v: Value, specs: seq<string>, modulePath: string,
                                                  decorate: string -> string, loc: seq<Step>)
    requires OffAll(specs, loc)
    ensures Get(ApplySpecifiers(v, specs, modulePath, decorate), loc) == Get(v, loc)
    decreases |specs|
  {
    if specs != [] {
      var init := specs[..|specs| - 1];
      assert OffAll(init, loc) by {
        forall j | 0 <= j < |init| ensures OffPath(Parse(init[j]), loc) { assert init[j] == specs[j]; }
      }
      ApplySpecifiersOffPath(v, init, modulePath, decorate, loc);
      var prev := ApplySpecifiers(v, init, modulePath, decorate);
      assert OffPath(Parse(specs[|specs| - 1]), loc);
      ApplyPathOffPath(prev, Parse(specs[|specs| - 1]), decorate, loc);
    }
  }

  /** Applying any list of specifiers neither adds nor removes locations. */
  lemma {:induction false} ApplySpecifiersKeepsShape(v: Value, specs: seq<string>, modulePath: string,
                                                     decorate: string -> string, loc: seq<Step>)
    ensures Get(ApplySpecifiers(v, specs, modulePath, decorate), loc).Some? <==> Get(v, loc).Some?
    decreases |specs|
  {
    if specs != [] {
      var init := specs[..|specs| - 1];
      ApplySpecifiersKeepsShape(v, init, modulePath, decorate, loc);
      var prev := ApplySpecifiers(v, init, modulePath, decorate);
      ApplyPathKeepsShape(prev, Parse(specs[|specs| - 1]), decorate, loc);
    }
  }

  /**
   * Specifiers apply independently: a string leaf named by exactly one
   * specifier, and off the path of all the others, ends up decorated once.
   * (Outside the Custom Code action no policy withholds a path.)
   */
  lemma {:induction false} ApplySpecifiersRewritesOnce(v: Value, specs: seq<string>, modulePath: string,
                                                       decorate: string -> string, loc: seq<Step>, j: nat, s: string)
    requires j < |specs| && Matches(Parse(specs[j]), loc)
    requires modulePath != CustomCodeModule || Parse(specs[j]) != SourcePath
    requires forall j' :: 0 <= j' < |specs| && j' != j ==> OffPath(Parse(specs[j']), loc)
    requires Get(v, loc) == Some(Str(s))
    ensures Get(ApplySpecifiers(v, specs, modulePath, decorate), loc) == Some(Str(decorate(s)))
    decreases |specs|
  {
    var last := |specs| - 1;
    var init := specs[..last];
    var prev := ApplySpecifiers(v, init, modulePath, decorate);
    if j == last {
      assert OffAll(init, loc) by {
        forall j' | 0 <= j' < |init| ensures OffPath(Parse(init[j']), loc) { assert init[j'] == specs[j']; }
      }
      ApplySpecifiersOffPath(v, init, modulePath, decorate, loc);
      ApplyPathAtMatch(prev, Parse(specs[last]), decorate, loc);
    } else {
      assert init[j] == specs[j];
      forall j' | 0 <= j' < |init| && j' != j ensures OffPath(Parse(init[j']), loc) { assert init[j'] == specs[j']; }
      ApplySpecifiersRewritesOnce(v, init, modulePath, decorate, loc, j, s);
      ApplyPathOffPath(prev, Parse(specs[last]), decorate, loc);
    }
  }

  /**
   * The Custom Code action's `source` is decorated exactly when the settings
   * say `isExternal === true`; with `false`, `undefined` or no flag at all it
   * is kept, and nothing else in the settings changes either way.
   */
  lemma CustomCodeSource(settings: Value, decorate: string -> string, src: string)
    requires settings.Obj? && "source" in settings.fields && settings.fields["source"] == Str(src)
    ensures ApplySpecifiers(settings, ["source"], CustomCodeModule, decorate) ==
              if IsExternal(settings) then Obj(settings.fields["source" := Str(decorate(src))]) else settings
  {
    var specs := ["source"];
    assert specs[..0] == [];
    assert ApplySpecifiers(settings, [], CustomCodeModule, decorate) == settings;
    SplitDotFree("source");
    assert Parse("source") == SourcePath;
    if IsExternal(settings) {
      assert SourcePath[1..] == [];
      assert ApplyPath(Str(src), [], decorate) == Str(decorate(src));
      assert ApplyPath(settings, SourcePath, decorate) == Obj(settings.fields["source" := Str(decorate(src))]);
    }
  }

  /** A dot-free specifier such as `source` or `someKey` is the leaf directly under the root. */
  lemma ApplySingleKey(fields: map<string, Value>, key: string, specs: seq<string>, modulePath: string,
                       decorate: string -> string)
    requires specs == [key] && Dot !in key && !EndsWithBrackets(key)
    requires modulePath != CustomCodeModule || key != "source"
    ensures ApplySpecifiers(Obj(fields), specs, modulePath, decorate) ==
              if key in fields then Obj(fields[key := RewriteLeaf(fields[key], decorate)]) else Obj(fields)
  {
    assert specs[..0] == [];
    SplitDotFree(key);
    var path := [Segment(key, false)];
    assert Parse(key) == path;
    assert PolicyAllows(modulePath, Obj(fields), path);
    assert ApplySpecifiers(Obj(fields), specs, modulePath, decorate) == ApplyPath(Obj(fields), path, decorate);
    if key in fields {
      assert path[1..] == [];
      assert ApplyPath(fields[key], [], decorate) == RewriteLeaf(fields[key], decorate);
    }
  }

  /** The element-wise rule of `list[].leaf`: an element that has a string `leaf` gets it decorated, any other is kept. */
  function RewriteElement(e: Value, leaf: string, decorate: string -> string): (r: Value)
    ensures !e.Obj? || leaf !in e.fields ==> r == e
    ensures e.Obj? && leaf in e.fields ==> r == Obj(e.fields[leaf := RewriteLeaf(e.fields[leaf], decorate)])
  {
    if e.Obj? && leaf in e.fields then Obj(e.fields[leaf := RewriteLeaf(e.fields[leaf], decorate)]) else e
  }

  /**
   * `list[].leaf` visits every element of the array at `list` and rewrites
   * its `leaf`; elements lacking it, sibling keys and a `list` that is not an
   * array are left alone.
   */
  lemma ApplyArrayWildcard(fields: map<string, Value>, list: string, leaf: string, modulePath: string,
                           decorate: string -> string)
    requires Dot !in list && Dot !in leaf && !EndsWithBrackets(leaf)
    ensures ApplySpecifiers(Obj(fields), [list + Brackets + [Dot] + leaf], modulePath, decorate) ==
              if list in fields && fields[list].Arr? then
                var es := fields[list].elems;
                Obj(fields[list := Arr(seq(|es|, i requires 0 <= i < |es| => RewriteElement(es[i], leaf, decorate)))])
              else Obj(fields)
  {
    var spec := list + Brackets + [Dot] + leaf;
    var specs := [spec];
    assert specs[..0] == [];
    assert Dot !in list + Brackets by {
      assert forall j :: 0 <= j < |list + Brackets| ==> (list + Brackets)[j] in list || (list + Brackets)[j] in Brackets;
    }
    SplitTwo(list + Brackets, leaf);
    assert (list + Brackets)[|list + Brackets| - 2..] == Brackets;
    assert ParseSegment(list + Brackets) == Segment(list, true) by {
      assert (list + Brackets)[..|list + Brackets| - 2] == list;
    }
    var path := [Segment(list, true), Segment(leaf, false)];
    assert Parse(spec) == path;
    assert PolicyAllows(modulePath, Obj(fields), path);
    assert ApplySpecifiers(Obj(fields), specs, modulePath, decorate) == ApplyPath(Obj(fields), path, decorate);
    if list in fields && fields[list].Arr? {
      var es := fields[list].elems;
      var each := ApplyEach(fields[list], path[1..], decorate);
      forall i | 0 <= i < |es| ensures each[i] == RewriteElement(es[i], leaf, decorate) {
        assert path[1..] == [Segment(leaf, false)];
        assert path[1..][1..] == [];
        assert each[i] == ApplyPath(es[i], [Segment(leaf, false)], decorate);
        if es[i].Obj? && leaf in es[i].fields {
          assert ApplyPath(es[i].fields[leaf], [], decorate) == RewriteLeaf(es[i].fields[leaf], decorate);
        }
      }
      assert ApplyPath(Obj(fields), path, decorate) == Obj(fields[list := Arr(each)]);
      assert each == seq(|es|, i requires 0 <= i < |es| => RewriteElement(es[i], leaf, decorate));
    }
  }

  /** A string met before the path ends is never decorated: segments in the middle of a path are not leaves. */
  lemma {:induction false} ApplyPathKeepsIntermediate(v: Value, prefix: seq<Segment>, rest: seq<Segment>,
                                                      decorate: string -> string, loc: seq<Step>)
    requires rest != [] && Matches(prefix, loc) && StringAt(v, loc)
    ensures Get(ApplyPath(v, prefix + rest, decorate), loc) == Get(v, loc)
    decreases v
  {
    var path := prefix + rest;
    if prefix == [] {
      assert path == rest && loc == [];
    } else {
      assert path[0] == prefix[0] && path[1..] == prefix[1..] + rest;
      var k := prefix[0].key;
      var child := v.fields[k];
      var r := ApplyPath(v, path, decorate);
      if !prefix[0].expand {
        ApplyPathKeepsIntermediate(child, prefix[1..], rest, decorate, loc[1..]);
      } else {
        var i := loc[1].i;
        var tail := loc[2..];
        assert loc[1..][1..] == tail;
        assert Get(v, loc) == Get(child, loc[1..]) == Get(child.elems[i], tail);
        ApplyPathKeepsIntermediate(child.elems[i], prefix[1..], rest, decorate, tail);
        var newChild := Arr(ApplyEach(child, path[1..], decorate));
        assert r.fields[k] == newChild;
        assert Get(r, loc) == Get(newChild, loc[1..]) == Get(newChild.elems[i], tail);
      }
    }
  }
}
