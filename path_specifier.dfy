/**
 * Path specifiers: strings such as `a.b.someUrl` or `c[].aList[].someUrl`
 * naming the leaves of a settings tree that hold URLs. A specifier is split on
 * `.`; a segment ending in `[]` names an array whose every element the walk
 * visits.
 */
module PathSpecifier {

  /** A parsed segment: the property name and whether to fan out over an array. */
  datatype Segment = Segment(key: string, expand: bool)

  const Dot: char := '.'
  const Brackets: string := "[]"

  /** Concatenation of `parts` with one `.` between neighbours. */
  function Join(parts: seq<string>): (spec: string)
    requires |parts| >= 1
  {
    if |parts| == 1 then parts[0] else parts[0] + [Dot] + Join(parts[1..])
  }

  /** `s.split('.')`: the maximal dot-free pieces of `s`, empty ones included. */
  function Split(s: string): (parts: seq<string>)
    ensures |parts| >= 1
    ensures forall i :: 0 <= i < |parts| ==> Dot !in parts[i]
    decreases |s|
  {
    if s == [] then [""]
    else
      var rest := Split(s[1..]);
      if s[0] == Dot then [""] + rest
      else [[s[0]] + rest[0]] + rest[1..]
  }

  /** A specifier without a dot is a single segment. */
  lemma {:induction false} SplitDotFree(s: string)
    requires Dot !in s
    ensures Split(s) == [s]
    decreases |s|
  {
    if s != [] {
      assert Dot !in s[1..] by { assert forall x :: x in s[1..] ==> x in s; }
      SplitDotFree(s[1..]);
      assert [s[0]] + s[1..] == s;
    }
  }

  /** A two-segment specifier splits at its one dot. */
  lemma SplitTwo(a: string, b: string)
    requires Dot !in a && Dot !in b
    ensures Split(a + [Dot] + b) == [a, b]
  {
    assert Join([a, b]) == a + [Dot] + b by { assert [a, b][1..] == [b]; }
    SplitJoin([a, b]);
  }

  /** Splitting loses nothing: the pieces join back to the specifier. */
  lemma {:induction false} JoinSplit(s: string)
    ensures Join(Split(s)) == s
    decreases |s|
  {
    if s != [] {
      var rest := Split(s[1..]);
      JoinSplit(s[1..]);
      if s[0] == Dot {
        assert Split(s) == [""] + rest;
        assert (["" ] + rest)[1..] == rest;
      } else {
        var parts := Split(s);
        assert parts == [[s[0]] + rest[0]] + rest[1..];
        if |rest| == 1 {
          assert Join(parts) == [s[0]] + rest[0];
        } else {
          assert parts[1..] == rest[1..];
          assert Join(rest) == rest[0] + [Dot] + Join(rest[1..]);
        }
      }
    }
  }

  /** Splitting a join of dot-free pieces gives back the pieces. */
  lemma {:induction false} SplitJoin(parts: seq<string>)
    requires |parts| >= 1
    requires forall i :: 0 <= i < |parts| ==> Dot !in parts[i]
    ensures Split(Join(parts)) == parts
    decreases |parts|, |parts[0]|
  {
    if parts[0] == [] {
      if |parts| > 1 {
        var tail := parts[1..];
        assert Join(parts) == [Dot] + Join(tail);
        SplitJoin(tail);
        assert ([Dot] + Join(tail))[1..] == Join(tail);
        assert parts == [""] + tail;
      }
    } else {
      var c := parts[0][0];
      var shorter := [parts[0][1..]] + parts[1..];
      assert Dot !in shorter[0] by { assert forall x :: x in parts[0][1..] ==> x in parts[0]; }
      assert forall i :: 1 <= i < |shorter| ==> shorter[i] == parts[i];
      SplitJoin(shorter);
      JoinTail(parts);
      assert Join(parts) == [c] + Join(shorter);
      assert ([c] + Join(shorter))[1..] == Join(shorter);
      assert parts[0] == [c] + shorter[0];
      assert parts == [[c] + shorter[0]] + shorter[1..];
    }
  }

  /** Dropping the first character of the first piece drops the first character of the join. */
  lemma JoinTail(parts: seq<string>)
    requires |parts| >= 1 && parts[0] != []
    ensures Join(parts) == [parts[0][0]] + Join([parts[0][1..]] + parts[1..])
  {
    var shorter := [parts[0][1..]] + parts[1..];
    assert shorter[1..] == parts[1..];
    assert parts[0] == [parts[0][0]] + parts[0][1..];
  }

  predicate EndsWithBrackets(p: string) {
    |p| >= 2 && p[|p| - 2..] == Brackets
  }

  /** A segment with a trailing `[]` is an expansion of the key before it. */
  function ParseSegment(p: string): (seg: Segment)
    ensures seg.expand <==> EndsWithBrackets(p)
    ensures seg.expand ==> p == seg.key + Brackets
    ensures !seg.expand ==> p == seg.key
  {
    if EndsWithBrackets(p) then Segment(p[..|p| - 2], true) else Segment(p, false)
  }

  function FormatSegment(seg: Segment): (text: string) {
    if seg.expand then seg.key + Brackets else seg.key
  }

  /** Parsing a formatted segment gives it back, unless a plain key itself ends in `[]`. */
  lemma ParseFormatSegment(seg: Segment)
    requires seg.expand || !EndsWithBrackets(seg.key)
    ensures ParseSegment(FormatSegment(seg)) == seg
  {
    if seg.expand {
      var p := seg.key + Brackets;
      assert p[..|p| - 2] == seg.key;
      assert p[|p| - 2..] == Brackets;
    }
  }

  /** A specifier as the ordered list of segments the walk consumes. */
  function Parse(spec: string): (path: seq<Segment>)
    ensures |path| >= 1
    ensures forall i :: 0 <= i < |path| ==> Dot !in path[i].key
  {
    ParseAll(Split(spec))
  }

  function ParseAll(parts: seq<string>): (path: seq<Segment>)
    ensures |path| == |parts|
    ensures forall i :: 0 <= i < |parts| ==> path[i] == ParseSegment(parts[i])
  {
    if parts == [] then [] else [ParseSegment(parts[0])] + ParseAll(parts[1..])
  }

  function FormatAll(path: seq<Segment>): (parts: seq<string>)
    ensures |parts| == |path|
    ensures forall i :: 0 <= i < |path| ==> parts[i] == FormatSegment(path[i])
  {
    if path == [] then [] else [FormatSegment(path[0])] + FormatAll(path[1..])
  }

  /** The specifier text of a parsed path. */
  function Format(path: seq<Segment>): (spec: string)
    requires |path| >= 1
  {
    Join(FormatAll(path))
  }

  /** Parsing is lossless: every specifier is the formatting of its parse. */
  lemma FormatParse(spec: string)
    ensures Format(Parse(spec)) == spec
  {
    var parts := Split(spec);
    assert FormatAll(ParseAll(parts)) == parts;
    JoinSplit(spec);
  }

  /** A well-formed path (dot-free keys, no plain key ending in `[]`) survives formatting and parsing. */
  lemma ParseFormat(path: seq<Segment>)
    requires |path| >= 1
    requires forall i :: 0 <= i < |path| ==> Dot !in path[i].key
    requires forall i :: 0 <= i < |path| ==> path[i].expand || !EndsWithBrackets(path[i].key)
    ensures Parse(Format(path)) == path
  {
    var parts := FormatAll(path);
    forall i | 0 <= i < |parts| ensures Dot !in parts[i] && ParseSegment(parts[i]) == path[i] {
      ParseFormatSegment(path[i]);
      if path[i].expand {
        assert parts[i] == path[i].key + Brackets;
        assert forall j :: 0 <= j < |parts[i]| ==> parts[i][j] != Dot by {
          forall j | 0 <= j < |parts[i]| ensures parts[i][j] != Dot {
            if j < |path[i].key| { assert parts[i][j] == path[i].key[j]; }
          }
        }
      }
    }
    SplitJoin(parts);
    assert ParseAll(parts) == path;
  }
}
