/** The segment matcher `exec(url, route, matches)` of
    packages/preact-iso/router.js. It trims white space (the `'/'` argument
    of `trim` is ignored), splits both strings on `/`, cuts each pattern
    segment with `/^(\:?)(.*?)([+*?]?)$/`, and stores captures into the
    object it is given, which it returns on success. */
module IsoMatch {
  import opened Wrappers
  import opened JsStrings
  import opened Routes
  import LocMatch

  /** The three groups of the segment regular expression: the optional
      leading `:`, the lazy middle, and at most one trailing flag. */
  datatype Segment = Segment(colon: bool, param: string, flag: string)

  /** Characters around a piece that are not line terminators do not
      change whether a string holds one. */
  lemma TerminatorInMiddle(pre: string, mid: string, suf: string)
    requires !HasLineTerminator(pre) && !HasLineTerminator(suf)
    ensures HasLineTerminator(pre + mid + suf) <==> HasLineTerminator(mid)
  {
    var s := pre + mid + suf;
    if HasLineTerminator(mid) {
      var i :| 0 <= i < |mid| && IsLineTerminator(mid[i]);
      assert s[|pre| + i] == mid[i];
    }
    if HasLineTerminator(s) {
      var i :| 0 <= i < |s| && IsLineTerminator(s[i]);
      if |pre| <= i < |pre| + |mid| {
        assert s[i] == mid[i - |pre|];
      }
    }
  }

  /** `seg.match(/^(\:?)(.*?)([+*?]?)$/)`. The lazy middle group takes all
      but a final flag character; `.` does not match a line terminator, so
      a segment holding one does not match at all (`None`). */
  function SplitSegment(seg: string): (r: Option<Segment>)
    ensures r.Some? ==> (r.value.colon <==> LocMatch.IsParam(seg)) && r.value.flag in {"", "+", "*", "?"}
  {
    var colon := seg != [] && seg[0] == ':';
    var body := if colon then seg[1..] else seg;
    var flagged := body != [] && LocMatch.IsFlagChar(body[|body| - 1]);
    var param := if flagged then body[..|body| - 1] else body;
    if HasLineTerminator(param) then None
    else Some(Segment(colon, param, if flagged then [body[|body| - 1]] else ""))
  }

  /** The three groups put back together give the segment; the colon is
      there exactly for a parameter, and the flag is one of `+`, `*`, `?`
      or nothing, nothing only when the segment does not end in one. */
  lemma SplitSegmentParts(seg: string)
    requires SplitSegment(seg).Some?
    ensures var sg := SplitSegment(seg).value;
      && (if sg.colon then ":" else "") + sg.param + sg.flag == seg
      && (sg.colon <==> LocMatch.IsParam(seg))
      && sg.flag in {"", "+", "*", "?"}
      && (sg.flag == "" && seg != [] ==> !LocMatch.IsFlagChar(seg[|seg| - 1]))
  {
    GroupsRejoin(seg);
    EmptyFlagMeansNoFlagChar(seg);
  }

  /** The colon, the middle group and the flag, in that order, spell the
      segment. */
  lemma GroupsRejoin(seg: string)
    requires SplitSegment(seg).Some?
    ensures var sg := SplitSegment(seg).value;
      (if sg.colon then ":" else "") + sg.param + sg.flag == seg
  {
    var colon := seg != [] && seg[0] == ':';
    var body := if colon then seg[1..] else seg;
    var flagged := body != [] && LocMatch.IsFlagChar(body[|body| - 1]);
    var param := if flagged then body[..|body| - 1] else body;
    var flag := if flagged then [body[|body| - 1]] else "";
    assert SplitSegment(seg).value == Segment(colon, param, flag);
    assert param + flag == body;
    if colon {
      assert seg == [seg[0]] + body;
      assert ":" + param + flag == ":" + (param + flag);
    } else {
      assert "" + param + flag == body;
    }
  }

  /** The flag group is empty only when the segment does not end in a
      flag character. */
  lemma EmptyFlagMeansNoFlagChar(seg: string)
    requires SplitSegment(seg).Some?
    ensures SplitSegment(seg).value.flag == "" && seg != [] ==> !LocMatch.IsFlagChar(seg[|seg| - 1])
  {
    var colon := seg != [] && seg[0] == ':';
    var body := if colon then seg[1..] else seg;
    var flagged := body != [] && LocMatch.IsFlagChar(body[|body| - 1]);
    if !flagged && seg != [] {
      if body == [] {
        assert seg == ":";
      } else {
        assert seg[|seg| - 1] == body[|body| - 1];
      }
    }
  }

  /** The segment around the middle group: the colon before it and the
      flag after it, neither of which is a line terminator. */
  lemma MiddleGroupSurrounded(seg: string) returns (pre: string, suf: string)
    ensures !HasLineTerminator(pre) && !HasLineTerminator(suf)
    ensures var colon := seg != [] && seg[0] == ':';
      var body := if colon then seg[1..] else seg;
      var flagged := body != [] && LocMatch.IsFlagChar(body[|body| - 1]);
      pre + (if flagged then body[..|body| - 1] else body) + suf == seg
  {
    var colon := seg != [] && seg[0] == ':';
    var body := if colon then seg[1..] else seg;
    var flagged := body != [] && LocMatch.IsFlagChar(body[|body| - 1]);
    pre := if colon then ":" else "";
    suf := if flagged then [body[|body| - 1]] else "";
    assert pre + body == seg by {
      if colon { assert seg == [seg[0]] + seg[1..]; }
    }
    if flagged {
      assert body == body[..|body| - 1] + suf;
    }
    assert !HasLineTerminator(pre) && !HasLineTerminator(suf);
  }

  /** The match fails exactly on a segment holding a line terminator. */
  lemma SplitSegmentFails(seg: string)
    ensures SplitSegment(seg).None? <==> HasLineTerminator(seg)
  {
    var pre, suf := MiddleGroupSurrounded(seg);
    var colon := seg != [] && seg[0] == ':';
    var body := if colon then seg[1..] else seg;
    var flagged := body != [] && LocMatch.IsFlagChar(body[|body| - 1]);
    TerminatorInMiddle(pre, if flagged then body[..|body| - 1] else body, suf);
  }

  /** `s.trim('/').split('/')`. */
  function Segments(s: string): (segs: seq<string>)
    ensures |segs| >= 1
    ensures forall i :: 0 <= i < |segs| ==> '/' !in segs[i]
  {
    Split(Trim(s), '/')
  }

  /** The segments are the `/`-separated pieces of the trimmed string:
      joined again they give it back. */
  lemma SegmentsRejoin(s: string)
    ensures Join(Segments(s), '/') == Trim(s)
  {
    JoinSplit(Trim(s), '/');
  }

  /** How the walk ends: it ran out of segments or broke after a rest
      capture (the object is returned), a segment did not match
      (`undefined` is returned), or the regular expression did not match
      and destructuring its `null` result threw. */
  datatype Exit = Completed | Mismatch | Threw

  /** The exit and the final state of the `matches` object, which the
      caller still holds whatever the exit. */
  datatype Outcome = Outcome(exit: Exit, matches: map<string, Value>)

  /** The test that lets the walk go on after a parameter is stored. */
  datatype FlagRule = AsWritten | Intended

  /** As written, `flag >= '?'`: string comparison, true only for `?`. As
      the comment beside it intends ("normal/optional field"), a plain or
      optional parameter. */
  predicate GoesOn(rule: FlagRule, flag: string) {
    match rule
    case AsWritten => !LexLess(flag, "?")
    case Intended => flag == "" || flag == "?"
  }

  /** Of the four flags a segment can carry, only `?` passes `flag >= '?'`. */
  lemma OnlyOptionalGoesOn(flag: string)
    requires flag in {"", "+", "*", "?"}
    ensures GoesOn(AsWritten, flag) <==> flag == "?"
  {
  }

  /** The pattern segments as the regular expression cuts them. */
  function Parse(r: seq<string>): (ps: seq<Option<Segment>>)
    ensures |ps| == |r|
    ensures forall i :: 0 <= i < |r| ==> ps[i] == SplitSegment(r[i])
  {
    seq(|r|, i requires 0 <= i < |r| => SplitSegment(r[i]))
  }

  /** `(route[i] || '').match(...)`: past the end of the pattern the empty
      segment, a literal with an empty middle. */
  function SegmentAt(ps: seq<Option<Segment>>, i: nat): Option<Segment> {
    if i < |ps| then ps[i] else Some(Segment(false, "", ""))
  }

  lemma EmptySegment()
    ensures SplitSegment("") == Some(Segment(false, "", ""))
  {
    assert !HasLineTerminator("");
  }

  /** `!val`: the URL segment is missing or empty. */
  predicate Missing(val: Option<string>) {
    val.None? || val == Some("")
  }

  /** `val && decodeURIComponent(val)`: `undefined` and `''` are stored as
      they are, anything else decoded. */
  function Captured(decode: string -> string, val: Option<string>): (v: Value)
    ensures val.None? ==> v == Undefined
    ensures val == Some("") ==> v == Str("")
    ensures !Missing(val) ==> v == Str(decode(val.value))
  {
    match val
    case None => Undefined
    case Some(s) => if s == "" then Str("") else Str(decode(s))
  }

  /** The loop of `exec` from segment `i` with the object in state `m`,
      over the URL segments `u` and the cut pattern segments `ps`. */
  function Walk(decode: string -> string, rule: FlagRule, u: seq<string>, ps: seq<Option<Segment>>, i: nat, m: map<string, Value>): (o: Outcome)
    ensures o.exit == Threw ==> exists j :: i <= j < |ps| && ps[j].None?
    decreases LocMatch.Max(|u|, |ps|) - i
  {
    if i >= LocMatch.Max(|u|, |ps|) then Outcome(Completed, m)
    else match SegmentAt(ps, i)
      case None => Outcome(Threw, m)
      case Some(sg) =>
        var val := At(u, i);
        if !sg.colon && val == Some(sg.param) then Walk(decode, rule, u, ps, i + 1, m)
        else if !sg.colon || (Missing(val) && sg.flag != "?" && sg.flag != "*") then Outcome(Mismatch, m)
        else
          var m1 := m[sg.param := Captured(decode, val)];
          if GoesOn(rule, sg.flag) then Walk(decode, rule, u, ps, i + 1, m1)
          else Outcome(Completed, m1[sg.param := Str(LocMatch.Rest(decode, u, i))])
  }

  /* One step of the walk, one lemma per way out of the loop body. */

  lemma WalkPassesLiteral(decode: string -> string, rule: FlagRule, u: seq<string>, ps: seq<Option<Segment>>, i: nat, m: map<string, Value>)
    requires i < LocMatch.Max(|u|, |ps|) && SegmentAt(ps, i).Some?
    requires !SegmentAt(ps, i).value.colon && At(u, i) == Some(SegmentAt(ps, i).value.param)
    ensures Walk(decode, rule, u, ps, i, m) == Walk(decode, rule, u, ps, i + 1, m)
  {
  }

  lemma WalkStopsAt(decode: string -> string, rule: FlagRule, u: seq<string>, ps: seq<Option<Segment>>, i: nat, m: map<string, Value>)
    requires i < LocMatch.Max(|u|, |ps|) && SegmentAt(ps, i).Some?
    requires var sg := SegmentAt(ps, i).value;
      !(!sg.colon && At(u, i) == Some(sg.param))
      && (!sg.colon || (Missing(At(u, i)) && sg.flag != "?" && sg.flag != "*"))
    ensures Walk(decode, rule, u, ps, i, m) == Outcome(Mismatch, m)
  {
  }

  lemma WalkBindsAt(decode: string -> string, rule: FlagRule, u: seq<string>, ps: seq<Option<Segment>>, i: nat, m: map<string, Value>)
    requires i < LocMatch.Max(|u|, |ps|) && SegmentAt(ps, i).Some?
    requires var sg := SegmentAt(ps, i).value;
      sg.colon && !(Missing(At(u, i)) && sg.flag != "?" && sg.flag != "*")
    ensures var sg := SegmentAt(ps, i).value;
      Walk(decode, rule, u, ps, i, m)
      == if GoesOn(rule, sg.flag) then Walk(decode, rule, u, ps, i + 1, m[sg.param := Captured(decode, At(u, i))])
         else Outcome(Completed, m[sg.param := Captured(decode, At(u, i))][sg.param := Str(LocMatch.Rest(decode, u, i))])
  {
  }

  /** `exec(url, route, matches)` as written. */
  method Exec(decode: string -> string, url: string, route: string, matches: map<string, Value>)
    returns (exit: Exit, after: map<string, Value>)
    ensures Outcome(exit, after) == Walk(decode, AsWritten, Segments(url), Parse(Segments(route)), 0, matches)
  {
    var u := Segments(url);
    var r := Segments(route);
    exit, after := ExecSegments(decode, u, r, matches);
  }

  /** The loop of `exec` over the split URL `u` and pattern `r`. */
  method ExecSegments(decode: string -> string, u: seq<string>, r: seq<string>, matches: map<string, Value>)
    returns (exit: Exit, after: map<string, Value>)
    ensures Outcome(exit, after) == Walk(decode, AsWritten, u, Parse(r), 0, matches)
  {
    ghost var ps := Parse(r);
    EmptySegment();
    after := matches;
    var i: nat := 0;
    while i < LocMatch.Max(|u|, |r|)
      invariant Walk(decode, AsWritten, u, ps, i, after) == Walk(decode, AsWritten, u, ps, 0, matches)
      decreases LocMatch.Max(|u|, |r|) - i
    {
      var sg := SplitSegment(if i < |r| then r[i] else "");
      assert sg == SegmentAt(ps, i);
      if sg.None? {
        return Threw, after;
      }
      var m, param, flag := sg.value.colon, sg.value.param, sg.value.flag;
      var val := At(u, i);
      // segment match
      if !m && val == Some(param) {
        WalkPassesLiteral(decode, AsWritten, u, ps, i, after);
        i := i + 1;
        continue;
      }
      // segment mismatch / missing required field
      if !m || (Missing(val) && flag != "?" && flag != "*") {
        WalkStopsAt(decode, AsWritten, u, ps, i, after);
        return Mismatch, after;
      }
      WalkBindsAt(decode, AsWritten, u, ps, i, after);
      // field match
      after := after[param := Captured(decode, val)];
      // normal/optional field
      if !LexLess(flag, "?") {
        i := i + 1;
        continue;
      }
      // rest match
      after := after[param := Str(LocMatch.Rest(decode, u, i))];
      break;
    }
    exit := Completed;
  }

  /* ---------------------------------------------------------------------
     What the walk does.
     --------------------------------------------------------------------- */

  /** Segment `i` lets the walk go on under `rule`. */
  predicate ContinuesAt(rule: FlagRule, u: seq<string>, ps: seq<Option<Segment>>, i: nat) {
    match SegmentAt(ps, i)
    case None => false
    case Some(sg) =>
      (!sg.colon && At(u, i) == Some(sg.param))
      || (sg.colon && !(Missing(At(u, i)) && sg.flag != "?" && sg.flag != "*") && GoesOn(rule, sg.flag))
  }

  /** What segment `i` stores when it is passed. */
  function Bind(decode: string -> string, u: seq<string>, ps: seq<Option<Segment>>, i: nat, m: map<string, Value>): map<string, Value> {
    match SegmentAt(ps, i)
    case Some(sg) => if sg.colon then m[sg.param := Captured(decode, At(u, i))] else m
    case None => m
  }

  /** The object after segments `0` to `k - 1` were passed. */
  function MapAfter(decode: string -> string, u: seq<string>, ps: seq<Option<Segment>>, k: nat, m: map<string, Value>): map<string, Value> {
    if k == 0 then m else Bind(decode, u, ps, k - 1, MapAfter(decode, u, ps, k - 1, m))
  }

  /** When every segment before `k` lets the walk go on, it arrives at `k`
      with the captures of those segments stored. */
  lemma {:induction false} WalkReaches(decode: string -> string, rule: FlagRule, u: seq<string>, ps: seq<Option<Segment>>, m: map<string, Value>, k: nat)
    requires k <= LocMatch.Max(|u|, |ps|)
    requires forall j :: 0 <= j < k ==> ContinuesAt(rule, u, ps, j)
    ensures Walk(decode, rule, u, ps, 0, m) == Walk(decode, rule, u, ps, k, MapAfter(decode, u, ps, k, m))
  {
    if k > 0 {
      WalkReaches(decode, rule, u, ps, m, k - 1);
      assert ContinuesAt(rule, u, ps, k - 1);
    }
  }

  /** A literal segment equal to the URL segment is passed; any other
      literal segment, including one past the end of the URL, ends the
      match with `undefined`. */
  lemma LiteralSegment(decode: string -> string, rule: FlagRule, u: seq<string>, ps: seq<Option<Segment>>, m: map<string, Value>, k: nat)
    requires k < LocMatch.Max(|u|, |ps|)
    requires forall j :: 0 <= j < k ==> ContinuesAt(rule, u, ps, j)
    requires SegmentAt(ps, k).Some? && !SegmentAt(ps, k).value.colon
    ensures At(u, k) == Some(SegmentAt(ps, k).value.param) ==>
              Walk(decode, rule, u, ps, 0, m) == Walk(decode, rule, u, ps, k + 1, MapAfter(decode, u, ps, k, m))
    ensures At(u, k) != Some(SegmentAt(ps, k).value.param) ==>
              Walk(decode, rule, u, ps, 0, m).exit == Mismatch
  {
    WalkReaches(decode, rule, u, ps, m, k);
  }

  /** A pattern longer than the URL, whose extra segment is a literal,
      never matches. */
  lemma LongerLiteralPatternFails(decode: string -> string, rule: FlagRule, u: seq<string>, ps: seq<Option<Segment>>, m: map<string, Value>)
    requires |u| < |ps|
    requires forall j :: 0 <= j < |u| ==> ContinuesAt(rule, u, ps, j)
    requires ps[|u|].Some? && !ps[|u|].value.colon
    ensures Walk(decode, rule, u, ps, 0, m).exit == Mismatch
  {
    LiteralSegment(decode, rule, u, ps, m, |u|);
  }

  /** A parameter whose URL segment is missing or empty ends the match
      unless its flag is `?` or `*`. */
  lemma MissingRequiredFails(decode: string -> string, rule: FlagRule, u: seq<string>, ps: seq<Option<Segment>>, m: map<string, Value>, k: nat)
    requires k < LocMatch.Max(|u|, |ps|)
    requires forall j :: 0 <= j < k ==> ContinuesAt(rule, u, ps, j)
    requires SegmentAt(ps, k).Some? && SegmentAt(ps, k).value.colon
    requires Missing(At(u, k))
    requires SegmentAt(ps, k).value.flag !in {"?", "*"}
    ensures Walk(decode, rule, u, ps, 0, m).exit == Mismatch
  {
    WalkReaches(decode, rule, u, ps, m, k);
  }

  /** A `?` parameter stores its decoded segment, or `undefined` when the
      URL has none, and the walk goes on. */
  lemma OptionalBindsAndGoesOn(decode: string -> string, rule: FlagRule, u: seq<string>, ps: seq<Option<Segment>>, m: map<string, Value>, k: nat)
    requires k < LocMatch.Max(|u|, |ps|)
    requires forall j :: 0 <= j < k ==> ContinuesAt(rule, u, ps, j)
    requires SegmentAt(ps, k).Some? && SegmentAt(ps, k).value.colon
    requires SegmentAt(ps, k).value.flag == "?"
    ensures var sg := SegmentAt(ps, k).value;
      Walk(decode, rule, u, ps, 0, m)
      == Walk(decode, rule, u, ps, k + 1, MapAfter(decode, u, ps, k, m)[sg.param := Captured(decode, At(u, k))])
    ensures k >= |u| ==> Captured(decode, At(u, k)) == Undefined
  {
    WalkReaches(decode, rule, u, ps, m, k);
  }

  /** As written, every other parameter (plain, `+` or `*`) that is not
      rejected stores the decoded rest of the URL joined with `/` and ends
      the walk, so whatever the pattern holds after it is ignored. */
  lemma RestEndsWalk(decode: string -> string, u: seq<string>, ps: seq<Option<Segment>>, m: map<string, Value>, k: nat)
    requires k < LocMatch.Max(|u|, |ps|)
    requires forall j :: 0 <= j < k ==> ContinuesAt(AsWritten, u, ps, j)
    requires SegmentAt(ps, k).Some? && SegmentAt(ps, k).value.colon
    requires SegmentAt(ps, k).value.flag in {"", "+", "*"}
    requires !Missing(At(u, k)) || SegmentAt(ps, k).value.flag == "*"
    ensures var sg := SegmentAt(ps, k).value;
      Walk(decode, AsWritten, u, ps, 0, m)
      == Outcome(Completed, MapAfter(decode, u, ps, k, m)[sg.param := Str(LocMatch.Rest(decode, u, k))])
  {
    WalkReaches(decode, AsWritten, u, ps, m, k);
    OnlyOptionalGoesOn(SegmentAt(ps, k).value.flag);
  }

  /** A segment of the pattern names `key` as a parameter. */
  predicate Names(ps: seq<Option<Segment>>, key: string) {
    exists j :: 0 <= j < |ps| && ps[j].Some? && ps[j].value.colon && ps[j].value.param == key
  }

  /** The object keeps every key it had, and the value of every key no
      pattern segment names: `path` and `query` survive unless a parameter
      is called that. */
  lemma {:induction false} WalkKeepsKeys(decode: string -> string, rule: FlagRule, u: seq<string>, ps: seq<Option<Segment>>, i: nat, m: map<string, Value>, key: string)
    ensures m.Keys <= Walk(decode, rule, u, ps, i, m).matches.Keys
    ensures key in m && !Names(ps, key) ==> Walk(decode, rule, u, ps, i, m).matches[key] == m[key]
    decreases LocMatch.Max(|u|, |ps|) - i
  {
    if i < LocMatch.Max(|u|, |ps|) && SegmentAt(ps, i).Some? {
      var sg := SegmentAt(ps, i).value;
      var val := At(u, i);
      if !sg.colon && val == Some(sg.param) {
        WalkKeepsKeys(decode, rule, u, ps, i + 1, m, key);
      } else if !sg.colon || (Missing(val) && sg.flag != "?" && sg.flag != "*") {
      } else {
        assert i < |ps| && ps[i] == Some(sg);
        var m1 := m[sg.param := Captured(decode, val)];
        if GoesOn(rule, sg.flag) {
          WalkKeepsKeys(decode, rule, u, ps, i + 1, m1, key);
        }
      }
    }
  }

  /** `{ path, query }` handed to `exec` comes back with both entries,
      unchanged when no parameter is called `path` or `query`. */
  lemma PathAndQueryKept(decode: string -> string, u: seq<string>, ps: seq<Option<Segment>>, path: string, query: map<string, string>)
    ensures var w := Walk(decode, AsWritten, u, ps, 0, LocProps(path, query));
      "path" in w.matches && "query" in w.matches
      && (!Names(ps, "path") ==> w.matches["path"] == Str(path))
      && (!Names(ps, "query") ==> w.matches["query"] == QueryObject(query))
  {
    WalkKeepsKeys(decode, AsWritten, u, ps, 0, LocProps(path, query), "path");
    WalkKeepsKeys(decode, AsWritten, u, ps, 0, LocProps(path, query), "query");
  }

  /** The regular expression only fails on a segment holding a line
      terminator: a pattern without one never throws. */
  lemma {:induction false} NoThrowWithoutLineTerminator(decode: string -> string, rule: FlagRule, u: seq<string>, r: seq<string>, i: nat, m: map<string, Value>)
    requires forall j :: 0 <= j < |r| ==> !HasLineTerminator(r[j])
    ensures Walk(decode, rule, u, Parse(r), i, m).exit != Threw
    decreases LocMatch.Max(|u|, |r|) - i
  {
    var ps := Parse(r);
    if i < LocMatch.Max(|u|, |r|) {
      if i < |r| {
        SplitSegmentFails(r[i]);
      } else {
        EmptySegment();
      }
      var sg := SegmentAt(ps, i).value;
      var val := At(u, i);
      if !sg.colon && val == Some(sg.param) {
        NoThrowWithoutLineTerminator(decode, rule, u, r, i + 1, m);
      } else if !sg.colon || (Missing(val) && sg.flag != "?" && sg.flag != "*") {
      } else if GoesOn(rule, sg.flag) {
        NoThrowWithoutLineTerminator(decode, rule, u, r, i + 1, m[sg.param := Captured(decode, val)]);
      }
    }
  }

  /** Since `trim` leaves `/` alone, a leading `/` gives an empty first
      segment. */
  lemma LeadingSlashGivesEmptySegment(s: string)
    ensures Segments("/" + s)[0] == ""
  {
    var t := "/" + s;
    assert TrimStart(t) == t;
    assert !IsJsWhiteSpace(t[0]);
  }

  /** So for a URL and a pattern that both start with `/`, the walk passes
      that empty segment and starts at the second one. */
  lemma LeadingSlashesAlign(decode: string -> string, rule: FlagRule, url: string, route: string, m: map<string, Value>)
    ensures Walk(decode, rule, Segments("/" + url), Parse(Segments("/" + route)), 0, m)
            == Walk(decode, rule, Segments("/" + url), Parse(Segments("/" + route)), 1, m)
  {
    LeadingSlashGivesEmptySegment(url);
    LeadingSlashGivesEmptySegment(route);
    EmptySegment();
  }

  /* ---------------------------------------------------------------------
     A plain parameter swallows the rest of the URL.
     --------------------------------------------------------------------- */

  /** A word with no colon in front, no flag at the end and no line
      terminator is a literal segment. */
  lemma LiteralWord(w: string)
    requires w != [] && w[0] != ':' && !LocMatch.IsFlagChar(w[|w| - 1])
    requires forall c :: c in w ==> !IsLineTerminator(c)
    ensures SplitSegment(w) == Some(Segment(false, w, ""))
  {
    assert !HasLineTerminator(w);
  }

  /** The same word after a colon is a plain parameter. */
  lemma PlainParamWord(w: string)
    requires w != [] && !LocMatch.IsFlagChar(w[|w| - 1])
    requires forall c :: c in w ==> !IsLineTerminator(c)
    ensures SplitSegment([':'] + w) == Some(Segment(true, w, ""))
  {
    assert ([':'] + w)[1..] == w;
    assert !HasLineTerminator(w);
  }

  /** The segments of `/user/:id/edit`. */
  lemma UserEditPattern()
    ensures Parse(["", "user", ":id", "edit"])
            == [Some(Segment(false, "", "")), Some(Segment(false, "user", "")),
                Some(Segment(true, "id", "")), Some(Segment(false, "edit", ""))]
  {
    EmptySegment();
    LiteralWord("user");
    PlainParamWord("id");
    assert ":id" == [':'] + "id";
    LiteralWord("edit");
  }

  /** As written, `/user/:id/edit` matches `/user/5/delete`: the plain
      `:id` takes `5/delete` and the literal `edit` is never compared. */
  lemma PlainParamSwallowsRest(decode: string -> string)
    ensures Walk(decode, AsWritten, ["", "user", "5", "delete"], Parse(["", "user", ":id", "edit"]), 0, map[])
            == Outcome(Completed, map["id" := Str(decode("5") + "/" + decode("delete"))])
  {
    UserEditPattern();
    var u: seq<string> := ["", "user", "5", "delete"];
    assert LexLess("", "?");
    assert u[2..] == ["5", "delete"];
    assert MapSeq(decode, ["5", "delete"]) == [decode("5"), decode("delete")];
    assert Join([decode("5"), decode("delete")], '/') == decode("5") + "/" + decode("delete");
  }

  /** With the intended test a plain parameter stores its own decoded
      segment and the walk goes on, so the segments after it must match. */
  lemma IntendedPlainParamGoesOn(decode: string -> string, u: seq<string>, ps: seq<Option<Segment>>, m: map<string, Value>, k: nat)
    requires k < LocMatch.Max(|u|, |ps|)
    requires forall j :: 0 <= j < k ==> ContinuesAt(Intended, u, ps, j)
    requires SegmentAt(ps, k).Some? && SegmentAt(ps, k).value.colon
    requires SegmentAt(ps, k).value.flag == ""
    requires !Missing(At(u, k))
    ensures var sg := SegmentAt(ps, k).value;
      Walk(decode, Intended, u, ps, 0, m)
      == Walk(decode, Intended, u, ps, k + 1, MapAfter(decode, u, ps, k, m)[sg.param := Str(decode(u[k]))])
  {
    WalkReaches(decode, Intended, u, ps, m, k);
  }

  /** With the intended test, `/user/:id/edit` rejects `/user/5/delete`
      and matches `/user/5/edit` with `id` bound to `5` alone. */
  lemma IntendedPlainParamExample(decode: string -> string)
    ensures Walk(decode, Intended, ["", "user", "5", "delete"], Parse(["", "user", ":id", "edit"]), 0, map[]).exit == Mismatch
    ensures Walk(decode, Intended, ["", "user", "5", "edit"], Parse(["", "user", ":id", "edit"]), 0, map[])
            == Outcome(Completed, map["id" := Str(decode("5"))])
  {
    UserEditPattern();
  }
}
