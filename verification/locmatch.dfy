/** The matcher `exec(url, route, opts)` of demo/public/lib/loc.js: it
    parses the query string of `url` into a fresh match map, splits the path
    and the pattern into segments and walks them pairwise. It answers the
    map, or "no match" (`false`) when a segment fails and the route is not
    a default route. */
module LocMatch {
  import opened Wrappers
  import opened JsStrings

  function Max(a: nat, b: nat): nat {
    if a < b then b else a
  }

  /* ---------------------------------------------------------------------
     The query/hash regular expression /(?:\?([^#]*))?(#.*)?$/ .
     `match` and `replace` both use its leftmost match.
     --------------------------------------------------------------------- */

  /** The index of the first `c` in `s`, or `|s|`. */
  function IndexOf(s: string, c: char): (i: nat)
    ensures i <= |s| && c !in s[..i]
    ensures i < |s| ==> s[i] == c
  {
    if s == [] || s[0] == c then 0
    else
      var k := IndexOf(s[1..], c);
      assert s[..k + 1] == [s[0]] + s[1..][..k];
      k + 1
  }

  /** `(#.*)$`: a `#` and then anything up to the end but a line terminator. */
  predicate HashTail(s: string) {
    s != [] && s[0] == '#' && !HasLineTerminator(s[1..])
  }

  /** `[^#]*` after a leading `?`: everything up to the next `#`. */
  function QueryText(s: string): (q: string)
    requires s != [] && s[0] == '?'
    ensures '#' !in q && 1 + |q| <= |s| && q == s[1..1 + |q|]
    ensures 1 + |q| < |s| ==> s[1 + |q|] == '#'
  {
    s[1..1 + IndexOf(s[1..], '#')]
  }

  /** The regular expression, anchored at the start of `s`, matches all of `s`. */
  predicate SuffixMatches(s: string) {
    s == [] || HashTail(s)
    || (s[0] == '?' && (1 + |QueryText(s)| == |s| || HashTail(s[1 + |QueryText(s)|..])))
  }

  /** Where the leftmost match starts: the first position from which the
      rest of `url` is a query and/or hash. */
  function SuffixStart(url: string): (i: nat)
    ensures i <= |url| && SuffixMatches(url[i..])
    ensures forall j :: 0 <= j < i ==> !SuffixMatches(url[j..])
  {
    if SuffixMatches(url) then 0
    else
      var k := SuffixStart(url[1..]);
      assert url[k + 1..] == url[1..][k..];
      assert forall j :: 1 <= j < k + 1 ==> !SuffixMatches(url[j..]) by {
        forall j | 1 <= j < k + 1 ensures !SuffixMatches(url[j..]) {
          assert url[j..] == url[1..][j - 1..];
        }
      }
      k + 1
  }

  /** `c[1]`, the query group of the match: present when the match starts
      with `?`. */
  function QueryGroup(url: string): (q: Option<string>)
    ensures q.Some? ==> '#' !in q.value
  {
    var i := SuffixStart(url);
    if i < |url| && url[i] == '?' then Some(QueryText(url[i..])) else None
  }

  /** `url.replace(reg, '')`: the path, without query and hash. */
  function PathPart(url: string): (p: string)
    ensures |p| <= |url| && p == url[..|p|]
    ensures SuffixMatches(url[|p|..])
    ensures forall j :: 0 <= j < |p| ==> !SuffixMatches(url[j..])
  {
    url[..SuffixStart(url)]
  }

  /** Without line terminators the match starts at the first `?` or `#`:
      the path is everything before it, the query is what follows a first
      `?` up to the next `#`. */
  lemma {:induction false} SuffixStartIsFirstMark(url: string, i: nat)
    requires !HasLineTerminator(url)
    requires i <= |url| && (i < |url| ==> url[i] == '?' || url[i] == '#')
    requires forall j :: 0 <= j < i ==> url[j] != '?' && url[j] != '#'
    ensures SuffixStart(url) == i
    ensures PathPart(url) == url[..i]
    ensures QueryGroup(url).Some? <==> i < |url| && url[i] == '?'
  {
    var s := url[i..];
    if s != [] {
      assert forall k :: 0 <= k < |s[1..]| ==> s[1..][k] == url[i + 1 + k];
      assert !HasLineTerminator(s[1..]);
      if s[0] == '?' && 1 + |QueryText(s)| < |s| {
        var t := s[1 + |QueryText(s)|..];
        assert forall k :: 0 <= k < |t[1..]| ==> t[1..][k] == s[1..][|QueryText(s)| + 1 + k];
        assert HashTail(t);
      }
    }
    assert SuffixMatches(url[i..]);
    forall j | 0 <= j < i ensures !SuffixMatches(url[j..]) {
      assert url[j..][0] == url[j];
    }
  }

  /* ---------------------------------------------------------------------
     The query loop: `c[1].split('&')`, each pair `split('=')`.
     --------------------------------------------------------------------- */

  /** `decodeURIComponent(r[0])` with `r = pair.split('=')`. */
  function PairKey(decode: string -> string, pair: string): string {
    decode(Split(pair, '=')[0])
  }

  /** `decodeURIComponent(r.slice(1).join('='))`. */
  function PairValue(decode: string -> string, pair: string): string {
    decode(Join(Split(pair, '=')[1..], '='))
  }

  /** The key is the text before the first `=`, the value all the text
      after it (later `=` kept), and a pair without `=` has the value `""`. */
  lemma {:induction false} PairSplitsAtFirstEquals(pair: string)
    ensures var r := Split(pair, '='); var k := IndexOf(pair, '=');
      r[0] == pair[..k] && Join(r[1..], '=') == if k < |pair| then pair[k + 1..] else ""
  {
    var k := IndexOf(pair, '=');
    if k < |pair| {
      var tail := pair[k + 1..];
      assert pair == pair[..k] + (['='] + tail);
      SplitPrefix(pair[..k], ['='] + tail, '=');
      assert (['='] + tail)[1..] == tail;
      assert Split(['='] + tail, '=') == [""] + Split(tail, '=');
      JoinSplit(tail, '=');
    } else {
      assert pair == pair[..k] + "";
      SplitPrefix(pair[..k], "", '=');
    }
  }

  /** The pairs stored one after the other into `m`: a later key overwrites
      an earlier one. */
  function AddPairs(decode: string -> string, pairs: seq<string>, m: map<string, string>): (r: map<string, string>)
    ensures m.Keys <= r.Keys
  {
    if pairs == [] then m
    else AddPairs(decode, pairs[1..], m[PairKey(decode, pairs[0]) := PairValue(decode, pairs[0])])
  }

  /** The map `exec` starts from: the query pairs, when the query group is
      a non-empty string. */
  function QueryMatches(decode: string -> string, url: string): (r: map<string, string>)
    ensures r != map[] ==> QueryGroup(url).Some? && QueryGroup(url).value != ""
  {
    var q := QueryGroup(url);
    if q.Some? && q.value != "" then AddPairs(decode, Split(q.value, '&'), map[]) else map[]
  }

  /** No pair in `pairs[from..]` has the key `k`. */
  predicate NoKeyFrom(decode: string -> string, pairs: seq<string>, from: nat, k: string) {
    forall j :: from <= j < |pairs| ==> PairKey(decode, pairs[j]) != k
  }

  /** Last write wins: a key is present iff it was in `m` or some pair has
      it; its value is that of the last pair with that key, or `m`'s value
      when no pair has it. */
  lemma {:induction false} AddPairsLastWins(decode: string -> string, pairs: seq<string>, m: map<string, string>, k: string)
    ensures k in AddPairs(decode, pairs, m) <==>
            k in m || exists i :: 0 <= i < |pairs| && PairKey(decode, pairs[i]) == k
    ensures forall i :: 0 <= i < |pairs| && PairKey(decode, pairs[i]) == k && NoKeyFrom(decode, pairs, i + 1, k) ==>
            AddPairs(decode, pairs, m)[k] == PairValue(decode, pairs[i])
    ensures k in m && NoKeyFrom(decode, pairs, 0, k) ==> AddPairs(decode, pairs, m)[k] == m[k]
  {
    if pairs != [] {
      var m' := m[PairKey(decode, pairs[0]) := PairValue(decode, pairs[0])];
      var tail := pairs[1..];
      AddPairsLastWins(decode, tail, m', k);
      assert forall i :: 1 <= i < |pairs| ==> pairs[i] == tail[i - 1];
      assert forall i :: 0 <= i < |tail| ==> tail[i] == pairs[i + 1];
      forall i | 0 <= i < |pairs| && PairKey(decode, pairs[i]) == k && NoKeyFrom(decode, pairs, i + 1, k)
        ensures AddPairs(decode, pairs, m)[k] == PairValue(decode, pairs[i])
      {
        if i == 0 {
          assert NoKeyFrom(decode, tail, 0, k);
        } else {
          assert PairKey(decode, tail[i - 1]) == k;
          assert NoKeyFrom(decode, tail, i, k);
        }
      }
      if k in m && NoKeyFrom(decode, pairs, 0, k) {
        assert NoKeyFrom(decode, tail, 0, k);
      }
      if exists i :: 0 <= i < |tail| && PairKey(decode, tail[i]) == k {
        var i :| 0 <= i < |tail| && PairKey(decode, tail[i]) == k;
        assert PairKey(decode, pairs[i + 1]) == k;
      }
    }
  }

  /* ---------------------------------------------------------------------
     Segments.
     --------------------------------------------------------------------- */

  /** `^\/+` removed. */
  function TrimLeadingSlashes(s: string): (r: string)
    ensures |r| <= |s| && r == s[|s| - |r|..]
    ensures r == [] || r[0] != '/'
    ensures forall i :: 0 <= i < |s| - |r| ==> s[i] == '/'
  {
    if s != [] && s[0] == '/' then TrimLeadingSlashes(s[1..]) else s
  }

  /** `\/+$` removed. */
  function TrimTrailingSlashes(s: string): (r: string)
    ensures |r| <= |s| && r == s[..|r|]
    ensures r == [] || r[|r| - 1] != '/'
    ensures forall i :: |r| <= i < |s| ==> s[i] == '/'
  {
    if s != [] && s[|s| - 1] == '/' then TrimTrailingSlashes(s[..|s| - 1]) else s
  }

  /** `segmentize(url)`: leading and trailing slashes removed, then split on `/`. */
  function Segmentize(s: string): (segs: seq<string>)
    ensures |segs| >= 1
    ensures forall i :: 0 <= i < |segs| ==> '/' !in segs[i]
  {
    Split(TrimTrailingSlashes(TrimLeadingSlashes(s)), '/')
  }

  /** The segments are the `/`-separated pieces of the path without its
      leading and trailing slashes: joined again they give it back. */
  lemma SegmentizeRejoins(s: string)
    ensures Join(Segmentize(s), '/') == TrimTrailingSlashes(TrimLeadingSlashes(s))
  {
    JoinSplit(TrimTrailingSlashes(TrimLeadingSlashes(s)), '/');
  }

  /** Slashes around a path do not change its segments: `/a/` and `a`
      segment alike. */
  lemma {:induction false} SegmentizeIgnoresOuterSlashes(s: string)
    ensures Segmentize("/" + s) == Segmentize(s)
    ensures Segmentize(s + "/") == Segmentize(s)
  {
    assert ("/" + s)[1..] == s;
    TrailingSlashDropped(TrimLeadingSlashes(s + "/"), s);
  }

  lemma {:induction false} TrailingSlashDropped(r: string, s: string)
    requires r == TrimLeadingSlashes(s + "/")
    ensures TrimTrailingSlashes(r) == TrimTrailingSlashes(TrimLeadingSlashes(s))
    decreases |s|
  {
    if s == [] {
      assert TrimLeadingSlashes("/") == TrimLeadingSlashes("");
    } else if s[0] == '/' {
      assert (s + "/")[1..] == s[1..] + "/";
      TrailingSlashDropped(r, s[1..]);
    } else {
      NoLeadingSlash(s);
      NoLeadingSlash(s + "/");
      assert (s + "/")[..|s|] == s;
    }
  }

  lemma NoLeadingSlash(s: string)
    requires s != [] && s[0] != '/'
    ensures TrimLeadingSlashes(s) == s
  {
  }

  /** `route[i] && route[i].charAt(0)===':'`. */
  predicate IsParam(seg: string) {
    seg != [] && seg[0] == ':'
  }

  predicate IsFlagChar(c: char) {
    c == '+' || c == '*' || c == '?'
  }

  /** The length of the trailing run of `+`, `*` and `?`. */
  function FlagRunLength(seg: string): (n: nat)
    ensures n <= |seg|
    ensures forall i :: |seg| - n <= i < |seg| ==> IsFlagChar(seg[i])
    ensures n < |seg| ==> !IsFlagChar(seg[|seg| - n - 1])
  {
    if seg != [] && IsFlagChar(seg[|seg| - 1]) then 1 + FlagRunLength(seg[..|seg| - 1]) else 0
  }

  /** `(route[i].match(/[+*?]+$/) || EMPTY)[0] || ''`. */
  function Flags(seg: string): string {
    seg[|seg| - FlagRunLength(seg)..]
  }

  /** `route[i].replace(/(^:|[+*?]+$)/g, '')`. */
  function ParamName(seg: string): string
    requires IsParam(seg)
  {
    seg[1..|seg| - FlagRunLength(seg)]
  }

  /** The colon, the name and the trailing flags make up the segment. */
  lemma ParamNameRejoins(seg: string)
    requires IsParam(seg)
    ensures seg == [':'] + ParamName(seg) + Flags(seg)
  {
    assert seg == [seg[0]] + seg[1..];
  }

  /** The pattern segment at `i` is a parameter. */
  predicate ParamAt(r: seq<string>, i: nat) {
    i < |r| && IsParam(r[i])
  }

  /** `url[i] || ''`. */
  function ValAt(u: seq<string>, i: nat): string {
    if i < |u| then u[i] else ""
  }

  /** The parameter at `i` captures the rest of the path (`+` or `*`). */
  predicate RestAt(r: seq<string>, i: nat) {
    ParamAt(r, i) && ('+' in Flags(r[i]) || '*' in Flags(r[i]))
  }

  /** The check a segment must pass: a parameter fails on an empty value
      unless it is `*`, or `?` without `+`; anything else must equal the
      URL segment (both possibly missing). */
  predicate SegmentOk(u: seq<string>, r: seq<string>, i: nat) {
    if ParamAt(r, i) then
      var flags := Flags(r[i]);
      !(ValAt(u, i) == "" && '*' !in flags && ('?' !in flags || '+' in flags))
    else At(r, i) == At(u, i)
  }

  /** The walk goes on past segment `i`. */
  predicate ContinuesAt(u: seq<string>, r: seq<string>, i: nat) {
    SegmentOk(u, r, i) && !RestAt(r, i)
  }

  /** The remaining URL segments, decoded and joined with `/`. */
  function Rest(decode: string -> string, u: seq<string>, i: nat): string {
    Join(MapSeq(decode, SliceFrom(u, i)), '/')
  }

  datatype WalkResult = WalkResult(failed: bool, matches: map<string, string>)

  /** The loop of `exec` from segment `i` with the map `m`. */
  function Walk(decode: string -> string, u: seq<string>, r: seq<string>, i: nat, m: map<string, string>): (w: WalkResult)
    ensures forall key :: key in m ==> key in w.matches
    decreases Max(|u|, |r|) - i
  {
    if i >= Max(|u|, |r|) then WalkResult(false, m)
    else if !SegmentOk(u, r, i) then WalkResult(true, m)
    else if RestAt(r, i) then WalkResult(false, m[ParamName(r[i]) := Rest(decode, u, i)])
    else if ParamAt(r, i) then Walk(decode, u, r, i + 1, m[ParamName(r[i]) := decode(ValAt(u, i))])
    else Walk(decode, u, r, i + 1, m)
  }

  /** `exec(url, route, opts)`: `None` is the `false` answer. */
  function Match(decode: string -> string, url: string, route: string, isDefault: bool): (r: Option<map<string, string>>)
    ensures isDefault ==> r.Some?
  {
    var w := Walk(decode, Segmentize(PathPart(url)), Segmentize(route), 0, QueryMatches(decode, url));
    if !isDefault && w.failed then None else Some(w.matches)
  }

  /** The query loop of `exec`: every `&`-separated pair stored into the
      map in order. */
  method ParseQuery(decode: string -> string, query: string, m0: map<string, string>)
    returns (matches: map<string, string>)
    ensures matches == AddPairs(decode, Split(query, '&'), m0)
  {
    matches := m0;
    var p := Split(query, '&');
    var i := 0;
    while i < |p|
      invariant 0 <= i <= |p|
      invariant AddPairs(decode, p[i..], matches) == AddPairs(decode, p, m0)
    {
      var pair := Split(p[i], '=');
      matches := matches[decode(pair[0]) := decode(Join(pair[1..], '='))];
      assert p[i..][1..] == p[i + 1..];
      i := i + 1;
    }
  }

  /** `exec` as written: the query loop, then the segment loop. */
  method Exec(decode: string -> string, url: string, route: string, isDefault: bool)
    returns (r: Option<map<string, string>>)
    ensures r == Match(decode, url, route, isDefault)
  {
    var matches: map<string, string> := map[];
    var c := QueryGroup(url);
    if c.Some? && c.value != "" {
      matches := ParseQuery(decode, c.value, matches);
    }
    assert matches == QueryMatches(decode, url);
    var failed;
    failed, matches := WalkSegments(decode, Segmentize(PathPart(url)), Segmentize(route), matches);
    if !isDefault && failed {
      return None;
    }
    return Some(matches);
  }

  /** One step of the walk at a parameter segment. */
  lemma WalkParamStep(decode: string -> string, u: seq<string>, r: seq<string>, i: nat, m: map<string, string>)
    requires i < |r| && IsParam(r[i])
    ensures var flags := Flags(r[i]);
      var val := ValAt(u, i);
      var name := ParamName(r[i]);
      Walk(decode, u, r, i, m)
      == if val == "" && '*' !in flags && ('?' !in flags || '+' in flags) then WalkResult(true, m)
         else if '+' in flags || '*' in flags then WalkResult(false, m[name := Rest(decode, u, i)])
         else Walk(decode, u, r, i + 1, m[name := decode(val)])
  {
  }

  /** One step of the walk at a literal segment (or past the pattern). */
  lemma WalkLiteralStep(decode: string -> string, u: seq<string>, r: seq<string>, i: nat, m: map<string, string>)
    requires i < Max(|u|, |r|) && !ParamAt(r, i)
    ensures Walk(decode, u, r, i, m)
            == if At(r, i) != At(u, i) then WalkResult(true, m) else Walk(decode, u, r, i + 1, m)
  {
  }

  /** The segment loop of `exec`, from the first segment. */
  method WalkSegments(decode: string -> string, u: seq<string>, rt: seq<string>, m0: map<string, string>)
    returns (failed: bool, matches: map<string, string>)
    ensures WalkResult(failed, matches) == Walk(decode, u, rt, 0, m0)
  {
    matches := m0;
    failed := false;
    var max := Max(|u|, |rt|);
    ghost var goal := Walk(decode, u, rt, 0, m0);
    var i := 0;
    while i < max
      invariant 0 <= i <= max
      invariant !failed && Walk(decode, u, rt, i, matches) == goal
    {
      if i < |rt| && rt[i] != [] && rt[i][0] == ':' {
        WalkParamStep(decode, u, rt, i, matches);
        var param := ParamName(rt[i]);
        var flags := Flags(rt[i]);
        var plus := '+' in flags;
        var star := '*' in flags;
        var val := if i < |u| then u[i] else "";
        if val == "" && !star && ('?' !in flags || plus) {
          failed := true;
          break;
        }
        var before := matches;
        matches := matches[param := decode(val)];
        if plus || star {
          // url.slice(i).map(decodeURIComponent).join('/')
          matches := matches[param := Rest(decode, u, i)];
          assert matches == before[param := Rest(decode, u, i)];
          break;
        }
      } else {
        WalkLiteralStep(decode, u, rt, i, matches);
        if At(rt, i) != At(u, i) {
          failed := true;
          break;
        }
      }
      i := i + 1;
    }
  }

  /* ---------------------------------------------------------------------
     What the walk does.
     --------------------------------------------------------------------- */

  /** Every segment in `[i, k)` lets the walk go on. */
  predicate ContinuesUpTo(u: seq<string>, r: seq<string>, i: nat, k: nat) {
    forall j :: i <= j < k ==> ContinuesAt(u, r, j)
  }

  /** The walk fails at the first segment that does not pass its check. */
  lemma {:induction false} WalkFailsAt(decode: string -> string, u: seq<string>, r: seq<string>, i: nat, k: nat, m: map<string, string>)
    requires i <= k < Max(|u|, |r|)
    requires ContinuesUpTo(u, r, i, k) && !SegmentOk(u, r, k)
    ensures Walk(decode, u, r, i, m).failed
    decreases k - i
  {
    if i < k {
      assert ContinuesAt(u, r, i);
      WalkPasses(decode, u, r, i, m);
      WalkFailsAt(decode, u, r, i + 1, k, Passed(decode, u, r, i, m));
    } else {
      assert !SegmentOk(u, r, k);
    }
  }

  /** The map after the walk passes segment `i`. */
  function Passed(decode: string -> string, u: seq<string>, r: seq<string>, i: nat, m: map<string, string>): map<string, string> {
    if ParamAt(r, i) then m[ParamName(r[i]) := decode(ValAt(u, i))] else m
  }

  /** One step of the walk at a segment that lets it go on. */
  lemma WalkPasses(decode: string -> string, u: seq<string>, r: seq<string>, i: nat, m: map<string, string>)
    requires i < Max(|u|, |r|) && ContinuesAt(u, r, i)
    ensures Walk(decode, u, r, i, m) == Walk(decode, u, r, i + 1, Passed(decode, u, r, i, m))
  {
  }

  /** A `+` or `*` parameter the walk reaches binds the decoded remaining
      segments joined with `/` and ends the walk with success. */
  lemma {:induction false} WalkRestCaptures(decode: string -> string, u: seq<string>, r: seq<string>, i: nat, k: nat, m: map<string, string>)
    requires i <= k < Max(|u|, |r|)
    requires ContinuesUpTo(u, r, i, k) && SegmentOk(u, r, k) && RestAt(r, k)
    ensures !Walk(decode, u, r, i, m).failed
    ensures ParamName(r[k]) in Walk(decode, u, r, i, m).matches
    ensures Walk(decode, u, r, i, m).matches[ParamName(r[k])] == Rest(decode, u, k)
    decreases k - i
  {
    if i < k {
      assert ContinuesAt(u, r, i);
      WalkPasses(decode, u, r, i, m);
      WalkRestCaptures(decode, u, r, i + 1, k, Passed(decode, u, r, i, m));
    } else {
      WalkParamStep(decode, u, r, k, m);
    }
  }

  /** The pattern segments after a `+` or `*` parameter the walk reaches
      are never looked at. */
  lemma {:induction false} WalkIgnoresAfterRest(decode: string -> string, u: seq<string>, r: seq<string>, i: nat, k: nat, m: map<string, string>)
    requires i <= k < Max(|u|, |r|)
    requires ContinuesUpTo(u, r, i, k) && SegmentOk(u, r, k) && RestAt(r, k)
    ensures Walk(decode, u, r, i, m) == Walk(decode, u, r[..k + 1], i, m)
    decreases k - i
  {
    var r' := r[..k + 1];
    TruncatedAgrees(decode, u, r, k, i, m);
    if i < k {
      assert ContinuesAt(u, r, i);
      WalkPasses(decode, u, r, i, m);
      WalkPasses(decode, u, r', i, m);
      WalkIgnoresAfterRest(decode, u, r, i + 1, k, Passed(decode, u, r, i, m));
    } else {
      WalkParamStep(decode, u, r, k, m);
      WalkParamStep(decode, u, r', k, m);
    }
  }

  /** Cutting the pattern after segment `k` changes nothing up to `k`. */
  lemma TruncatedAgrees(decode: string -> string, u: seq<string>, r: seq<string>, k: nat, i: nat, m: map<string, string>)
    requires i <= k < |r|
    ensures var r' := r[..k + 1];
      && r'[i] == r[i] && ParamAt(r', i) == ParamAt(r, i)
      && SegmentOk(u, r', i) == SegmentOk(u, r, i) && RestAt(r', i) == RestAt(r, i)
      && Passed(decode, u, r', i, m) == Passed(decode, u, r, i, m)
  {
    assert At(r[..k + 1], i) == At(r, i);
  }

  /** `name` is the parameter of pattern segment `j`. */
  predicate NamedAt(r: seq<string>, j: nat, name: string) {
    ParamAt(r, j) && ParamName(r[j]) == name
  }

  /** When every segment from `i` on lets the walk go on, it succeeds. */
  lemma {:induction false} WalkSucceeds(decode: string -> string, u: seq<string>, r: seq<string>, i: nat, m: map<string, string>)
    requires ContinuesUpTo(u, r, i, Max(|u|, |r|))
    ensures !Walk(decode, u, r, i, m).failed
    decreases Max(|u|, |r|) - i
  {
    if i < Max(|u|, |r|) {
      assert ContinuesAt(u, r, i);
      WalkPasses(decode, u, r, i, m);
      WalkSucceeds(decode, u, r, i + 1, Passed(decode, u, r, i, m));
    }
  }

  /** No parameter in `[from, to)` is called `name`. */
  predicate UnnamedIn(r: seq<string>, from: nat, to: nat, name: string) {
    forall l :: from <= l < to ==> !NamedAt(r, l, name)
  }

  /** The walk from `i` succeeds by stopping at `k`: every segment before
      `k` lets it go on, and `k` is either the end or a `+`/`*` parameter
      that passes its check. */
  predicate StopsAt(u: seq<string>, r: seq<string>, i: nat, k: nat) {
    i <= k <= Max(|u|, |r|) && ContinuesUpTo(u, r, i, k)
    && (k == Max(|u|, |r|) || (SegmentOk(u, r, k) && RestAt(r, k)))
  }

  /** On a walk that stops at `k`, an entry of the incoming map that no
      parameter up to `k` names is kept. */
  lemma {:induction false} WalkKeeps(decode: string -> string, u: seq<string>, r: seq<string>, i: nat, k: nat,
                                     m: map<string, string>, key: string)
    requires StopsAt(u, r, i, k)
    requires key in m && UnnamedIn(r, i, k + 1, key)
    ensures key in Walk(decode, u, r, i, m).matches && Walk(decode, u, r, i, m).matches[key] == m[key]
    decreases k - i
  {
    if i < k {
      assert ContinuesAt(u, r, i) && !NamedAt(r, i, key);
      WalkPasses(decode, u, r, i, m);
      WalkKeeps(decode, u, r, i + 1, k, Passed(decode, u, r, i, m), key);
    } else if k < Max(|u|, |r|) {
      assert !NamedAt(r, k, key);
      WalkParamStep(decode, u, r, k, m);
    }
  }

  /** On a walk that stops at `k`, a parameter before `k` binds its decoded
      URL segment (`""` when the segment is missing) unless a later
      parameter up to `k` has the same name. */
  lemma {:induction false} WalkBinds(decode: string -> string, u: seq<string>, r: seq<string>, i: nat, k: nat,
                                     m: map<string, string>, j: nat)
    requires StopsAt(u, r, i, k)
    requires i <= j < k && ParamAt(r, j) && UnnamedIn(r, j + 1, k + 1, ParamName(r[j]))
    ensures ParamName(r[j]) in Walk(decode, u, r, i, m).matches
    ensures Walk(decode, u, r, i, m).matches[ParamName(r[j])] == decode(ValAt(u, j))
    decreases k - i
  {
    assert ContinuesAt(u, r, i);
    WalkPasses(decode, u, r, i, m);
    var m' := Passed(decode, u, r, i, m);
    if i < j {
      WalkBinds(decode, u, r, i + 1, k, m', j);
    } else {
      WalkKeeps(decode, u, r, i + 1, k, m', ParamName(r[j]));
    }
  }

  /** `/users/:id/files/:path*` against `/users/5/files/a/b`: `id` is bound
      to the decoded `5`, and `path` to the decoded rest `a/b`. */
  lemma RestPatternExample(decode: string -> string)
    ensures var u := ["users", "5", "files", "a", "b"];
      var w := Walk(decode, u, ["users", ":id", "files", ":path*"], 0, map[]);
      && !w.failed && "id" in w.matches && "path" in w.matches
      && w.matches["id"] == decode("5") && w.matches["path"] == Rest(decode, u, 3)
  {
    var u := ["users", "5", "files", "a", "b"];
    var r := ["users", ":id", "files", ":path*"];
    assert FlagRunLength(":id") == 0;
    assert ParamName(":id") == "id";
    assert FlagRunLength(":path") == 0;
    assert FlagRunLength(":path*") == 1;
    assert ":path*"[1..5] == "path";
    assert Flags(":path*") == "*" && ParamName(":path*") == "path";
    assert Flags(":id") == "";
    assert StopsAt(u, r, 0, 3);
    WalkBinds(decode, u, r, 0, 3, map[], 1);
    WalkRestCaptures(decode, u, r, 0, 3, map[]);
  }

  /** For a pattern without `+`/`*` parameters the walk fails exactly when
      some segment does not pass its check. */
  lemma {:induction false} WalkFailsIffSomeSegmentBad(decode: string -> string, u: seq<string>, r: seq<string>, m: map<string, string>)
    requires forall j :: 0 <= j < |r| ==> !RestAt(r, j)
    ensures Walk(decode, u, r, 0, m).failed <==> exists j :: 0 <= j < Max(|u|, |r|) && !SegmentOk(u, r, j)
  {
    if exists j :: 0 <= j < Max(|u|, |r|) && !SegmentOk(u, r, j) {
      var k :| 0 <= k < Max(|u|, |r|) && !SegmentOk(u, r, k);
      var first := FirstBad(u, r, k);
      WalkFailsAt(decode, u, r, 0, first, m);
    } else {
      assert ContinuesUpTo(u, r, 0, Max(|u|, |r|));
      WalkSucceeds(decode, u, r, 0, m);
    }
  }

  /** For a pattern without `+`/`*` parameters, a non-default route
      matches exactly when every segment passes its check. */
  lemma MatchIffSegmentsOk(decode: string -> string, url: string, route: string)
    requires var r := Segmentize(route); forall j :: 0 <= j < |r| ==> !RestAt(r, j)
    ensures var u := Segmentize(PathPart(url)); var r := Segmentize(route);
      Match(decode, url, route, false).Some? <==> forall j :: 0 <= j < Max(|u|, |r|) ==> SegmentOk(u, r, j)
  {
    WalkFailsIffSomeSegmentBad(decode, Segmentize(PathPart(url)), Segmentize(route), QueryMatches(decode, url));
  }

  /** The first segment at or before `k` that fails its check, for a
      pattern without rest parameters. */
  ghost function FirstBad(u: seq<string>, r: seq<string>, k: nat): (f: nat)
    requires k < Max(|u|, |r|) && !SegmentOk(u, r, k)
    requires forall j :: 0 <= j < |r| ==> !RestAt(r, j)
    ensures f <= k && !SegmentOk(u, r, f) && ContinuesUpTo(u, r, 0, f)
  {
    if forall j :: 0 <= j < k ==> SegmentOk(u, r, j) then k
    else
      var j :| 0 <= j < k && !SegmentOk(u, r, j);
      FirstBad(u, r, j)
  }

  /** A pattern made only of literal segments matches a non-default route
      exactly when it has the same segments as the path. */
  lemma {:induction false} LiteralPatternMatchesExactly(decode: string -> string, url: string, route: string)
    requires var r := Segmentize(route); forall j :: 0 <= j < |r| ==> !IsParam(r[j])
    ensures Match(decode, url, route, false).Some? <==> Segmentize(PathPart(url)) == Segmentize(route)
  {
    var u := Segmentize(PathPart(url));
    var r := Segmentize(route);
    MatchIffSegmentsOk(decode, url, route);
    if u == r {
      forall j | 0 <= j < Max(|u|, |r|) ensures SegmentOk(u, r, j) { }
    } else if forall j :: 0 <= j < Max(|u|, |r|) ==> SegmentOk(u, r, j) {
      SameSegmentsWhenAllOk(u, r);
    }
  }

  /** When every segment of a literal pattern passes its check, the
      pattern and the path have the same segments. */
  lemma SameSegmentsWhenAllOk(u: seq<string>, r: seq<string>)
    requires |u| >= 1 && |r| >= 1
    requires forall j :: 0 <= j < |r| ==> !IsParam(r[j])
    requires forall j :: 0 <= j < Max(|u|, |r|) ==> SegmentOk(u, r, j)
    ensures u == r
  {
    forall j | 0 <= j < Max(|u|, |r|) ensures At(r, j) == At(u, j) {
      assert SegmentOk(u, r, j) && !ParamAt(r, j);
    }
    var last := Max(|u|, |r|) - 1;
    assert At(r, last) == At(u, last);
    assert |u| == |r|;
    forall j | 0 <= j < |u| ensures u[j] == r[j] {
      assert At(r, j) == At(u, j);
    }
  }
}
