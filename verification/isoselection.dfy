/** The two selection policies left side by side in the unresolved merge
    of packages/preact-iso/router.js, and the renders that run them on the
    router's refs. Each child is matched by `exec(path, vnode.props.path,
    m = { path, query })` with a fresh props object `m`. */
module IsoSelection {
  import opened Wrappers
  import opened JsStrings
  import opened Routes
  import opened IsoMatch
  import opened Transition

  /** No segment of any child's pattern holds a line terminator, which
      would make the segment regular expression fail and the render throw. */
  predicate PatternsClean(children: seq<Child>) {
    forall i, j :: 0 <= i < |children| && 0 <= j < |Segments(children[i].path)| ==>
      !HasLineTerminator(Segments(children[i].path)[j])
  }

  /** `exec(path, vnode.props.path, m = { path, query })` for one child:
      how it ends and what it left in `m`. */
  function ChildRun(decode: string -> string, loc: Loc, c: Child): Outcome {
    Walk(decode, AsWritten, Segments(loc.path), Parse(Segments(c.path)), 0, LocProps(loc.path, loc.query))
  }

  /** A child with what `exec` did for it. */
  datatype Tried = Tried(child: Child, run: Outcome)

  /** Every child tried against the location, in declaration order. */
  function Tries(decode: string -> string, loc: Loc, children: seq<Child>): (ts: seq<Tried>)
    ensures |ts| == |children|
    ensures forall i :: 0 <= i < |children| ==> ts[i] == Tried(children[i], ChildRun(decode, loc, children[i]))
  {
    seq(|children|, i requires 0 <= i < |children| => Tried(children[i], ChildRun(decode, loc, children[i])))
  }

  /** `exec` returned the object, not `undefined`. */
  predicate Hit(t: Tried) {
    t.run.exit == Completed
  }

  /** `cloneElement(vnode, m)`: the child with its props overridden by the
      object `exec` filled. */
  function CloneOf(t: Tried): Elem {
    Clone(t.child, t.run.matches)
  }

  /** The clones keep the `path` and `query` entries they were given,
      with the location's values unless a parameter takes that name. */
  lemma ClonesKeepPathAndQuery(decode: string -> string, loc: Loc, c: Child)
    ensures var e := CloneOf(Tried(c, ChildRun(decode, loc, c)));
      && "path" in e.props && "query" in e.props
      && (!Names(Parse(Segments(c.path)), "path") ==> e.props["path"] == Str(loc.path))
      && (!Names(Parse(Segments(c.path)), "query") ==> e.props["query"] == QueryObject(loc.query))
  {
    var w := Walk(decode, AsWritten, Segments(loc.path), Parse(Segments(c.path)), 0, LocProps(loc.path, loc.query));
    PathAndQueryKept(decode, Segments(loc.path), Parse(Segments(c.path)), loc.path, loc.query);
    assert ChildRun(decode, loc, c) == w;
    assert CloneOf(Tried(c, w)).props == w.matches;
  }

  /** With clean patterns `exec` never throws. */
  lemma ChildNeverThrows(decode: string -> string, loc: Loc, children: seq<Child>, i: nat)
    requires PatternsClean(children) && i < |children|
    ensures ChildRun(decode, loc, children[i]).exit != Threw
  {
    NoThrowWithoutLineTerminator(decode, AsWritten, Segments(loc.path), Segments(children[i].path), 0,
                                 LocProps(loc.path, loc.query));
  }

  /* ---------------------------------------------------------------------
     HEAD: every match, else the default children.
     --------------------------------------------------------------------- */

  /** `.map(vnode => exec(...) && cloneElement(vnode, m)).filter(Boolean)`:
      the clones of the matching children, in declaration order. */
  function HeadMatches(ts: seq<Tried>): (r: seq<Elem>)
    ensures |r| <= |ts|
    ensures forall k :: 0 <= k < |r| ==> exists i :: 0 <= i < |ts| && Hit(ts[i]) && r[k] == CloneOf(ts[i])
    ensures forall i :: 0 <= i < |ts| && Hit(ts[i]) ==> CloneOf(ts[i]) in r
    ensures r == [] <==> forall i :: 0 <= i < |ts| ==> !Hit(ts[i])
  {
    if ts == [] then []
    else
      var rest := HeadMatches(ts[1..]);
      assert forall i :: 1 <= i < |ts| ==> ts[i] == ts[1..][i - 1];
      if Hit(ts[0]) then [CloneOf(ts[0])] + rest else rest
  }

  /** `props.children.filter(x => x.props.default)`: the default children
      themselves, not clones. */
  function Defaults(children: seq<Child>): (r: seq<Elem>)
    ensures forall k :: 0 <= k < |r| ==> r[k].Original? && r[k].child in children && r[k].child.isDefault
    ensures forall i :: 0 <= i < |children| && children[i].isDefault ==> Original(children[i]) in r
  {
    if children == [] then []
    else
      var rest := Defaults(children[1..]);
      assert forall i :: 1 <= i < |children| ==> children[i] == children[1..][i - 1];
      if children[0].isDefault then [Original(children[0])] + rest else rest
  }

  /** What HEAD stores in `curChildren`. */
  function HeadSelect(decode: string -> string, loc: Loc, children: seq<Child>): (r: seq<Elem>)
    requires PatternsClean(children)
    ensures r == [] <==> forall i :: 0 <= i < |children| ==>
                           !Hit(Tries(decode, loc, children)[i]) && !children[i].isDefault
  {
    var found := HeadMatches(Tries(decode, loc, children));
    if found == [] then
      var d := Defaults(children);
      assert d != [] ==> d[0].child in children;
      d
    else found
  }

  /** `[curChildren.current[0], ...(prevChildren.current || [])]`. */
  function HeadView(current: seq<Elem>, previous: Option<seq<Elem>>): (v: seq<Option<Elem>>)
    ensures |v| == 1 + |previous.GetOr([])|
    ensures v[0] == At(current, 0)
    ensures forall k :: 0 <= k < |previous.GetOr([])| ==> v[k + 1] == Some(previous.GetOr([])[k])
  {
    [At(current, 0)] + seq(|previous.GetOr([])|, k requires 0 <= k < |previous.GetOr([])| => Some(previous.GetOr([])[k]))
  }

  /** HEAD renders the clone of the first matching child in declaration
      order. */
  lemma HeadRendersFirstMatch(decode: string -> string, loc: Loc, children: seq<Child>, j: nat)
    requires PatternsClean(children)
    requires j < |children| && Hit(Tries(decode, loc, children)[j])
    requires forall i :: 0 <= i < j ==> !Hit(Tries(decode, loc, children)[i])
    ensures At(HeadSelect(decode, loc, children), 0) == Some(CloneOf(Tries(decode, loc, children)[j]))
  {
    FirstOfHeadMatches(Tries(decode, loc, children), j);
  }

  lemma {:induction false} FirstOfHeadMatches(ts: seq<Tried>, j: nat)
    requires j < |ts| && Hit(ts[j])
    requires forall i :: 0 <= i < j ==> !Hit(ts[i])
    ensures HeadMatches(ts) != [] && HeadMatches(ts)[0] == CloneOf(ts[j])
  {
    if j > 0 {
      FirstOfHeadMatches(ts[1..], j - 1);
    }
  }

  /** With no match HEAD falls back to the default children themselves,
      and renders nothing when there is none. */
  lemma HeadFallsBackToDefault(decode: string -> string, loc: Loc, children: seq<Child>)
    requires PatternsClean(children)
    requires forall i :: 0 <= i < |children| ==> !Hit(Tries(decode, loc, children)[i])
    ensures HeadSelect(decode, loc, children) == Defaults(children)
    ensures (exists i :: 0 <= i < |children| && children[i].isDefault) <==> At(HeadSelect(decode, loc, children), 0).Some?
  {
    var d := Defaults(children);
    if exists i :: 0 <= i < |children| && children[i].isDefault {
      var i :| 0 <= i < |children| && children[i].isDefault;
      assert Original(children[i]) in d;
    }
    if d != [] {
      assert d[0].child in children;
    }
  }

  /** Each index moved one place on. */
  function Shifted(idx: seq<nat>): (r: seq<nat>)
    ensures |r| == |idx| && forall k :: 0 <= k < |idx| ==> r[k] == idx[k] + 1
  {
    seq(|idx|, k requires 0 <= k < |idx| => idx[k] + 1)
  }

  /** `ys` holds `f` of the elements of `xs` that satisfy `p`, in their
      order in `xs`: `idx` lists all those positions, increasing. */
  ghost predicate PickedInOrder<T, E>(xs: seq<T>, p: T -> bool, f: T -> E, ys: seq<E>, idx: seq<nat>) {
    && |idx| == |ys|
    && (forall k :: 0 <= k < |idx| ==> idx[k] < |xs| && p(xs[idx[k]]) && ys[k] == f(xs[idx[k]]))
    && (forall a, b :: 0 <= a < b < |idx| ==> idx[a] < idx[b])
    && (forall i :: 0 <= i < |xs| && p(xs[i]) ==> i in idx)
  }

  /** The picked elements with a first element put in front. */
  function ConsPicked<T, E>(x: T, p: T -> bool, f: T -> E, ys: seq<E>): seq<E> {
    (if p(x) then [f(x)] else []) + ys
  }

  /** Their positions, moved one place on. */
  function ConsIndices<T>(x: T, p: T -> bool, idx: seq<nat>): seq<nat> {
    (if p(x) then [0] else []) + Shifted(idx)
  }

  /** Putting a first element in front keeps the picking in order. */
  lemma PickedInOrderCons<T, E>(xs: seq<T>, p: T -> bool, f: T -> E, ys: seq<E>, idx: seq<nat>)
    requires xs != [] && PickedInOrder(xs[1..], p, f, ys, idx)
    ensures PickedInOrder(xs, p, f, ConsPicked(xs[0], p, f, ys), ConsIndices(xs[0], p, idx))
  {
    ConsEntries(xs, p, f, ys, idx);
    ConsIncreasing(xs, p, f, ys, idx);
    ConsComplete(xs, p, f, ys, idx);
  }

  lemma ConsEntries<T, E>(xs: seq<T>, p: T -> bool, f: T -> E, ys: seq<E>, idx: seq<nat>)
    requires xs != [] && PickedInOrder(xs[1..], p, f, ys, idx)
    ensures var ys', idx' := ConsPicked(xs[0], p, f, ys), ConsIndices(xs[0], p, idx);
      |idx'| == |ys'| &&
      forall k :: 0 <= k < |idx'| ==> idx'[k] < |xs| && p(xs[idx'[k]]) && ys'[k] == f(xs[idx'[k]])
  {
    var h := if p(xs[0]) then 1 else 0;
    var ys', idx' := ConsPicked(xs[0], p, f, ys), ConsIndices(xs[0], p, idx);
    forall k | 0 <= k < |idx'|
      ensures idx'[k] < |xs| && p(xs[idx'[k]]) && ys'[k] == f(xs[idx'[k]])
    {
      if k >= h {
        assert idx'[k] == idx[k - h] + 1 && ys'[k] == ys[k - h];
        assert xs[1..][idx[k - h]] == xs[idx'[k]];
      }
    }
  }

  lemma ConsIncreasing<T, E>(xs: seq<T>, p: T -> bool, f: T -> E, ys: seq<E>, idx: seq<nat>)
    requires xs != [] && PickedInOrder(xs[1..], p, f, ys, idx)
    ensures var idx' := ConsIndices(xs[0], p, idx);
      forall a, b :: 0 <= a < b < |idx'| ==> idx'[a] < idx'[b]
  {
    var h := if p(xs[0]) then 1 else 0;
    var idx' := ConsIndices(xs[0], p, idx);
    forall a, b | 0 <= a < b < |idx'| ensures idx'[a] < idx'[b] {
      assert idx'[b] == idx[b - h] + 1;
      if a >= h {
        assert idx'[a] == idx[a - h] + 1;
      }
    }
  }

  lemma ConsComplete<T, E>(xs: seq<T>, p: T -> bool, f: T -> E, ys: seq<E>, idx: seq<nat>)
    requires xs != [] && PickedInOrder(xs[1..], p, f, ys, idx)
    ensures var idx' := ConsIndices(xs[0], p, idx);
      forall i :: 0 <= i < |xs| && p(xs[i]) ==> i in idx'
  {
    var h := if p(xs[0]) then 1 else 0;
    var idx' := ConsIndices(xs[0], p, idx);
    forall i | 0 <= i < |xs| && p(xs[i]) ensures i in idx' {
      if i > 0 {
        assert xs[1..][i - 1] == xs[i];
        var k :| 0 <= k < |idx| && idx[k] == i - 1;
        assert idx'[k + h] == i;
      } else {
        assert idx'[0] == 0;
      }
    }
  }

  /** HEAD keeps the clones of the matching children in declaration order. */
  lemma {:induction false} HeadMatchesInOrder(ts: seq<Tried>) returns (idx: seq<nat>)
    ensures PickedInOrder(ts, Hit, CloneOf, HeadMatches(ts), idx)
  {
    if ts == [] {
      idx := [];
    } else {
      var rest := HeadMatchesInOrder(ts[1..]);
      PickedInOrderCons(ts, Hit, CloneOf, HeadMatches(ts[1..]), rest);
      idx := ConsIndices(ts[0], Hit, rest);
    }
  }

  predicate IsDefault(c: Child) {
    c.isDefault
  }

  /** The child element itself, not a clone. */
  function Uncloned(c: Child): Elem {
    Original(c)
  }

  /** The fallback keeps the default children in declaration order. */
  lemma {:induction false} DefaultsInOrder(children: seq<Child>) returns (idx: seq<nat>)
    ensures PickedInOrder(children, IsDefault, Uncloned, Defaults(children), idx)
  {
    if children == [] {
      idx := [];
    } else {
      var rest := DefaultsInOrder(children[1..]);
      PickedInOrderCons(children, IsDefault, Uncloned, Defaults(children[1..]), rest);
      idx := ConsIndices(children[0], IsDefault, rest);
    }
  }

  /** The first picked element is that of the first position that
      satisfies `p`. */
  lemma FirstPicked<T, E>(xs: seq<T>, p: T -> bool, f: T -> E, ys: seq<E>, idx: seq<nat>, k: nat)
    requires PickedInOrder(xs, p, f, ys, idx)
    requires k < |xs| && p(xs[k]) && forall i :: 0 <= i < k ==> !p(xs[i])
    ensures ys != [] && ys[0] == f(xs[k])
  {
    assert k in idx;
    var a :| 0 <= a < |idx| && idx[a] == k;
    assert idx[0] <= k && p(xs[idx[0]]);
  }

  /** With no match HEAD renders the first default child in declaration
      order, itself rather than a clone. */
  lemma HeadRendersFirstDefault(decode: string -> string, loc: Loc, children: seq<Child>, k: nat)
    requires PatternsClean(children)
    requires forall i :: 0 <= i < |children| ==> !Hit(Tries(decode, loc, children)[i])
    requires k < |children| && children[k].isDefault
    requires forall i :: 0 <= i < k ==> !children[i].isDefault
    ensures At(HeadSelect(decode, loc, children), 0) == Some(Original(children[k]))
  {
    HeadFallsBackToDefault(decode, loc, children);
    var idx := DefaultsInOrder(children);
    FirstPicked(children, IsDefault, Uncloned, Defaults(children), idx, k);
  }

  /** HEAD's render: the URL-change block, the selection, and the view. */
  method RenderHead(router: Router<seq<Elem>>, decode: string -> string, loc: Loc, children: seq<Child>)
    returns (view: seq<Option<Elem>>)
    requires PatternsClean(children)
    modifies router
    ensures router.State() == OnRender(old(router.State()), loc).(curChildren := Some(HeadSelect(decode, loc, children)))
    ensures view == HeadView(HeadSelect(decode, loc, children), router.prevChildren)
  {
    router.Sync(loc);
    var current := HeadSelect(decode, loc, children);
    router.SetChildren(current);
    view := HeadView(current, router.prevChildren);
  }

  /* ---------------------------------------------------------------------
     "new solution": the first match, else a default seen on the way.
     --------------------------------------------------------------------- */

  /** The variables `p` and `d` when the `some` scan stops. */
  datatype Scan = Scan(p: Option<Elem>, d: Option<Elem>)

  /** `children.some(vnode => exec(...) ? p = clone : (vnode.props.default
      ? d = clone : 0, undefined))` from `d`: the first match stops the
      scan; a default that does not match is remembered, with whatever
      `exec` left in its props. */
  function SomeScan(ts: seq<Tried>, d: Option<Elem>): (s: Scan)
    ensures s.p.Some? <==> exists i :: 0 <= i < |ts| && Hit(ts[i])
    ensures s.p.None? ==> (s.d.Some? <==> d.Some? || exists i :: 0 <= i < |ts| && ts[i].child.isDefault)
  {
    if ts == [] then Scan(None, d)
    else if Hit(ts[0]) then Scan(Some(CloneOf(ts[0])), d)
    else
      var s := SomeScan(ts[1..], if ts[0].child.isDefault then Some(CloneOf(ts[0])) else d);
      assert forall i :: 1 <= i < |ts| ==> ts[i] == ts[1..][i - 1];
      s
  }

  /** `p || d` after the scan over the tried children. */
  function Pick(ts: seq<Tried>): (r: Option<Elem>)
    ensures r.Some? <==> exists i :: 0 <= i < |ts| && (Hit(ts[i]) || ts[i].child.isDefault)
  {
    var s := SomeScan(ts, None);
    if s.p.Some? then s.p else s.d
  }

  /** What "new solution" stores in `curChildren`. */
  function NewSelect(decode: string -> string, loc: Loc, children: seq<Child>): (r: Option<Elem>)
    requires PatternsClean(children)
    ensures r.Some? <==> exists i :: 0 <= i < |children| && (Hit(Tries(decode, loc, children)[i]) || children[i].isDefault)
  {
    Pick(Tries(decode, loc, children))
  }

  /** The scan finds the first matching child in declaration order. */
  lemma {:induction false} ScanFindsFirstMatch(ts: seq<Tried>, d: Option<Elem>, j: nat)
    requires j < |ts| && Hit(ts[j])
    requires forall i :: 0 <= i < j ==> !Hit(ts[i])
    ensures SomeScan(ts, d).p == Some(CloneOf(ts[j]))
  {
    if j > 0 {
      ScanFindsFirstMatch(ts[1..], if ts[0].child.isDefault then Some(CloneOf(ts[0])) else d, j - 1);
    }
  }

  /** Without a match the scan ends with the last default child, or with
      `d` as it started when there is none. */
  lemma {:induction false} ScanKeepsLastDefault(ts: seq<Tried>, d: Option<Elem>)
    requires forall i :: 0 <= i < |ts| ==> !Hit(ts[i])
    ensures SomeScan(ts, d).p.None?
    ensures (forall i :: 0 <= i < |ts| ==> !ts[i].child.isDefault) ==> SomeScan(ts, d).d == d
    ensures forall k :: 0 <= k < |ts| && ts[k].child.isDefault
                        && (forall i :: k < i < |ts| ==> !ts[i].child.isDefault) ==>
                        SomeScan(ts, d).d == Some(CloneOf(ts[k]))
  {
    if ts != [] {
      var d' := if ts[0].child.isDefault then Some(CloneOf(ts[0])) else d;
      ScanKeepsLastDefault(ts[1..], d');
      forall k | 0 <= k < |ts| && ts[k].child.isDefault
                 && (forall i :: k < i < |ts| ==> !ts[i].child.isDefault)
        ensures SomeScan(ts, d).d == Some(CloneOf(ts[k]))
      {
        if k > 0 {
          assert ts[1..][k - 1] == ts[k];
          forall i | k - 1 < i < |ts[1..]| ensures !ts[1..][i].child.isDefault {
            assert ts[1..][i] == ts[i + 1];
          }
        } else {
          forall i | 0 <= i < |ts[1..]| ensures !ts[1..][i].child.isDefault {
            assert ts[1..][i] == ts[i + 1];
          }
        }
      }
    }
  }

  /** The "new solution" picks the first matching child in declaration
      order; without one it picks the last default child, cloned with the
      props its failed `exec` left behind; without either, nothing. */
  lemma PickChooses(ts: seq<Tried>)
    ensures forall j :: 0 <= j < |ts| && Hit(ts[j]) && (forall i :: 0 <= i < j ==> !Hit(ts[i])) ==>
              Pick(ts) == Some(CloneOf(ts[j]))
    ensures (forall i :: 0 <= i < |ts| ==> !Hit(ts[i])) ==>
              (Pick(ts).Some? <==> exists i :: 0 <= i < |ts| && ts[i].child.isDefault)
    ensures (forall i :: 0 <= i < |ts| ==> !Hit(ts[i])) ==>
              forall k :: 0 <= k < |ts| && ts[k].child.isDefault
                          && (forall i :: k < i < |ts| ==> !ts[i].child.isDefault) ==>
                Pick(ts) == Some(CloneOf(ts[k]))
  {
    forall j | 0 <= j < |ts| && Hit(ts[j]) && (forall i :: 0 <= i < j ==> !Hit(ts[i]))
      ensures Pick(ts) == Some(CloneOf(ts[j]))
    {
      ScanFindsFirstMatch(ts, None, j);
    }
    if forall i :: 0 <= i < |ts| ==> !Hit(ts[i]) {
      ScanKeepsLastDefault(ts, None);
      if exists i :: 0 <= i < |ts| && ts[i].child.isDefault {
        var k := LastDefault(ts);
        assert Pick(ts) == Some(CloneOf(ts[k]));
      }
    }
  }

  /** The position of the last default child. */
  function LastDefault(ts: seq<Tried>): (k: nat)
    requires exists i :: 0 <= i < |ts| && ts[i].child.isDefault
    ensures k < |ts| && ts[k].child.isDefault
    ensures forall i :: k < i < |ts| ==> !ts[i].child.isDefault
  {
    var n := |ts| - 1;
    if ts[n].child.isDefault then n
    else
      assert exists i :: 0 <= i < |ts[..n]| && ts[..n][i].child.isDefault by {
        var i :| 0 <= i < |ts| && ts[i].child.isDefault;
        assert ts[..n][i] == ts[i];
      }
      var k := LastDefault(ts[..n]);
      assert ts[k] == ts[..n][k];
      k
  }

  /** The `some` scan as the code runs it, with `p` and `d` as variables. */
  method NewSolution(decode: string -> string, loc: Loc, children: seq<Child>) returns (selected: Option<Elem>)
    requires PatternsClean(children)
    ensures selected == NewSelect(decode, loc, children)
  {
    var p: Option<Elem> := None;
    var d: Option<Elem> := None;
    var i := 0;
    while i < |children|
      invariant 0 <= i <= |children| && p.None?
      invariant SomeScan(Tries(decode, loc, children)[i..], d) == SomeScan(Tries(decode, loc, children), None)
    {
      var c := children[i];
      ChildNeverThrows(decode, loc, children, i);
      var exit, m := Exec(decode, loc.path, c.path, LocProps(loc.path, loc.query));
      ghost var ts := Tries(decode, loc, children);
      assert ts[i..][0] == Tried(c, Outcome(exit, m)) && ts[i..][1..] == ts[i + 1..];
      if exit == Completed {
        p := Some(Clone(c, m));
        break;
      }
      if c.isDefault {
        d := Some(Clone(c, m));
      }
      i := i + 1;
    }
    selected := if p.Some? then p else d;
  }

  /** "new solution"'s render: the URL-change block, the scan, and the
      pair `[curChildren.current = p || d, prevChildren.current]`. */
  method RenderNewSolution(router: Router<Option<Elem>>, decode: string -> string, loc: Loc, children: seq<Child>)
    returns (current: Option<Elem>, previous: Option<Option<Elem>>)
    requires PatternsClean(children)
    modifies router
    ensures router.State() == OnRender(old(router.State()), loc).(curChildren := Some(NewSelect(decode, loc, children)))
    ensures current == NewSelect(decode, loc, children) && previous == router.prevChildren
  {
    router.Sync(loc);
    var selected := NewSolution(decode, loc, children);
    router.SetChildren(selected);
    current, previous := selected, router.prevChildren;
  }
}
