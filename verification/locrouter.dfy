/** Route selection in `Router` of demo/public/lib/loc.js: the children
    are tagged and sorted by rank, each is matched with `exec(url,
    vnode.props.path, vnode.props)`, the matching ones are cloned with `{
    path, query }`, and when more than one survives the default children
    are dropped. The lemmas are stated for any match test `ok` that, like
    `exec`, accepts every default child. */
module LocRouter {
  import opened Wrappers
  import opened JsStrings
  import opened Routes
  import opened Ranking
  import opened Transition
  import LocMatch

  /** `exec(url, vnode.props.path, vnode.props)` is truthy; it always is
      for a default child. */
  predicate Matches(decode: string -> string, url: string, e: Entry)
    ensures e.child.isDefault ==> Matches(decode, url, e)
  {
    LocMatch.Match(decode, url, e.child.path, e.child.isDefault).Some?
  }

  predicate NotDefault(e: Entry) {
    !e.child.isDefault
  }

  /** `if (cur.length > 1) cur = cur.filter(x => !x.props.default)`: a
      single entry stays, of several only those that are not defaults. */
  function DropDefaults(es: seq<Entry>): (r: seq<Entry>)
    ensures |es| <= 1 ==> r == es
    ensures |es| > 1 ==> forall k :: 0 <= k < |r| ==> r[k] in es && !r[k].child.isDefault
    ensures |es| > 1 ==> forall k :: 0 <= k < |es| && !es[k].child.isDefault ==> es[k] in r
  {
    if |es| > 1 then Filter(NotDefault, es) else es
  }

  /** The entries the router keeps, in the order it renders them: each is
      one of the given entries and passes the test. */
  function Selected(ok: Entry -> bool, es: seq<Entry>): (r: seq<Entry>)
    ensures forall k :: 0 <= k < |r| ==> r[k] in es && ok(r[k])
  {
    var sorted := SortByRank(es);
    var kept := Filter(ok, sorted);
    forall x | x in kept ensures x in es && ok(x) {
      assert x in multiset(sorted);
    }
    DropDefaults(kept)
  }

  /** `cloneElement(vnode, { path, query })` for each kept entry. */
  function CloneAll(es: seq<Entry>, props: map<string, Value>): (r: seq<Elem>)
    ensures |r| == |es|
    ensures forall k :: 0 <= k < |es| ==> r[k] == Clone(es[k].child, props)
  {
    seq(|es|, k requires 0 <= k < |es| => Clone(es[k].child, props))
  }

  /** What the router stores in `curChildren`: clones of some of the
      children, each with the location's `path` and `query`. */
  function Select(decode: string -> string, loc: Loc, children: seq<Child>): (r: seq<Elem>)
    ensures forall k :: 0 <= k < |r| ==>
              r[k].Clone? && r[k].child in children && r[k].props == LocProps(loc.path, loc.query)
  {
    var kept := Selected(e => Matches(decode, loc.url, e), Prepare(children));
    forall k | 0 <= k < |kept| ensures kept[k].child in children {
      PreparedChild(children, kept[k]);
    }
    CloneAll(kept, LocProps(loc.path, loc.query))
  }

  /** A prepared entry carries one of the children. */
  lemma PreparedChild(children: seq<Child>, x: Entry)
    requires x in Prepare(children)
    ensures x.child in children
  {
    var i :| 0 <= i < |Prepare(children)| && Prepare(children)[i] == x;
    assert x.child == children[i];
  }

  /* ---------------------------------------------------------------------
     Filters and counts.
     --------------------------------------------------------------------- */

  /** Filtering a sorted sequence keeps it sorted. */
  lemma {:induction false} FilterSorted(p: Entry -> bool, s: seq<Entry>)
    requires Sorted(s)
    ensures Sorted(Filter(p, s))
  {
    if s != [] {
      SortedTail(s);
      FilterSorted(p, s[1..]);
      var rest := Filter(p, s[1..]);
      if p(s[0]) {
        var r := [s[0]] + rest;
        forall i, j | 0 <= i < j < |r| ensures Le(r[i], r[j]) {
          assert r[j] == rest[j - 1] && rest[j - 1] in s[1..];
          if i == 0 {
            var k :| 0 <= k < |s[1..]| && s[1..][k] == r[j];
            assert s[k + 1] == r[j];
          } else {
            assert r[i] == rest[i - 1];
          }
        }
      }
    }
  }

  /** Filtering keeps every copy of an element that passes and drops the
      others. */
  lemma {:induction false} FilterCount<T>(p: T -> bool, xs: seq<T>, x: T)
    ensures multiset(Filter(p, xs))[x] == if p(x) then multiset(xs)[x] else 0
  {
    if xs != [] {
      FilterCount(p, xs[1..], x);
      assert xs == [xs[0]] + xs[1..];
    }
  }

  /** An element occurs at most once in a sequence without repetitions. */
  lemma {:induction false} DistinctCount<T>(s: seq<T>, x: T)
    requires forall i, j :: 0 <= i < j < |s| ==> s[i] != s[j]
    ensures multiset(s)[x] <= 1
  {
    if s != [] {
      assert s == [s[0]] + s[1..];
      DistinctCount(s[1..], x);
      if s[0] == x {
        assert x !in s[1..] by {
          forall k | 0 <= k < |s[1..]| ensures s[1..][k] != x {
            assert s[1..][k] == s[k + 1];
          }
        }
      }
    }
  }

  /** A sequence of copies of one element is as long as its count. */
  lemma {:induction false} AllSameCount<T>(s: seq<T>, x: T)
    requires forall k :: 0 <= k < |s| ==> s[k] == x
    ensures multiset(s)[x] == |s|
  {
    if s != [] {
      assert s == [s[0]] + s[1..];
      AllSameCount(s[1..], x);
    }
  }

  /** The matching prepared children, in rank order. */
  function Kept(ok: Entry -> bool, children: seq<Child>): seq<Entry> {
    Filter(ok, SortByRank(Prepare(children)))
  }

  /** An element kept after sorting and filtering is a prepared child. */
  lemma KeptIsPrepared(ok: Entry -> bool, children: seq<Child>, x: Entry)
    requires x in Kept(ok, children)
    ensures ok(x) && x.index < |children| && x == Prepare(children)[x.index]
  {
    var m := Kept(ok, children);
    var k :| 0 <= k < |m| && m[k] == x;
    assert x in SortByRank(Prepare(children));
    assert x in multiset(SortByRank(Prepare(children)));
    assert x in Prepare(children);
  }

  /* ---------------------------------------------------------------------
     What the selection keeps.
     --------------------------------------------------------------------- */

  /** The kept entries are in rank order: higher rank first, ties in
      declaration order. */
  lemma SelectedInRankOrder(ok: Entry -> bool, es: seq<Entry>)
    ensures Sorted(Selected(ok, es))
  {
    SortByRankSorted(es);
    FilterSorted(ok, SortByRank(es));
    FilterSorted(NotDefault, Filter(ok, SortByRank(es)));
  }

  /** Every kept entry is a prepared child that matched, every matching
      child that is not a default is kept, and a default child is only
      kept alone. */
  lemma SelectedExactly(ok: Entry -> bool, children: seq<Child>)
    ensures forall k :: 0 <= k < |Selected(ok, Prepare(children))| ==>
      var x := Selected(ok, Prepare(children))[k];
      ok(x) && x.index < |children| && x == Prepare(children)[x.index]
    ensures forall i :: 0 <= i < |children| && ok(Prepare(children)[i]) && !children[i].isDefault ==>
      Prepare(children)[i] in Selected(ok, Prepare(children))
    ensures forall k :: 0 <= k < |Selected(ok, Prepare(children))| && Selected(ok, Prepare(children))[k].child.isDefault ==>
      |Selected(ok, Prepare(children))| == 1
  {
    var es := Prepare(children);
    var m := Filter(ok, SortByRank(es));
    forall k | 0 <= k < |Selected(ok, es)|
      ensures var x := Selected(ok, es)[k]; ok(x) && x.index < |children| && x == es[x.index]
    {
      var x := Selected(ok, es)[k];
      assert x in m;
      KeptIsPrepared(ok, children, x);
    }
    forall i | 0 <= i < |children| && ok(es[i]) && !children[i].isDefault
      ensures es[i] in Selected(ok, es)
    {
      assert es[i] in multiset(SortByRank(es));
      var j :| 0 <= j < |SortByRank(es)| && SortByRank(es)[j] == es[i];
      assert es[i] in m;
      if |m| > 1 {
        var k :| 0 <= k < |m| && m[k] == es[i];
        assert NotDefault(m[k]);
      }
    }
  }

  /** A sequence holding only copies of `x`, and `x` at most once, is
      `[x]`, provided it holds `x` at all. */
  lemma SingleCopy<T>(m: seq<T>, x: T)
    requires x in m && multiset(m)[x] <= 1
    requires forall k :: 0 <= k < |m| ==> m[k] == x
    ensures m == [x]
  {
    AllSameCount(m, x);
  }

  /** A sequence holding two different values has at least two elements. */
  lemma TwoApart<T>(m: seq<T>, a: T, b: T)
    requires a in m && b in m && a != b
    ensures |m| > 1
  {
  }

  /** Prepared children are told apart by their index. */
  lemma PreparedDistinct(children: seq<Child>)
    ensures forall i, j :: 0 <= i < j < |children| ==> Prepare(children)[i] != Prepare(children)[j]
  {
  }

  /** A prepared child that passes the match test is among the kept
      ones, as often as it is prepared. */
  lemma KeptCount(ok: Entry -> bool, children: seq<Child>, i: nat)
    requires i < |children| && ok(Prepare(children)[i])
    ensures Prepare(children)[i] in Kept(ok, children)
    ensures multiset(Kept(ok, children))[Prepare(children)[i]] <= 1
  {
    var es := Prepare(children);
    var s := SortByRank(es);
    assert es[i] in multiset(s) by { assert es[i] in es; }
    assert es[i] in s;
    FilterCount(ok, s, es[i]);
    PreparedDistinct(children);
    DistinctCount(es, es[i]);
  }

  /** When no child but the single default one matches, the default child
      is rendered. */
  lemma DefaultFallback(ok: Entry -> bool, children: seq<Child>, d: nat)
    requires d < |children| && forall i :: 0 <= i < |children| ==> (children[i].isDefault <==> i == d)
    requires forall e: Entry :: e.child.isDefault ==> ok(e)
    requires forall i :: 0 <= i < |children| && i != d ==> !ok(Prepare(children)[i])
    ensures Selected(ok, Prepare(children)) == [Prepare(children)[d]]
  {
    var m := Kept(ok, children);
    var x := Prepare(children)[d];
    forall k | 0 <= k < |m| ensures m[k] == x {
      KeptIsPrepared(ok, children, m[k]);
    }
    KeptCount(ok, children, d);
    SingleCopy(m, x);
  }

  /** Two default children and no other match leave nothing to render:
      both defaults survive the match and are then both dropped. */
  lemma TwoDefaultsRenderNothing(ok: Entry -> bool, children: seq<Child>, d1: nat, d2: nat)
    requires d1 < d2 < |children| && children[d1].isDefault && children[d2].isDefault
    requires forall e: Entry :: e.child.isDefault ==> ok(e)
    requires forall i :: 0 <= i < |children| && !children[i].isDefault ==> !ok(Prepare(children)[i])
    ensures Selected(ok, Prepare(children)) == []
  {
    var m := Kept(ok, children);
    KeptCount(ok, children, d1);
    KeptCount(ok, children, d2);
    PreparedDistinct(children);
    TwoApart(m, Prepare(children)[d1], Prepare(children)[d2]);
    var r := Filter(NotDefault, m);
    if r != [] {
      KeptIsPrepared(ok, children, r[0]);
    }
  }

  /** With `exec` as the match test: when no child but the single
      default one matches the URL, the router renders that child alone,
      cloned with the location's path and query. */
  lemma RendersDefaultWhenNothingMatches(decode: string -> string, loc: Loc, children: seq<Child>, d: nat)
    requires d < |children| && forall i :: 0 <= i < |children| ==> (children[i].isDefault <==> i == d)
    requires forall i :: 0 <= i < |children| && i != d ==> !Matches(decode, loc.url, Prepare(children)[i])
    ensures Select(decode, loc, children) == [Clone(children[d], LocProps(loc.path, loc.query))]
  {
    var ok := e => Matches(decode, loc.url, e);
    DefaultFallback(ok, children, d);
  }

  /* ---------------------------------------------------------------------
     The render.
     --------------------------------------------------------------------- */

  /** A render of `Router`: the URL-change block, the ranking that tags
      the child elements in place, the selection, and the view
      `curChildren.concat(prevChildren || [])`. */
  method Render(router: Router<seq<Elem>>, decode: string -> string, loc: Loc, vnodes: seq<VNode>)
    returns (view: seq<Elem>)
    requires forall i, j :: 0 <= i < j < |vnodes| ==> vnodes[i] != vnodes[j]
    modifies router, set v | v in vnodes
    ensures router.State() == OnRender(old(router.State()), loc).(curChildren := Some(Select(decode, loc, Children(vnodes))))
    ensures view == Select(decode, loc, Children(vnodes)) + router.prevChildren.GetOr([])
    ensures forall i :: 0 <= i < |vnodes| ==> vnodes[i].Snapshot() == Prepare(Children(vnodes))[i]
  {
    router.Sync(loc);
    var kept := PrepareAll(vnodes);
    var current := Select(decode, loc, Children(kept));
    router.SetChildren(current);
    view := current + router.prevChildren.GetOr([]);
  }
}
