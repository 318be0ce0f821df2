/** The route ranker of demo/public/lib/loc.js: `rankSegment`, `rank`,
    `rankChild`, `prepareVNodeForRanking` and the comparator `pathRankSort`
    that the router hands to `Array.prototype.sort`. */
module Ranking {
  import opened Routes
  import opened JsStrings
  import opened LocMatch

  /** `rankSegment(segment)`: a parameter ranks by its last character
      (`*` 1, `+` 2, `?` 3, anything else 4), a literal 5. */
  function RankSegment(seg: string): (d: nat)
    ensures 1 <= d <= 5
    ensures d == 5 <==> !IsParam(seg)
  {
    if IsParam(seg) then
      var last := seg[|seg| - 1];
      if last == '*' then 1 else if last == '+' then 2 else if last == '?' then 3 else 4
    else 5
  }

  function DigitChar(d: nat): (c: char)
    requires 1 <= d <= 5
    ensures '1' <= c <= '5'
  {
    ['1', '2', '3', '4', '5'][d - 1]
  }

  /** `rank(path)`: the digits of its segments' ranks, joined. */
  function Rank(path: string): (r: string)
    ensures |r| == |Segmentize(path)| && |r| >= 1
    ensures forall i :: 0 <= i < |r| ==> r[i] == DigitChar(RankSegment(Segmentize(path)[i]))
  {
    var segs := Segmentize(path);
    seq(|segs|, i requires 0 <= i < |segs| => DigitChar(RankSegment(segs[i])))
  }

  /** For a segment with at most one flag character, the rank says how the
      matcher treats it: literal 5, `:x` 4, `:x?` 3, `:x+` 2, `:x*` 1. */
  lemma RankAgreesWithMatcher(seg: string)
    requires IsParam(seg) ==> |Flags(seg)| <= 1
    ensures !IsParam(seg) ==> RankSegment(seg) == 5
    ensures IsParam(seg) && Flags(seg) == "" ==> RankSegment(seg) == 4
    ensures IsParam(seg) && Flags(seg) == "?" ==> RankSegment(seg) == 3
    ensures IsParam(seg) && Flags(seg) == "+" ==> RankSegment(seg) == 2
    ensures IsParam(seg) && Flags(seg) == "*" ==> RankSegment(seg) == 1
  {
    if IsParam(seg) && Flags(seg) == "" {
      assert FlagRunLength(seg) == 0;
      assert !IsFlagChar(seg[|seg| - 1]);
    }
    if IsParam(seg) && |Flags(seg)| == 1 {
      assert Flags(seg)[0] == seg[|seg| - 1];
    }
  }

  /** With two flags the two disagree: `:x+?` ranks as optional (3) while
      the matcher reads it as one-or-more and captures the rest. */
  lemma RankAndMatcherDisagreeOnTwoFlags()
    ensures RankSegment(":x+?") == 3
    ensures Flags(":x+?") == "+?" && RestAt([":x+?"], 0)
  {
    assert FlagRunLength(":x") == 0;
    assert ":x+?"[..3] == ":x+" && ":x+"[..2] == ":x";
    assert FlagRunLength(":x+?") == 2;
  }

  /** What `rankChild` answers: the number 0 for a default child, the digit
      string of its path otherwise. */
  datatype RankKey = DefaultRank | PathRank(digits: string)

  /** `rankChild(vnode)`. */
  function RankChild(c: Child): (k: RankKey)
    ensures c.isDefault <==> k == DefaultRank
    ensures k.PathRank? ==> k.digits == Rank(c.path)
  {
    if c.isDefault then DefaultRank else PathRank(Rank(c.path))
  }

  /** A child with the `index` and `rank` that `prepareVNodeForRanking`
      writes onto it. */
  datatype Entry = Entry(child: Child, index: nat, rank: RankKey)

  /** `prepareVNodeForRanking(vnode, index)`. */
  function PrepareVNodeForRanking(c: Child, index: nat): (e: Entry)
    ensures e.child == c && e.index == index && e.rank == RankChild(c)
  {
    Entry(c, index, RankChild(c))
  }

  /** The prepared children as values: child `i` tagged with index `i`. */
  function Prepare(children: seq<Child>): (es: seq<Entry>)
    ensures |es| == |children|
    ensures forall i :: 0 <= i < |es| ==> es[i] == PrepareVNodeForRanking(children[i], i)
  {
    seq(|children|, i requires 0 <= i < |children| => PrepareVNodeForRanking(children[i], i))
  }

  /** A child element, with the `index` and `rank` fields the ranker
      writes onto it. */
  class VNode {
    const child: Child
    var index: nat
    var rank: RankKey

    constructor (c: Child)
      ensures child == c
    {
      child := c;
      index := 0;
      rank := DefaultRank;
    }

    /** The element as a value. */
    function Snapshot(): (e: Entry)
      reads this
      ensures e.child == child
    {
      Entry(child, index, rank)
    }

    /** `prepareVNodeForRanking(vnode, index)`: writes the two fields and
        returns the props, which are always truthy. */
    method PrepareForRanking(i: nat) returns (props: Child)
      modifies this
      ensures props == child
      ensures Snapshot() == PrepareVNodeForRanking(child, i)
    {
      index := i;
      rank := RankChild(child);
      props := child;
    }
  }

  /** The children of a list of elements. */
  function Children(vs: seq<VNode>): (cs: seq<Child>)
    ensures |cs| == |vs|
    ensures forall i :: 0 <= i < |vs| ==> cs[i] == vs[i].child
  {
    seq(|vs|, i requires 0 <= i < |vs| => vs[i].child)
  }

  /** `props.children.filter(prepareVNodeForRanking)`: every element is
      kept, each tagged with its position. */
  method PrepareAll(vs: seq<VNode>) returns (kept: seq<VNode>)
    requires forall i, j :: 0 <= i < j < |vs| ==> vs[i] != vs[j]
    modifies set v | v in vs
    ensures kept == vs
    ensures forall i :: 0 <= i < |vs| ==> vs[i].Snapshot() == Prepare(Children(vs))[i]
  {
    kept := [];
    var i := 0;
    while i < |vs|
      invariant 0 <= i <= |vs| && kept == vs[..i]
      invariant forall j :: 0 <= j < i ==> vs[j].Snapshot() == PrepareVNodeForRanking(vs[j].child, j)
    {
      var props := vs[i].PrepareForRanking(i);
      kept := kept + [vs[i]];
      i := i + 1;
    }
  }

  /* ---------------------------------------------------------------------
     The comparator.
     --------------------------------------------------------------------- */

  /** The digits a key compares by: a default key behaves like the empty
      digit string. */
  function Digits(k: RankKey): string {
    if k.DefaultRank? then "" else k.digits
  }

  /** JavaScript `a < b` on two rank keys. A string compared with the
      number 0 is converted to a number; rank digits are 1 to 5, so that
      number is positive exactly when the string is not empty. The result
      is lexicographic order on the digits, a default counting as empty. */
  predicate RankLess(a: RankKey, b: RankKey)
    ensures RankLess(a, b) == LexLess(Digits(a), Digits(b))
  {
    match (a, b)
    case (DefaultRank, DefaultRank) => false
    case (DefaultRank, PathRank(t)) => t != []
    case (PathRank(s), DefaultRank) => false
    case (PathRank(s), PathRank(t)) => LexLess(s, t)
  }

  /** `pathRankSort(a, b)`: negative when `a` goes first, that is when its
      digits are greater or equal with a smaller index; zero only for equal
      digits and equal indices. */
  function PathRankSort(a: Entry, b: Entry): (r: int)
    ensures r < 0 <==> LexLess(Digits(b.rank), Digits(a.rank))
                       || (Digits(a.rank) == Digits(b.rank) && a.index < b.index)
    ensures r == 0 <==> Digits(a.rank) == Digits(b.rank) && a.index == b.index
  {
    LexLessTotal(Digits(a.rank), Digits(b.rank));
    LexLessIrreflexive(Digits(a.rank));
    if LexLess(Digits(a.rank), Digits(b.rank)) then
      LexLessAsymmetric(Digits(a.rank), Digits(b.rank));
      1
    else if LexLess(Digits(b.rank), Digits(a.rank)) then
      LexLessAsymmetric(Digits(b.rank), Digits(a.rank));
      -1
    else a.index - b.index
  }

  /** `a` may go before `b`. */
  predicate Le(a: Entry, b: Entry) {
    PathRankSort(a, b) <= 0
  }

  /** `a` may go before `b` exactly when its digits are greater, or equal
      with a smaller or equal index. */
  lemma LeMeaning(a: Entry, b: Entry)
    ensures Le(a, b) <==> LexLess(Digits(b.rank), Digits(a.rank))
                          || (Digits(a.rank) == Digits(b.rank) && a.index <= b.index)
  {
  }

  /** The comparator is a total preorder, and an order on entries with
      different indices: any sort gives one result. */
  lemma LeTotal(a: Entry, b: Entry)
    ensures Le(a, b) || Le(b, a)
  {
    LeMeaning(a, b);
    LeMeaning(b, a);
    LexLessTotal(Digits(a.rank), Digits(b.rank));
  }

  lemma LeTransitive(a: Entry, b: Entry, c: Entry)
    requires Le(a, b) && Le(b, c)
    ensures Le(a, c)
  {
    LeMeaning(a, b);
    LeMeaning(b, c);
    LeMeaning(a, c);
    var da, db, dc := Digits(a.rank), Digits(b.rank), Digits(c.rank);
    if LexLess(dc, db) && LexLess(db, da) {
      LexLessTransitive(dc, db, da);
    }
  }

  lemma LeAntisymmetric(a: Entry, b: Entry)
    requires Le(a, b) && Le(b, a)
    ensures a.index == b.index && Digits(a.rank) == Digits(b.rank)
  {
    LeMeaning(a, b);
    LeMeaning(b, a);
    var da, db := Digits(a.rank), Digits(b.rank);
    if LexLess(db, da) && LexLess(da, db) {
      LexLessTransitive(da, db, da);
      LexLessIrreflexive(da);
    } else if LexLess(db, da) && da == db {
      LexLessIrreflexive(da);
    } else if LexLess(da, db) && da == db {
      LexLessIrreflexive(da);
    }
  }

  /* ---------------------------------------------------------------------
     Sorting.
     --------------------------------------------------------------------- */

  predicate Sorted(s: seq<Entry>) {
    forall i, j :: 0 <= i < j < |s| ==> Le(s[i], s[j])
  }

  /** An entry of `s` is determined by its index, as it is for the
      children of one router. */
  predicate Keyed(s: seq<Entry>) {
    forall x, y :: x in s && y in s && x.index == y.index ==> x == y
  }

  function Insert(x: Entry, s: seq<Entry>): (r: seq<Entry>)
    ensures multiset(r) == multiset(s) + multiset{x}
  {
    if s == [] then [x]
    else if Le(x, s[0]) then [x] + s
    else
      assert s == [s[0]] + s[1..];
      [s[0]] + Insert(x, s[1..])
  }

  /** An entry that comes before every element of a sorted sequence can
      be put in front of it. */
  lemma ConsSorted(a: Entry, t: seq<Entry>)
    requires Sorted(t)
    requires forall k :: 0 <= k < |t| ==> Le(a, t[k])
    ensures Sorted([a] + t)
  {
    var r := [a] + t;
    forall i, j | 0 <= i < j < |r| ensures Le(r[i], r[j]) {
      if i == 0 { assert r[j] == t[j - 1]; }
      else { assert r[i] == t[i - 1] && r[j] == t[j - 1]; }
    }
  }

  /** Inserting behind the head of a sorted sequence keeps the head
      first. */
  lemma HeadBeforeInserted(x: Entry, s: seq<Entry>)
    requires Sorted(s) && s != [] && Le(s[0], x)
    ensures forall k :: 0 <= k < |Insert(x, s[1..])| ==> Le(s[0], Insert(x, s[1..])[k])
  {
    var tail := Insert(x, s[1..]);
    forall k | 0 <= k < |tail| ensures Le(s[0], tail[k]) {
      assert tail[k] in multiset(tail);
      if tail[k] != x {
        assert tail[k] in multiset(s[1..]);
        var j :| 0 <= j < |s[1..]| && s[1..][j] == tail[k];
        assert s[j + 1] == tail[k];
      }
    }
  }

  lemma {:induction false} InsertSorted(x: Entry, s: seq<Entry>)
    requires Sorted(s)
    ensures Sorted(Insert(x, s))
  {
    if s == [] {
    } else if Le(x, s[0]) {
      forall j | 0 <= j < |s| ensures Le(x, s[j]) {
        if j > 0 { LeTransitive(x, s[0], s[j]); }
      }
      ConsSorted(x, s);
    } else {
      LeTotal(x, s[0]);
      SortedTail(s);
      InsertSorted(x, s[1..]);
      HeadBeforeInserted(x, s);
      ConsSorted(s[0], Insert(x, s[1..]));
    }
  }

  /** The order `Array.prototype.sort(pathRankSort)` produces, as an
      insertion sort. */
  function SortByRank(es: seq<Entry>): (r: seq<Entry>)
    ensures multiset(r) == multiset(es)
  {
    if es == [] then []
    else
      assert es == [es[0]] + es[1..];
      Insert(es[0], SortByRank(es[1..]))
  }

  lemma {:induction false} SortByRankSorted(es: seq<Entry>)
    ensures Sorted(SortByRank(es))
  {
    if es != [] {
      SortByRankSorted(es[1..]);
      InsertSorted(es[0], SortByRank(es[1..]));
    }
  }

  lemma LeReflexive(a: Entry)
    ensures Le(a, a)
  {
  }

  lemma SortedHeadFirst(s: seq<Entry>, y: Entry)
    requires Sorted(s) && y in s
    ensures Le(s[0], y)
  {
    var k :| 0 <= k < |s| && s[k] == y;
    if k == 0 { LeReflexive(y); } else { assert Le(s[0], s[k]); }
  }

  /** Two sorted arrangements of the same keyed entries start with the
      same entry. */
  lemma SortedSameHead(s: seq<Entry>, t: seq<Entry>)
    requires s != [] && t != []
    requires Sorted(s) && Sorted(t) && multiset(s) == multiset(t) && Keyed(s)
    ensures s[0] == t[0]
  {
    var a, b := s[0], t[0];
    assert a in multiset(t) && b in multiset(s);
    SortedHeadFirst(t, a);
    SortedHeadFirst(s, b);
    LeAntisymmetric(a, b);
  }

  lemma SortedTail(s: seq<Entry>)
    requires s != [] && Sorted(s)
    ensures Sorted(s[1..])
  {
    forall i, j | 0 <= i < j < |s[1..]| ensures Le(s[1..][i], s[1..][j]) {
      assert s[1..][i] == s[i + 1] && s[1..][j] == s[j + 1];
    }
  }

  /** Two permutations with the same head have permuted tails. */
  lemma TailsPermuted(s: seq<Entry>, t: seq<Entry>)
    requires s != [] && t != [] && multiset(s) == multiset(t) && s[0] == t[0]
    ensures multiset(s[1..]) == multiset(t[1..])
  {
    assert s == [s[0]] + s[1..] && t == [t[0]] + t[1..];
    assert multiset(s[1..]) == multiset(s) - multiset{s[0]};
    assert multiset(t[1..]) == multiset(t) - multiset{t[0]};
  }

  lemma KeyedTail(s: seq<Entry>)
    requires s != [] && Keyed(s)
    ensures Keyed(s[1..])
  {
    forall x, y | x in s[1..] && y in s[1..] && x.index == y.index ensures x == y {
      assert x in s && y in s;
    }
  }

  /** A sorted permutation of keyed entries is unique. */
  lemma {:induction false} SortedPermutationUnique(s: seq<Entry>, t: seq<Entry>)
    requires Sorted(s) && Sorted(t) && multiset(s) == multiset(t) && Keyed(s)
    ensures s == t
  {
    assert |t| == |multiset(t)| == |multiset(s)| == |s|;
    if s != [] {
      SortedSameHead(s, t);
      TailsPermuted(s, t);
      SortedTail(s);
      SortedTail(t);
      KeyedTail(s);
      SortedPermutationUnique(s[1..], t[1..]);
      assert s == [s[0]] + s[1..] && t == [t[0]] + t[1..];
    }
  }

  /** The prepared children are keyed: entry `i` has index `i`. */
  lemma PreparedKeyed(children: seq<Child>)
    ensures Keyed(Prepare(children))
  {
    var es := Prepare(children);
    forall x, y | x in es && y in es && x.index == y.index ensures x == y {
      var i :| 0 <= i < |es| && es[i] == x;
      var j :| 0 <= j < |es| && es[j] == y;
    }
  }

  /** Whatever algorithm the engine's `sort` uses, a sorted permutation of
      the prepared children is exactly `SortByRank` of them. */
  lemma SortIsDetermined(children: seq<Child>, t: seq<Entry>)
    requires Sorted(t) && multiset(t) == multiset(Prepare(children))
    ensures t == SortByRank(Prepare(children))
  {
    var s := SortByRank(Prepare(children));
    SortByRankSorted(Prepare(children));
    PreparedKeyed(children);
    forall x, y | x in s && y in s && x.index == y.index ensures x == y {
      assert x in multiset(s) && y in multiset(s);
      assert x in Prepare(children) && y in Prepare(children);
    }
    SortedPermutationUnique(s, t);
  }

  /** Ranked children go before default ones, whatever their indices. */
  lemma DefaultsSortLast(a: Entry, b: Entry)
    requires a.rank.PathRank? && a.rank.digits != [] && b.rank == DefaultRank
    ensures Le(a, b) && !Le(b, a)
  {
  }

  /** A greater rank string goes first; equal ranks keep declaration order. */
  lemma HigherRankFirst(a: Entry, b: Entry)
    ensures LexLess(Digits(b.rank), Digits(a.rank)) ==> Le(a, b) && !Le(b, a)
    ensures Digits(a.rank) == Digits(b.rank) ==> (Le(a, b) <==> a.index <= b.index)
  {
    LeMeaning(a, b);
    LeMeaning(b, a);
    if LexLess(Digits(b.rank), Digits(a.rank)) {
      LexLessAsymmetric(Digits(b.rank), Digits(a.rank));
    }
    if Digits(a.rank) == Digits(b.rank) {
      LexLessIrreflexive(Digits(a.rank));
    }
  }
}
