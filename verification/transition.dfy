/** The transition controller both routers share: the five refs a render
    and its effect keep (`cur`, `prev`, `curChildren`, `prevChildren`,
    `pending`), the URL-change block at the top of a render,
    `componentDidCatch`, and the `[url]` effect with its `commit` guard.
    A thrown promise is reduced to an opaque token compared by identity;
    when it settles is up to the environment, which delivers a `Resolve`
    event. */
module Transition {
  import opened Wrappers
  import opened Routes

  /** The identity of a thrown thenable. */
  datatype Token = Token(id: nat)

  /** What `componentDidCatch` receives: a thenable, or any other value. */
  datatype Thrown = Thenable(token: Token) | NotThenable

  /** The calls the controller makes outwards: `onLoadStart(url)`,
      `onLoadEnd(url)` and the forced re-render `update(0)`. A router
      without the optional handler ignores the first two. */
  datatype Notice = LoadStart(url: string) | LoadEnd(url: string) | Rerender

  /** The refs. `None` stands for both `null` and `undefined`, which the
      code never tells apart. `S` is what a render stores as its children. */
  datatype Refs<S> = Refs(cur: Loc, prev: Option<Loc>, curChildren: Option<S>,
                          prevChildren: Option<S>, pending: Option<Token>)

  /** The refs after `useRef` on the first render. */
  function Initial<S>(loc: Loc): (s: Refs<S>)
    ensures s.cur == loc && s.prev.None? && s.curChildren.None? && s.prevChildren.None? && s.pending.None?
  {
    Refs(loc, None, None, None, None)
  }

  /** The block at the top of a render: a new URL moves the current
      location and children to the previous slots and forgets the pending
      token; the same URL changes nothing. */
  function OnRender<S>(s: Refs<S>, loc: Loc): (t: Refs<S>)
    ensures loc.url == s.cur.url ==> t == s
    ensures loc.url != s.cur.url ==>
      t == Refs(loc, Some(s.cur), s.curChildren, s.curChildren, None)
  {
    if loc.url != s.cur.url then s.(pending := None, prev := Some(s.cur), prevChildren := s.curChildren, cur := loc)
    else s
  }

  /** `componentDidCatch(err)`: a thenable becomes the pending token;
      anything else changes nothing. */
  function OnCatch<S>(s: Refs<S>, err: Thrown): (t: Refs<S>)
    ensures err.Thenable? ==> t.pending == Some(err.token)
    ensures err.NotThenable? ==> t == s
    ensures t.(pending := s.pending) == s
  {
    if err.Thenable? then s.(pending := Some(err.token)) else s
  }

  datatype Step<S> = Step(refs: Refs<S>, notices: seq<Notice>)

  /** `commit()` of the effect run for `url` that saw the token `p`: it
      acts only while the location is still `url` and the pending token is
      still `p`; it then drops the previous location and children. */
  function OnCommit<S>(s: Refs<S>, url: string, p: Option<Token>): (r: Step<S>)
    ensures r.notices != [] <==> s.cur.url == url && s.pending == p
    ensures r.notices == [] ==> r.refs == s
    ensures r.notices != [] ==>
      r.notices == [LoadEnd(url), Rerender] && r.refs == s.(prev := None, prevChildren := None)
  {
    if s.cur.url != url || s.pending != p then Step(s, [])
    else Step(s.(prev := None, prevChildren := None), [LoadEnd(url), Rerender])
  }

  /** What the effect leaves behind: the step, and the token whose
      settling will call `commit`, if it waits for one. */
  datatype EffectRun<S> = EffectRun(step: Step<S>, awaiting: Option<Token>)

  /** The effect for `url`: with a pending token it announces the load and
      waits for that token; otherwise it commits at once. */
  function OnEffect<S>(s: Refs<S>, url: string): (r: EffectRun<S>)
    ensures r.awaiting == s.pending
    ensures s.pending.Some? ==> r.step == Step(s, [LoadStart(url)])
    ensures s.pending.None? ==> r.step == OnCommit(s, url, None)
  {
    if s.pending.Some? then EffectRun(Step(s, [LoadStart(url)]), s.pending)
    else EffectRun(OnCommit(s, url, None), None)
  }

  /** `onLoadStart` is called exactly when a token is pending, and only
      an effect without one can commit on the spot. */
  lemma LoadStartIffPending<S>(s: Refs<S>, url: string)
    ensures LoadStart(url) in OnEffect(s, url).step.notices <==> s.pending.Some?
    ensures OnEffect(s, url).step.refs != s ==> s.pending.None? && s.cur.url == url
  {
    var r := OnEffect(s, url);
    if s.pending.None? {
      assert r.step == OnCommit(s, url, None);
      assert r.step.notices == [] || r.step.notices == [LoadEnd(url), Rerender];
      assert LoadStart(url) != LoadEnd(url) && LoadStart(url) != Rerender;
    }
  }

  /** An effect run right after the render of its own URL, with nothing
      pending, commits: the previous view goes at once. */
  lemma EffectWithoutPendingCommits<S>(s: Refs<S>, url: string)
    requires s.cur.url == url && s.pending.None?
    ensures OnEffect(s, url).step.refs.prev.None? && OnEffect(s, url).step.refs.prevChildren.None?
    ensures OnEffect(s, url).step.notices == [LoadEnd(url), Rerender]
  {
  }

  /* ---------------------------------------------------------------------
     Traces.
     --------------------------------------------------------------------- */

  /** What happens to the router: a render at a location storing its
      children, a catch, the effect of a URL, and the settling of a token
      some effect of a URL waits for. */
  datatype Event<S> = Render(loc: Loc, children: S) | Caught(err: Thrown)
                    | Effect(url: string) | Resolve(url: string, token: Token)

  /** The refs after one event. */
  function Apply<S>(s: Refs<S>, e: Event<S>): Refs<S> {
    match e
    case Render(loc, children) => OnRender(s, loc).(curChildren := Some(children))
    case Caught(err) => OnCatch(s, err)
    case Effect(url) => OnEffect(s, url).step.refs
    case Resolve(url, token) => OnCommit(s, url, Some(token)).refs
  }

  /** The refs after a sequence of events. */
  function Run<S>(s: Refs<S>, events: seq<Event<S>>): Refs<S>
    decreases |events|
  {
    if events == [] then s else Run(Apply(s, events[0]), events[1..])
  }

  /** Only a catch of the token itself makes it pending. */
  lemma {:induction false} TokenStaysAway<S>(s: Refs<S>, events: seq<Event<S>>, t: Token)
    requires s.pending != Some(t)
    requires Caught(Thenable(t)) !in events
    ensures Run(s, events).pending != Some(t)
    decreases |events|
  {
    if events != [] {
      assert Caught(Thenable(t)) !in events[1..] by {
        forall k | 0 <= k < |events[1..]| ensures events[1..][k] != Caught(Thenable(t)) {
          assert events[1..][k] == events[k + 1];
        }
      }
      assert events[0] != Caught(Thenable(t));
      TokenStaysAway(Apply(s, events[0]), events[1..], t);
    }
  }

  /** The stale-result guard: once a token is not the pending one, its
      settling commits nothing until it is thrown again. */
  lemma StaleTokenCannotCommit<S>(s: Refs<S>, events: seq<Event<S>>, t: Token, url: string)
    requires s.pending != Some(t)
    requires Caught(Thenable(t)) !in events
    ensures OnCommit(Run(s, events), url, Some(t)) == Step(Run(s, events), [])
  {
    TokenStaysAway(s, events, t);
  }

  /** A navigation forgets the token a load was waiting for: whatever
      follows, its settling never commits unless it is thrown again. */
  lemma NavigationSupersedesToken<S>(s: Refs<S>, loc: Loc, children: S, events: seq<Event<S>>, t: Token, url: string)
    requires loc.url != s.cur.url
    requires Caught(Thenable(t)) !in events
    ensures OnCommit(Run(s, [Render(loc, children)] + events), url, Some(t)).notices == []
  {
    var s1 := Apply(s, Render(loc, children));
    assert s1.pending.None?;
    assert ([Render(loc, children)] + events)[1..] == events;
    StaleTokenCannotCommit(s1, events, t, url);
  }

  /** A newer thrown token replaces an older one, so the older one's
      settling is ignored even at the same location. */
  lemma OnlyLatestTokenCommits<S>(s: Refs<S>, older: Token, newer: Token)
    requires older != newer
    ensures OnCommit(OnCatch(s, Thenable(newer)), s.cur.url, Some(older)).notices == []
    ensures var c := OnCommit(OnCatch(s, Thenable(newer)), s.cur.url, Some(newer));
      && c.notices == [LoadEnd(s.cur.url), Rerender]
      && c.refs == s.(pending := Some(newer), prev := None, prevChildren := None)
  {
  }

  /** The location only changes at a render with a different URL. */
  lemma {:induction false} LocationKept<S>(s: Refs<S>, events: seq<Event<S>>)
    requires forall k :: 0 <= k < |events| && events[k].Render? ==> events[k].loc.url == s.cur.url
    ensures Run(s, events).cur == s.cur
    decreases |events|
  {
    if events != [] {
      var s1 := Apply(s, events[0]);
      assert s1.cur == s.cur;
      forall k | 0 <= k < |events[1..]| && events[1..][k].Render?
        ensures events[1..][k].loc.url == s1.cur.url
      {
        assert events[1..][k] == events[k + 1];
      }
      LocationKept(s1, events[1..]);
    }
  }

  /* ---------------------------------------------------------------------
     The refs as the component holds them.
     --------------------------------------------------------------------- */

  /** The `Router` component's refs, updated in place by its renders, its
      `componentDidCatch` and its effect. */
  class Router<S> {
    var cur: Loc
    var prev: Option<Loc>
    var curChildren: Option<S>
    var prevChildren: Option<S>
    var pending: Option<Token>

    function State(): Refs<S>
      reads this
    {
      Refs(cur, prev, curChildren, prevChildren, pending)
    }

    /** The first render's `useRef(loc)` and four empty refs. */
    constructor (loc: Loc)
      ensures State() == Initial(loc)
    {
      cur := loc;
      prev := None;
      curChildren := None;
      prevChildren := None;
      pending := None;
    }

    /** The URL-change block of a render. */
    method Sync(loc: Loc)
      modifies this
      ensures State() == OnRender(old(State()), loc)
    {
      if loc.url != cur.url {
        pending := None;
        prev := Some(cur);
        prevChildren := curChildren;
        cur := loc;
      }
    }

    /** `curChildren.current = …` at the end of a render. */
    method SetChildren(children: S)
      modifies this
      ensures State() == old(State()).(curChildren := Some(children))
    {
      curChildren := Some(children);
    }

    /** `componentDidCatch(err)`. */
    method DidCatch(err: Thrown)
      modifies this
      ensures State() == OnCatch(old(State()), err)
    {
      if err.Thenable? {
        pending := Some(err.token);
      }
    }

    /** `commit()` for the effect of `url` that saw `p`. */
    method Commit(url: string, p: Option<Token>) returns (notices: seq<Notice>)
      modifies this
      ensures Step(State(), notices) == OnCommit(old(State()), url, p)
    {
      if cur.url != url || pending != p {
        return [];
      }
      notices := [LoadEnd(url)];
      prev := None;
      prevChildren := None;
      notices := notices + [Rerender];
    }

    /** The `[url]` effect: announces a pending load and returns the token
      to wait for, or commits at once. */
    method RunEffect(url: string) returns (notices: seq<Notice>, awaiting: Option<Token>)
      modifies this
      ensures EffectRun(Step(State(), notices), awaiting) == OnEffect(old(State()), url)
    {
      var p := pending;
      if p.Some? {
        notices := [LoadStart(url)];
        awaiting := p;
      } else {
        notices := Commit(url, p);
        awaiting := None;
      }
    }
  }
}
