/** The location reducer `UPDATE` shared by both routers, and the
    trailing-slash rule the location provider applies to the pathname.
    The browser is abstracted: a click is a record of the anchor it hit,
    `location` is an environment record, and the history calls are an
    output tag. */
module Navigation {
  import opened Wrappers
  import opened JsStrings

  /** The `a[href]` element a click resolved to: its `origin` and absolute `href`. */
  datatype Anchor = Anchor(origin: string, href: string)

  /** What the reducer receives as its `url` argument: a click event (with
      the anchor `closest('a[href]')` found, if any), a string, or anything
      else (a `popstate` event, `undefined`). */
  datatype Action = Click(link: Option<Anchor>) | Url(url: string) | NotAUrl

  /** The `push` argument: `true`, `false`, or any other value. */
  datatype PushFlag = PushTrue | PushFalse | Unset

  /** The history call the reducer makes, if any. */
  datatype HistoryWrite = PushState(url: string) | ReplaceState(url: string) | NoWrite

  /** `location.origin` and `location.pathname + location.search`. */
  datatype Env = Env(origin: string, pathAndSearch: string)

  /** The reducer's new state, the history call it made, and whether it
      called `preventDefault` on the click. */
  datatype Outcome = Outcome(state: string, history: HistoryWrite, defaultPrevented: bool)

  /** A click the router takes over: it hit an anchor of the same origin. */
  predicate Intercepted(action: Action, env: Env) {
    action.Click? && action.link.Some? && action.link.value.origin == env.origin
  }

  /** The history call for a `push` flag: `pushState` for `true`,
      `replaceState` for `false`, none otherwise. */
  function HistoryFor(push: PushFlag, url: string): HistoryWrite {
    match push
    case PushTrue => PushState(url)
    case PushFalse => ReplaceState(url)
    case Unset => NoWrite
  }

  /** `UPDATE(state, url, push)`. */
  function Update(state: string, action: Action, push: PushFlag, env: Env): (o: Outcome)
    // only an intercepted click is prevented, and it always pushes
    ensures o.defaultPrevented <==> Intercepted(action, env)
    ensures o.defaultPrevented ==> o.history.PushState?
    // any other click leaves the state alone and writes no history
    ensures action.Click? && !Intercepted(action, env) ==> o == Outcome(state, NoWrite, false)
    // what history records is always the new state
    ensures o.history != NoWrite ==> o.history.url == o.state
    // a string is adopted as it is, anything else resyncs to the location
    ensures action.Url? ==> o.state == action.url
    ensures action.NotAUrl? ==> o.state == env.pathAndSearch
    // outside clicks, the push flag alone selects the history call
    ensures !action.Click? ==> o.history == HistoryFor(push, o.state)
  {
    match action
    case Click(link) =>
      if link.None? || link.value.origin != env.origin then Outcome(state, NoWrite, false)
      else
        var url := ReplaceFirst(link.value.href, env.origin, "");
        Outcome(url, HistoryFor(PushTrue, url), true)
    case Url(u) => Outcome(u, HistoryFor(push, u), false)
    case NotAUrl => Outcome(env.pathAndSearch, HistoryFor(push, env.pathAndSearch), false)
  }

  /** A same-origin link whose `href` is the origin followed by a path
      navigates to that path, whatever `push` was. */
  lemma SameOriginLinkNavigatesToPath(state: string, rest: string, push: PushFlag, env: Env)
    ensures Update(state, Click(Some(Anchor(env.origin, env.origin + rest))), push, env)
            == Outcome(rest, PushState(rest), true)
  {
    ReplaceFirstPrefix(env.origin, rest);
  }

  /** `pathname.replace(/(.)\/$/g, '$1')`: one trailing `/` is removed when
      a character other than a line terminator precedes it. */
  function NormalizePath(p: string): (r: string)
    ensures r == p || r + "/" == p
    ensures r != p ==> |p| >= 2
  {
    if |p| >= 2 && p[|p| - 1] == '/' && !IsLineTerminator(p[|p| - 2]) then p[..|p| - 1] else p
  }

  /** `/a/` and `/a` give the same path, and the root stays `/`. */
  lemma {:induction false} TrailingSlashIgnored(p: string)
    requires p != [] && p[|p| - 1] != '/' && !IsLineTerminator(p[|p| - 1])
    ensures NormalizePath(p + "/") == p
    ensures NormalizePath(p) == p
    ensures NormalizePath("/") == "/"
  {
    assert (p + "/")[..|p|] == p;
  }

  /** Only one slash goes: `//` becomes `/` and `/a//` becomes `/a/`, so the
      rule is not idempotent. */
  lemma OnlyOneSlashRemoved()
    ensures NormalizePath("/a//") == "/a/"
    ensures NormalizePath(NormalizePath("/a//")) == "/a"
  {
    assert "/a//"[..3] == "/a/";
    assert "/a/"[..2] == "/a";
  }
}
