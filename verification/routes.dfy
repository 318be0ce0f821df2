/** The values the router passes around: its children (route declarations),
    the elements it renders, and the current location. */
module Routes {

  /** A child of `<Router>`: the props the router reads (`path`, `default`)
      and an opaque identity for the view it renders. A missing `path` prop
      is the empty string, as `exec` reads it through `route || ''`. */
  datatype Child = Child(path: string, isDefault: bool, view: nat)

  /** A property value as the routers store it: a string, `undefined`
      (an absent optional capture in router.js), or the parsed query object. */
  datatype Value = Str(s: string) | Undefined | QueryObject(q: map<string, string>)

  /** What the router renders for a child: the child itself, or a clone of
      it whose props are overridden by `props` (`cloneElement(vnode, props)`). */
  datatype Elem = Original(child: Child) | Clone(child: Child, props: map<string, Value>)

  /** The location the provider publishes: the raw `url` (path and query),
      the normalised `path`, and the parsed query. */
  datatype Loc = Loc(url: string, path: string, query: map<string, string>)

  /** The props object `{ path, query }` both routers start from. */
  function LocProps(path: string, query: map<string, string>): (m: map<string, Value>)
    ensures m.Keys == {"path", "query"}
    ensures m["path"] == Str(path) && m["query"] == QueryObject(query)
  {
    map["path" := Str(path), "query" := QueryObject(query)]
  }
}
