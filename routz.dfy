// The route resolver of `routz`: a routing table that maps route names to
// path templates, and a definition bound to that table which receives a
// template by name and resolves a name and parameters to a path.
module Routz {
  import opened Strings
  import opened Placeholders

  /** The two errors the resolver raises. */
  datatype RouteError =
    | RouteNotFound(name: string)
    | MissingParam(param: string, route: string)

  datatype Result<T> = Success(value: T) | Failure(error: RouteError)

  /** Route name to path template. An empty template counts as absent. */
  type Table = map<string, string>

  /** Parameter name to value. An omitted or null parameter object is the empty map. */
  type Params = map<string, string>

  /** The template the table holds for `name`; a name that is absent or
      maps to the empty string is not found. */
  function Lookup(table: Table, name: string): Result<string> {
    if name in table && table[name] != "" then Success(table[name])
    else Failure(RouteNotFound(name))
  }

  /** The usable value of a parameter: present and not empty. */
  function ParamValue(params: Params, key: string): Option<string> {
    if key in params && params[key] != "" then Some(params[key]) else None
  }

  /** What a placeholder is replaced by: its parameter's value, or the
      empty string when an optional one has none; `None` when a required
      one has none. */
  function Replacement(t: Token, params: Params): (r: Option<string>)
    ensures r.None? <==> !t.optional && ParamValue(params, t.key).None?
    ensures r.Some? && ParamValue(params, t.key).None? ==> r.value == ""
    ensures ParamValue(params, t.key).Some? ==> r == ParamValue(params, t.key)
  {
    match ParamValue(params, t.key)
    case Some(v) => Some(v)
    case None => if t.optional then Some("") else None
  }

  /** Substitutes the placeholders `ts`, in order, into `path`: each one
      replaces the first remaining occurrence of its text. The first
      placeholder without a replacement stops the substitution with
      `MissingParam` for route `name`. */
  function Substitute(path: string, ts: seq<Token>, params: Params, name: string): (r: Result<string>)
    ensures r.Failure? ==> exists k :: 0 <= k < |ts| && r.error == MissingParam(ts[k].key, name)
    decreases |ts|
  {
    if ts == [] then Success(path)
    else
      match Replacement(ts[0], params)
      case None => Failure(MissingParam(ts[0].key, name))
      case Some(v) =>
        var r := Substitute(ReplaceFirst(path, ts[0].Text(), v), ts[1..], params, name);
        assert r.Failure? ==> exists k :: 0 <= k < |ts[1..]| && r.error == MissingParam(ts[1..][k].key, name);
        r
  }

  /** The final clean-up of a substituted path: runs of slashes become one
      slash, then a trailing slash is dropped unless the template has one. */
  function Normalize(path: string, template: string): (r: string)
    ensures NoDoubleSlash(r)
    ensures EndsWithSlash(r) ==> EndsWithSlash(template)
    ensures EndsWithSlash(path) && EndsWithSlash(template) ==> EndsWithSlash(r)
  {
    var sanitized := CollapseSlashes(path);
    if EndsWithSlash(sanitized) && !EndsWithSlash(template) then
      var r := sanitized[..|sanitized| - 1];
      assert forall i :: 0 <= i < |r| && DoubleSlashAt(r, i) ==> DoubleSlashAt(sanitized, i);
      assert |r| >= 1 ==> !DoubleSlashAt(sanitized, |r| - 1);
      r
    else
      sanitized
  }

  /** What resolving `name` with `params` against `table` yields. */
  function ResolvePath(table: Table, name: string, params: Params): Result<string> {
    match Lookup(table, name)
    case Failure(e) => Failure(e)
    case Success(template) =>
      match Substitute(template, Tokens(template), params, name)
      case Failure(e) => Failure(e)
      case Success(path) => Success(Normalize(path, template))
  }

  /** The routing table its owner keeps and may change at any time. */
  class Routes {
    var entries: Table

    constructor (entries: Table)
      ensures this.entries == entries
    {
      this.entries := entries;
    }

    /** `routes[name] = template` */
    method Set(name: string, template: string)
      modifies this
      ensures entries == old(entries)[name := template]
    {
      entries := entries[name := template];
    }
  }

  /** What `define(routes)` returns: `Receive` and `Resolve` bound to the
      table by reference, so later changes to it are seen by both. */
  class Definition {
    const routes: Routes

    constructor Define(routes: Routes)
      ensures this.routes == routes
    {
      this.routes := routes;
    }

    /** The template the table holds for `name` right now. */
    method Receive(name: string) returns (r: Result<string>)
      ensures r == Lookup(routes.entries, name)
    {
      var entries := routes.entries;
      if !(name in entries) || entries[name] == "" {
        return Failure(RouteNotFound(name));
      }
      return Success(entries[name]);
    }

    /** Resolves `name` with `params` to a path against the table as it is now. */
    method Resolve(name: string, params: Params) returns (r: Result<string>)
      ensures r == ResolvePath(routes.entries, name, params)
    {
      var received := Receive(name);
      if received.Failure? {
        return Failure(received.error);
      }
      var template := received.value;
      var path := template;
      var lastIndex := 0;
      var found := NextMatch(template, lastIndex);
      while found.Some?
        invariant lastIndex <= |template|
        invariant found == NextMatch(template, lastIndex)
        invariant Substitute(path, TokensFrom(template, lastIndex), params, name)
               == Substitute(template, Tokens(template), params, name)
        decreases |template| - lastIndex
      {
        var t := found.value;
        var replace: string;
        match ParamValue(params, t.key) {
          case Some(v) =>
            replace := v;
          case None =>
            if !t.optional {
              return Failure(MissingParam(t.key, name));
            }
            replace := "";
        }
        path := ReplaceFirst(path, t.Text(), replace);
        lastIndex := t.End();
        found := NextMatch(template, lastIndex);
      }
      path := CollapseSlashes(path);
      if EndsWithSlash(path) && !EndsWithSlash(template) {
        path := path[..|path| - 1];
      }
      return Success(path);
    }
  }
}
