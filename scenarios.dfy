// The cases of the project's test suite, and a consequence of
// substituting by first textual occurrence, as facts about the model.
module RoutzScenarios {
  import opened Strings
  import opened Placeholders
  import opened Routz
  import opened RoutzProperties

  /** A template without placeholders resolves to itself, with parameters
      omitted, null or empty. */
  lemma ResolvesLiteralRoute(table: Table, name: string, params: Params)
    requires name in table && table[name] == "/home"
    ensures ResolvePath(table, name, params) == Success("/home")
  {
    TokensFromDone("/home", 0);
    ResolveLiteralTemplate(table, name, params);
  }

  /** A template with one required placeholder between literal parts
      without `[`, and a value that leaves no repeated or trailing slash,
      resolves to the value in the placeholder's place. */
  lemma ResolvesSingleParam(table: Table, name: string, pre: string, key: string, post: string, value: string)
    requires name in table && table[name] == pre + "[" + key + "]" + post
    requires AllLetters(key) && value != ""
    requires NoBracket(pre) && NoBracket(post)
    requires NoDoubleSlash(pre + value + post) && !EndsWithSlash(pre + value + post)
    ensures ResolvePath(table, name, map[key := value]) == Success(pre + value + post)
  {
    var t := Token(|pre|, key, false);
    assert table[name] == pre + t.Text() + post;
    ResolveOneToken(table, name, map[key := value], pre, t, post);
    assert Replacement(t, map[key := value]) == Some(value);
    NormalizeCleanPath(pre + value + post, table[name]);
  }

  /** `/pages/[pageSlug]` with `pageSlug: 'foo'` gives `/pages/foo`. */
  lemma ResolvesRequiredParam(table: Table, name: string)
    requires name in table && table[name] == "/pages/[pageSlug]"
    ensures ResolvePath(table, name, map["pageSlug" := "foo"]) == Success("/pages/foo")
  {
    assert table[name] == "/pages/" + "[" + "pageSlug" + "]" + "";
    assert "/pages/foo" == "/pages/" + "foo" + "";
    ResolvesSingleParam(table, name, "/pages/", "pageSlug", "", "foo");
  }

  /** A placeholder inside a segment: `/profile/id-[id]-user` with
      `id: 'foo'` gives `/profile/id-foo-user`. */
  lemma ResolvesParamInsideSegment(table: Table, name: string)
    requires name in table && table[name] == "/profile/id-[id]-user"
    ensures ResolvePath(table, name, map["id" := "foo"]) == Success("/profile/id-foo-user")
  {
    assert table[name] == "/profile/id-" + "[" + "id" + "]" + "-user";
    assert "/profile/id-foo-user" == "/profile/id-" + "foo" + "-user";
    ResolvesSingleParam(table, name, "/profile/id-", "id", "-user", "foo");
  }

  /** `/pages/[slug]` with no parameters, or with only an unrelated one,
      fails with `MissingParam("slug", name)`. */
  lemma MissingRequiredParam(table: Table, name: string)
    requires name in table && table[name] == "/pages/[slug]"
    ensures ResolvePath(table, name, map[]) == Failure(MissingParam("slug", name))
    ensures ResolvePath(table, name, map["siteSlug" := "foo"]) == Failure(MissingParam("slug", name))
  {
    var t := Token(7, "slug", false);
    assert table[name] == "/pages/" + t.Text() + "";
    ResolveOneToken(table, name, map[], "/pages/", t, "");
    ResolveOneToken(table, name, map["siteSlug" := "foo"], "/pages/", t, "");
  }

  /** The routing table is held by reference: entries its owner adds or
      changes after `define` are what `receive` returns next. */
  method LiveTableReceive() returns (pagesBefore: Result<string>, before: Result<string>,
                                     after: Result<string>, pages: Result<string>)
    ensures pagesBefore == Success("/pages")
    ensures before == Failure(RouteNotFound("not-defined"))
    ensures after == Success("/but/defined/yet")
    ensures pages == Success("/pages/list")
  {
    var routes := new Routes(map["pages" := "/pages"]);
    var api := new Definition.Define(routes);
    pagesBefore := api.Receive("pages");
    before := api.Receive("not-defined");
    routes.Set("pages", "/pages/list");
    routes.Set("not-defined", "/but/defined/yet");
    after := api.Receive("not-defined");
    pages := api.Receive("pages");
  }

  /** The route as the live table first holds it. */
  lemma ResolvesInitialRoute(table: Table)
    requires "pages:detail" in table && table["pages:detail"] == "/pages/[slug]"
    ensures ResolvePath(table, "pages:detail", map["slug" := "article-42"]) == Success("/pages/article-42")
  {
    assert table["pages:detail"] == "/pages/" + "[" + "slug" + "]" + "";
    assert "/pages/article-42" == "/pages/" + "article-42" + "";
    ResolvesSingleParam(table, "pages:detail", "/pages/", "slug", "", "article-42");
  }

  /** The route the owner of the live table moved. */
  lemma ResolvesMovedRoute(table: Table)
    requires "pages:detail" in table && table["pages:detail"] == "/pages/articles/[pageSlug]"
    ensures ResolvePath(table, "pages:detail", map["pageSlug" := "article-7411"])
            == Success("/pages/articles/article-7411")
  {
    assert table["pages:detail"] == "/pages/articles/" + "[" + "pageSlug" + "]" + "";
    assert "/pages/articles/article-7411" == "/pages/articles/" + "article-7411" + "";
    ResolvesSingleParam(table, "pages:detail", "/pages/articles/", "pageSlug", "", "article-7411");
  }

  /** The route the owner of the live table added. */
  lemma ResolvesAddedRoute(table: Table)
    requires "not-defined" in table && table["not-defined"] == "/but/[slug]/yet"
    ensures ResolvePath(table, "not-defined", map["slug" := "defined"]) == Success("/but/defined/yet")
  {
    assert table["not-defined"] == "/but/" + "[" + "slug" + "]" + "/yet";
    assert "/but/defined/yet" == "/but/" + "defined" + "/yet";
    ResolvesSingleParam(table, "not-defined", "/but/", "slug", "/yet", "defined");
  }

  /** ... and what `resolve` works from next. */
  method LiveTableResolve() returns (initial: Result<string>, missing: Result<string>,
                                     moved: Result<string>, added: Result<string>)
    ensures initial == Success("/pages/article-42")
    ensures missing == Failure(RouteNotFound("not-defined"))
    ensures moved == Success("/pages/articles/article-7411")
    ensures added == Success("/but/defined/yet")
  {
    var routes := new Routes(map["pages:detail" := "/pages/[slug]"]);
    var api := new Definition.Define(routes);
    ResolvesInitialRoute(routes.entries);
    ResolveRouteNotFound(routes.entries, "not-defined", map[]);
    initial := api.Resolve("pages:detail", map["slug" := "article-42"]);
    missing := api.Resolve("not-defined", map[]);
    routes.Set("pages:detail", "/pages/articles/[pageSlug]");
    routes.Set("not-defined", "/but/[slug]/yet");
    ResolvesMovedRoute(routes.entries);
    ResolvesAddedRoute(routes.entries);
    moved := api.Resolve("pages:detail", map["pageSlug" := "article-7411"]);
    added := api.Resolve("not-defined", map["slug" := "defined"]);
  }

  /** Substitution goes by first textual occurrence, not by the position
      the scan found: in `[[b?]a?]/[a?]` the scan finds `[b?]` at 1 and
      `[a?]` at 9; removing `[b?]` forms a new `[a?]` at 0, which is the
      one the second step removes, so the placeholder at 9 survives. */
  lemma FirstOccurrenceIsReplaced(table: Table, name: string, params: Params)
    requires name in table && table[name] == "[[b?]a?]/[a?]"
    requires ParamValue(params, "a").None? && ParamValue(params, "b").None?
    ensures ResolvePath(table, name, params) == Success("/[a?]")
  {
    var s := table[name];
    var tb, ta := QuirkTokens(s);
    assert tb.Text() == "[b?]" && ta.Text() == "[a?]";
    QuirkFirstStep(s);
    QuirkSecondStep("[a?]/[a?]");
    SubstituteTwo(s, tb, ta, params, name, "", "");
    ResolveAfterSubstitute(table, name, params, "/[a?]");
    QuirkClean(s);
  }

  /** The result needs no clean-up. */
  lemma QuirkClean(s: string)
    ensures Normalize("/[a?]", s) == "/[a?]"
  {
    var r := "/[a?]";
    assert forall i :: 0 <= i < |r| ==> !DoubleSlashAt(r, i);
    NormalizeCleanPath(r, s);
  }

  /** Two placeholders with replacements: two first-occurrence replacements. */
  lemma SubstituteTwo(path: string, t: Token, u: Token, params: Params, name: string, v: string, w: string)
    requires Replacement(t, params) == Some(v) && Replacement(u, params) == Some(w)
    ensures Substitute(path, [t, u], params, name)
            == Success(ReplaceFirst(ReplaceFirst(path, t.Text(), v), u.Text(), w))
  {
    var p1 := ReplaceFirst(path, t.Text(), v);
    SubstituteStep(path, [t, u], params, name, v);
    assert [t, u][1..] == [u];
    SubstituteStep(p1, [u], params, name, w);
    assert [u][1..] == [];
  }

  /** One step of the substitution: the first placeholder replaced. */
  lemma SubstituteStep(path: string, ts: seq<Token>, params: Params, name: string, v: string)
    requires ts != [] && Replacement(ts[0], params) == Some(v)
    ensures Substitute(path, ts, params, name) == Substitute(ReplaceFirst(path, ts[0].Text(), v), ts[1..], params, name)
  {
  }

  /** The scan of `[[b?]a?]/[a?]`. */
  lemma QuirkTokens(s: string) returns (tb: Token, ta: Token)
    requires s == "[[b?]a?]/[a?]"
    ensures tb == Token(1, "b", true) && ta == Token(9, "a", true)
    ensures Tokens(s) == [tb, ta]
  {
    tb, ta := Token(1, "b", true), Token(9, "a", true);
    QuirkFirstToken(s);
    QuirkLastToken(s);
  }

  /** The `[` at 0 starts no placeholder; the first one is `[b?]` at 1. */
  lemma QuirkFirstToken(s: string)
    requires s == "[[b?]a?]/[a?]"
    ensures TokensFrom(s, 0) == [Token(1, "b", true)] + TokensFrom(s, 5)
  {
    var tb := Token(1, "b", true);
    assert s[1..5] == tb.Text();
    MatchOfText(s, tb);
    var first := FirstTokenFrom(s, 0, 1);
  }

  /** After `[b?]` comes `[a?]` at 9 and nothing more. */
  lemma QuirkLastToken(s: string)
    requires s == "[[b?]a?]/[a?]"
    ensures TokensFrom(s, 5) == [Token(9, "a", true)]
  {
    var ta := Token(9, "a", true);
    assert s[9..13] == ta.Text();
    TokensFromStep(s, 5, ta);
    TokensFromDone(s, 13);
  }

  /** `[b?]` first occurs at 1. */
  lemma QuirkFirstStep(s: string)
    requires s == "[[b?]a?]/[a?]"
    ensures ReplaceFirst(s, "[b?]", "") == "[a?]/[a?]"
  {
    assert OccursAt(s, "[b?]", 1);
    assert !OccursAt(s, "[b?]", 0) by { assert s[1] != "[b?]"[1]; }
    assert s[..1] + "" + s[5..] == "[a?]/[a?]";
  }

  /** `[a?]` first occurs at 0. */
  lemma QuirkSecondStep(s: string)
    requires s == "[a?]/[a?]"
    ensures ReplaceFirst(s, "[a?]", "") == "/[a?]"
  {
    assert OccursAt(s, "[a?]", 0);
    assert s[..0] + "" + s[4..] == "/[a?]";
  }
}
