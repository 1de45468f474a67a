// What resolving promises, stated over the specification functions of
// module Routz (which the methods of `Definition` are proved to follow).
module RoutzProperties {
  import opened Strings
  import opened Placeholders
  import opened Routz

  /** The first placeholder, in template order, that has no replacement
      decides the error; those before it are all substituted. */
  lemma {:induction false} SubstituteStopsAtFirstMissing(path: string, ts: seq<Token>, params: Params, name: string, i: nat)
    requires i < |ts| && Replacement(ts[i], params).None?
    requires forall j :: 0 <= j < i ==> Replacement(ts[j], params).Some?
    ensures Substitute(path, ts, params, name) == Failure(MissingParam(ts[i].key, name))
    decreases i
  {
    if i > 0 {
      var v := Replacement(ts[0], params).value;
      SubstituteStopsAtFirstMissing(ReplaceFirst(path, ts[0].Text(), v), ts[1..], params, name, i - 1);
    }
  }

  /** Substitution succeeds exactly when every placeholder has a replacement. */
  lemma {:induction false} SubstituteSucceedsIff(path: string, ts: seq<Token>, params: Params, name: string)
    ensures Substitute(path, ts, params, name).Success? <==> forall k :: 0 <= k < |ts| ==> Replacement(ts[k], params).Some?
    decreases |ts|
  {
    if ts != [] {
      match Replacement(ts[0], params)
      case None =>
      case Some(v) =>
        SubstituteSucceedsIff(ReplaceFirst(path, ts[0].Text(), v), ts[1..], params, name);
        assert forall k :: 1 <= k < |ts| ==> ts[k] == ts[1..][k - 1];
    }
  }

  /** Substitution looks at a parameter only through its usable value, and
      only for the keys of the placeholders being substituted. */
  lemma {:induction false} SubstituteUsesOnlyTokenValues(path: string, ts: seq<Token>, p1: Params, p2: Params, name: string)
    requires forall k :: 0 <= k < |ts| ==> ParamValue(p1, ts[k].key) == ParamValue(p2, ts[k].key)
    ensures Substitute(path, ts, p1, name) == Substitute(path, ts, p2, name)
    decreases |ts|
  {
    if ts != [] {
      assert Replacement(ts[0], p1) == Replacement(ts[0], p2);
      match Replacement(ts[0], p1)
      case None =>
      case Some(v) =>
        SubstituteUsesOnlyTokenValues(ReplaceFirst(path, ts[0].Text(), v), ts[1..], p1, p2, name);
    }
  }

  /** A trailing slash survives substitution: a placeholder text ends in
      `]`, so its first occurrence never covers the last character. */
  lemma {:induction false} SubstituteKeepsTrailingSlash(path: string, ts: seq<Token>, params: Params, name: string)
    requires EndsWithSlash(path)
    ensures Substitute(path, ts, params, name).Success? ==> EndsWithSlash(Substitute(path, ts, params, name).value)
    decreases |ts|
  {
    if ts != [] {
      match Replacement(ts[0], params)
      case None =>
      case Some(v) =>
        var text := ts[0].Text();
        assert text[|text| - 1] == ']';
        ReplaceFirstKeepsTrailingSlash(path, text, v);
        SubstituteKeepsTrailingSlash(ReplaceFirst(path, text, v), ts[1..], params, name);
    }
  }

  /** `resolve` fails with `RouteNotFound(name)` exactly when the table has
      no usable template for `name`, and then whatever the parameters are. */
  lemma ResolveRouteNotFound(table: Table, name: string, params: Params)
    ensures ResolvePath(table, name, params) == Failure(RouteNotFound(name))
            <==> !(name in table && table[name] != "")
  {
    if name in table && table[name] != "" {
      var template := table[name];
      var s := Substitute(template, Tokens(template), params, name);
      if s.Failure? {
        var k :| 0 <= k < |Tokens(template)| && s.error == MissingParam(Tokens(template)[k].key, name);
      }
    }
  }

  /** A required placeholder with no usable value makes `resolve` fail with
      `MissingParam` naming it and the route, when it is the first
      placeholder of the template that has no replacement. */
  lemma ResolveMissingParam(table: Table, name: string, params: Params, i: nat)
    requires name in table && table[name] != ""
    requires i < |Tokens(table[name])|
    requires !Tokens(table[name])[i].optional && ParamValue(params, Tokens(table[name])[i].key).None?
    requires forall j :: 0 <= j < i ==> Replacement(Tokens(table[name])[j], params).Some?
    ensures ResolvePath(table, name, params) == Failure(MissingParam(Tokens(table[name])[i].key, name))
  {
    var template := table[name];
    SubstituteStopsAtFirstMissing(template, Tokens(template), params, name, i);
  }

  /** `resolve` succeeds exactly when the route is found and each of its
      placeholders is optional or has a usable value. */
  lemma ResolveSucceedsIff(table: Table, name: string, params: Params)
    ensures ResolvePath(table, name, params).Success? <==>
      && name in table && table[name] != ""
      && forall k :: 0 <= k < |Tokens(table[name])| ==>
           Tokens(table[name])[k].optional || ParamValue(params, Tokens(table[name])[k].key).Some?
  {
    if name in table && table[name] != "" {
      var template := table[name];
      SubstituteSucceedsIff(template, Tokens(template), params, name);
    }
  }

  /** A template whose placeholders are all optional resolves, whatever the
      parameters (an omitted parameter object among them). */
  lemma ResolveOptionalOnly(table: Table, name: string, params: Params)
    requires name in table && table[name] != ""
    requires forall k :: 0 <= k < |Tokens(table[name])| ==> Tokens(table[name])[k].optional
    ensures ResolvePath(table, name, params).Success?
  {
    ResolveSucceedsIff(table, name, params);
  }

  /** Two parameter maps that agree on the usable values of the template's
      placeholder keys resolve alike. */
  lemma ResolveUsesOnlyTemplateKeys(table: Table, name: string, p1: Params, p2: Params)
    requires name in table ==> forall k :: 0 <= k < |Tokens(table[name])| ==>
      ParamValue(p1, Tokens(table[name])[k].key) == ParamValue(p2, Tokens(table[name])[k].key)
    ensures ResolvePath(table, name, p1) == ResolvePath(table, name, p2)
  {
    if name in table && table[name] != "" {
      var template := table[name];
      SubstituteUsesOnlyTokenValues(template, Tokens(template), p1, p2, name);
    }
  }

  /** A parameter that no placeholder of the template names is ignored. */
  lemma ResolveIgnoresUnknownParam(table: Table, name: string, params: Params, key: string, value: string)
    requires name in table ==> forall k :: 0 <= k < |Tokens(table[name])| ==> Tokens(table[name])[k].key != key
    ensures ResolvePath(table, name, params[key := value]) == ResolvePath(table, name, params)
  {
    ResolveUsesOnlyTemplateKeys(table, name, params[key := value], params);
  }

  /** An empty parameter value counts as no value at all. */
  lemma ResolveEmptyValueIsMissing(table: Table, name: string, params: Params, key: string)
    ensures ResolvePath(table, name, params[key := ""]) == ResolvePath(table, name, params - {key})
  {
    ResolveUsesOnlyTemplateKeys(table, name, params[key := ""], params - {key});
  }

  /** A resolved path never holds two slashes in a row, and it ends with a
      slash exactly when its template does. */
  lemma ResolvedPathShape(table: Table, name: string, params: Params)
    requires ResolvePath(table, name, params).Success?
    ensures NoDoubleSlash(ResolvePath(table, name, params).value)
    ensures EndsWithSlash(ResolvePath(table, name, params).value) <==> EndsWithSlash(table[name])
  {
    var template := table[name];
    if EndsWithSlash(template) {
      SubstituteKeepsTrailingSlash(template, Tokens(template), params, name);
    }
  }

  /** The clean-up leaves alone a path without repeated slashes whose
      trailing slash, if any, the template shares. */
  lemma NormalizeCleanPath(path: string, template: string)
    requires NoDoubleSlash(path)
    requires EndsWithSlash(path) ==> EndsWithSlash(template)
    ensures Normalize(path, template) == path
  {
    CollapseSlashesOfCleanString(path);
  }

  /** A template without placeholders and without repeated slashes comes
      back unchanged, whatever the parameters. */
  lemma ResolveLiteralTemplate(table: Table, name: string, params: Params)
    requires name in table && table[name] != ""
    requires Tokens(table[name]) == [] && NoDoubleSlash(table[name])
    ensures ResolvePath(table, name, params) == Success(table[name])
  {
    CollapseSlashesOfCleanString(table[name]);
  }

  /** A template with a single placeholder between two literal parts that
      hold no `[`: its value (or the empty string, for an optional one
      without value) takes the placeholder's place before the clean-up; a
      required one without value is reported missing. */
  lemma ResolveOneToken(table: Table, name: string, params: Params, pre: string, t: Token, post: string)
    requires name in table && table[name] == pre + t.Text() + post
    requires t.start == |pre| && AllLetters(t.key)
    requires NoBracket(pre) && NoBracket(post)
    ensures Replacement(t, params).Some? ==>
      ResolvePath(table, name, params) == Success(Normalize(pre + Replacement(t, params).value + post, table[name]))
    ensures Replacement(t, params).None? ==> ResolvePath(table, name, params) == Failure(MissingParam(t.key, name))
  {
    var s := table[name];
    SingleTokenScan(s, pre, t, post);
    if Replacement(t, params).Some? {
      var v := Replacement(t, params).value;
      ReplaceFirstAt(s, t.Text(), v, t.start);
      assert Substitute(s, [t], params, name) == Success(pre + v + post);
    }
  }

  /** The scan of `pre + t.Text() + post`, with no `[` in `pre` or `post`,
      finds `t` alone; the text before it is `pre`, after it `post`. */
  lemma SingleTokenScan(s: string, pre: string, t: Token, post: string)
    requires s == pre + t.Text() + post
    requires t.start == |pre| && AllLetters(t.key)
    requires NoBracket(pre) && NoBracket(post)
    ensures Tokens(s) == [t]
    ensures OccursAt(s, t.Text(), t.start) && forall k :: 0 <= k < t.start ==> s[k] != t.Text()[0]
    ensures s[..t.start] == pre && s[t.End()..] == post
  {
    assert s[t.start..t.End()] == t.Text();
    assert forall k :: 0 <= k < |pre| ==> s[k] == pre[k];
    TokensFromStep(s, 0, t);
    assert forall k :: t.End() <= k < |s| ==> s[k] == post[k - t.End()];
    TokensFromDone(s, t.End());
    assert [t] + [] == [t];
  }


  /** The string `lits[0] + holes[0] + lits[1] + ... + lits[n]`. */
  function Render(lits: seq<string>, holes: seq<string>): string
    requires |lits| == |holes| + 1
    decreases |holes|
  {
    if holes == [] then lits[0] else lits[0] + holes[0] + Render(lits[1..], holes[1..])
  }

  /** The placeholder texts of `ts`, in order. */
  function Texts(ts: seq<Token>): (r: seq<string>)
    ensures |r| == |ts|
  {
    if ts == [] then [] else [ts[0].Text()] + Texts(ts[1..])
  }

  /** What placeholder `t` is replaced by; the empty string stands in
      where it has no replacement. */
  function Fill(t: Token, params: Params): string {
    match Replacement(t, params)
    case Some(v) => v
    case None => ""
  }

  /** The replacements of `ts`, in order. */
  function Fills(ts: seq<Token>, params: Params): (r: seq<string>)
    ensures |r| == |ts|
  {
    if ts == [] then [] else [Fill(ts[0], params)] + Fills(ts[1..], params)
  }

  /** Equal texts mean equal replacements, place by place. */
  lemma {:induction false} SameTextsSameFills(ts: seq<Token>, us: seq<Token>, params: Params)
    requires Texts(ts) == Texts(us)
    requires forall k :: 0 <= k < |ts| ==> AllLetters(ts[k].key)
    requires forall k :: 0 <= k < |us| ==> AllLetters(us[k].key)
    ensures forall k :: 0 <= k < |us| ==> Replacement(us[k], params) == Replacement(ts[k], params)
    ensures Fills(us, params) == Fills(ts, params)
    decreases |ts|
  {
    if ts != [] {
      assert Texts(ts)[0] == ts[0].Text() && Texts(us)[0] == us[0].Text();
      assert Texts(ts)[1..] == Texts(ts[1..]) && Texts(us)[1..] == Texts(us[1..]);
      TextInjective(ts[0], us[0]);
      SameTextsSameFills(ts[1..], us[1..], params);
      assert forall k :: 1 <= k < |us| ==> us[k] == us[1..][k - 1] && ts[k] == ts[1..][k - 1];
    }
  }

  /** The parts of a string known as a concatenation from index `from` on. */
  lemma SplitThree(s: string, from: nat, a: string, b: string, c: string)
    requires from <= |s| && s[from..] == a + b + c
    ensures from + |a| + |b| <= |s|
    ensures s[from + |a|..from + |a| + |b|] == b && s[from + |a| + |b|..] == c
    ensures forall k :: from <= k < from + |a| ==> s[k] == a[k - from]
  {
    assert forall k :: from <= k < |s| ==> s[k] == (a + b + c)[k - from];
  }

  /** The scan of a template written as literal parts without `[` around
      placeholders finds exactly those placeholders, in order. */
  lemma {:induction false} TokensOfRender(s: string, from: nat, lits: seq<string>, ts: seq<Token>)
    requires from <= |s| && |lits| == |ts| + 1
    requires s[from..] == Render(lits, Texts(ts))
    requires forall k :: 0 <= k < |lits| ==> NoBracket(lits[k])
    requires forall k :: 0 <= k < |ts| ==> AllLetters(ts[k].key)
    ensures Texts(TokensFrom(s, from)) == Texts(ts)
    decreases |ts|
  {
    if ts == [] {
      assert s[from..] == lits[0];
      assert NoBracket(lits[0]);
      assert forall k :: from <= k < |s| ==> s[k] == s[from..][k - from];
      TokensFromDone(s, from);
    } else {
      var t := Token(from + |lits[0]|, ts[0].key, ts[0].optional);
      var rest := Render(lits[1..], Texts(ts[1..]));
      assert s[from..] == lits[0] + t.Text() + rest;
      SplitThree(s, from, lits[0], t.Text(), rest);
      assert NoBracket(lits[0]);
      TokensFromStep(s, from, t);
      TokensOfRender(s, t.End(), lits[1..], ts[1..]);
      var us := TokensFrom(s, t.End());
      assert ([t] + us)[1..] == us;
    }
  }

  /** Gluing strings without `[` gives a string without `[`. */
  lemma NoBracketConcat(a: string, b: string)
    requires NoBracket(a) && NoBracket(b)
    ensures NoBracket(a + b)
  {
    assert forall k :: 0 <= k < |a + b| ==> (a + b)[k] == if k < |a| then a[k] else b[k - |a|];
  }

  /** One substitution step: the first `[` of `done + text + rest`, with
      `done` free of `[`, is where `text` is replaced. */
  lemma ReplaceAfterPlain(done: string, text: string, v: string, rest: string)
    requires NoBracket(done) && |text| > 0 && text[0] == '['
    ensures ReplaceFirst(done + text + rest, text, v) == done + v + rest
  {
    var path := done + text + rest;
    var i := |done|;
    assert path[i..i + |text|] == text;
    assert forall k :: 0 <= k < i ==> path[k] == done[k];
    ReplaceFirstAt(path, text, v, i);
    assert path[..i] == done && path[i + |text|..] == rest;
  }

  /** The first substitution into `done + Render(lits, Texts(ts))`. */
  lemma SubstituteRenderStep(done: string, lits: seq<string>, ts: seq<Token>, params: Params, name: string, v: string)
    requires |lits| == |ts| + 1 && |ts| > 0 && NoBracket(done) && NoBracket(lits[0])
    requires Replacement(ts[0], params) == Some(v)
    ensures Substitute(done + Render(lits, Texts(ts)), ts, params, name)
         == Substitute(done + lits[0] + v + Render(lits[1..], Texts(ts[1..])), ts[1..], params, name)
  {
    var text := ts[0].Text();
    var rest := Render(lits[1..], Texts(ts[1..]));
    assert Texts(ts)[0] == text && Texts(ts)[1..] == Texts(ts[1..]);
    assert done + Render(lits, Texts(ts)) == (done + lits[0]) + text + rest;
    NoBracketConcat(done, lits[0]);
    ReplaceAfterPlain(done + lits[0], text, v, rest);
  }

  /** The first replacement stands first in the rendered result. */
  lemma RenderFillsStep(done: string, lits: seq<string>, ts: seq<Token>, params: Params, v: string)
    requires |lits| == |ts| + 1 && |ts| > 0
    requires Replacement(ts[0], params) == Some(v)
    ensures done + lits[0] + v + Render(lits[1..], Fills(ts[1..], params)) == done + Render(lits, Fills(ts, params))
  {
    var f := Fills(ts, params);
    var tail := Render(lits[1..], Fills(ts[1..], params));
    assert f == [v] + Fills(ts[1..], params);
    assert f[0] == v && f[1..] == Fills(ts[1..], params);
    assert Render(lits, f) == lits[0] + v + tail;
    assert done + lits[0] + v + tail == done + (lits[0] + v + tail);
  }

  /** Substituting into such a template values without `[` puts each value
      in the place of its own placeholder. */
  lemma {:induction false} SubstituteRender(done: string, lits: seq<string>, ts: seq<Token>, params: Params, name: string)
    requires |lits| == |ts| + 1 && NoBracket(done)
    requires forall k :: 0 <= k < |lits| ==> NoBracket(lits[k])
    requires forall k :: 0 <= k < |ts| ==> Replacement(ts[k], params).Some? && NoBracket(Replacement(ts[k], params).value)
    ensures Substitute(done + Render(lits, Texts(ts)), ts, params, name) == Success(done + Render(lits, Fills(ts, params)))
    decreases |ts|
  {
    if ts != [] {
      var v := Replacement(ts[0], params).value;
      assert NoBracket(lits[0]) && NoBracket(v);
      SubstituteRenderStep(done, lits, ts, params, name, v);
      NoBracketConcat(done, lits[0]);
      NoBracketConcat(done + lits[0], v);
      SubstituteRender(done + lits[0] + v, lits[1..], ts[1..], params, name);
      RenderFillsStep(done, lits, ts, params, v);
    }
  }

  /** The placeholders the scan finds in such a template have the same
      replacements, place by place, as those it was written with. */
  lemma TokensOfRenderFills(template: string, lits: seq<string>, ts: seq<Token>, params: Params)
    requires |lits| == |ts| + 1 && template == Render(lits, Texts(ts))
    requires forall k :: 0 <= k < |lits| ==> NoBracket(lits[k])
    requires forall k :: 0 <= k < |ts| ==> AllLetters(ts[k].key)
    ensures Texts(Tokens(template)) == Texts(ts) && Fills(Tokens(template), params) == Fills(ts, params)
    ensures forall k :: 0 <= k < |ts| ==> Replacement(Tokens(template)[k], params) == Replacement(ts[k], params)
  {
    var us := Tokens(template);
    assert template[0..] == template;
    TokensOfRender(template, 0, lits, ts);
    forall k | 0 <= k < |us| ensures AllLetters(us[k].key) {
    }
    SameTextsSameFills(ts, us, params);
  }

  /** What `resolve` returns once substitution has succeeded. */
  lemma ResolveAfterSubstitute(table: Table, name: string, params: Params, path: string)
    requires name in table && table[name] != ""
    requires Substitute(table[name], Tokens(table[name]), params, name) == Success(path)
    ensures ResolvePath(table, name, params) == Success(Normalize(path, table[name]))
  {
  }

  /** The placeholders the scan finds in a template written as literal
      parts without `[` around placeholders, each of which has a
      replacement without `[`, meet what `SubstituteRender` asks of them. */
  lemma ScannedReplacements(template: string, params: Params, lits: seq<string>, ts: seq<Token>)
    requires |lits| == |ts| + 1 && template == Render(lits, Texts(ts))
    requires forall k :: 0 <= k < |lits| ==> NoBracket(lits[k])
    requires forall k :: 0 <= k < |ts| ==> AllLetters(ts[k].key)
    requires forall k :: 0 <= k < |ts| ==> Replacement(ts[k], params).Some? && NoBracket(Replacement(ts[k], params).value)
    ensures |Tokens(template)| == |ts| && Render(lits, Texts(Tokens(template))) == template
    ensures forall k :: 0 <= k < |Tokens(template)| ==>
      Replacement(Tokens(template)[k], params).Some? && NoBracket(Replacement(Tokens(template)[k], params).value)
    ensures Fills(Tokens(template), params) == Fills(ts, params)
  {
    var us := Tokens(template);
    TokensOfRenderFills(template, lits, ts, params);
    assert |us| == |Texts(us)| == |ts|;
    forall k | 0 <= k < |us|
      ensures Replacement(us[k], params).Some? && NoBracket(Replacement(us[k], params).value)
    {
      assert Replacement(us[k], params) == Replacement(ts[k], params);
    }
  }

  /** Substitution into a template written as literal parts without `[`
      around placeholders, each of which has a replacement without `[`,
      puts each replacement in the place of its placeholder. */
  lemma SubstituteRendered(template: string, name: string, params: Params, lits: seq<string>, ts: seq<Token>)
    requires |lits| == |ts| + 1 && template == Render(lits, Texts(ts))
    requires forall k :: 0 <= k < |lits| ==> NoBracket(lits[k])
    requires forall k :: 0 <= k < |ts| ==> AllLetters(ts[k].key)
    requires forall k :: 0 <= k < |ts| ==> Replacement(ts[k], params).Some? && NoBracket(Replacement(ts[k], params).value)
    ensures Substitute(template, Tokens(template), params, name) == Success(Render(lits, Fills(ts, params)))
  {
    ScannedReplacements(template, params, lits, ts);
    SubstituteRenderFromStart(lits, Tokens(template), params, name);
  }

  /** `SubstituteRender` with nothing substituted yet. */
  lemma SubstituteRenderFromStart(lits: seq<string>, ts: seq<Token>, params: Params, name: string)
    requires |lits| == |ts| + 1
    requires forall k :: 0 <= k < |lits| ==> NoBracket(lits[k])
    requires forall k :: 0 <= k < |ts| ==> Replacement(ts[k], params).Some? && NoBracket(Replacement(ts[k], params).value)
    ensures Substitute(Render(lits, Texts(ts)), ts, params, name) == Success(Render(lits, Fills(ts, params)))
  {
    var template, path := Render(lits, Texts(ts)), Render(lits, Fills(ts, params));
    SubstituteRender("", lits, ts, params, name);
    assert "" + template == template && "" + path == path;
  }

  /** A template written as literal parts without `[` around placeholders,
      each of which has a replacement without `[`, resolves to the
      clean-up of the literal parts with the replacements in between. */
  lemma ResolveRendered(table: Table, name: string, params: Params, lits: seq<string>, ts: seq<Token>)
    requires |lits| == |ts| + 1
    requires name in table && table[name] == Render(lits, Texts(ts)) && table[name] != ""
    requires forall k :: 0 <= k < |lits| ==> NoBracket(lits[k])
    requires forall k :: 0 <= k < |ts| ==> AllLetters(ts[k].key)
    requires forall k :: 0 <= k < |ts| ==> Replacement(ts[k], params).Some? && NoBracket(Replacement(ts[k], params).value)
    ensures ResolvePath(table, name, params) == Success(Normalize(Render(lits, Fills(ts, params)), table[name]))
  {
    SubstituteRendered(table[name], name, params, lits, ts);
    ResolveAfterSubstitute(table, name, params, Render(lits, Fills(ts, params)));
  }

  /** The clean-up of a path written segment by segment, its segments
      without slashes: the empty segments go, and a slash stays at the end
      only where the last segment is empty and the template ends in one. */
  lemma NormalizeSegments(ws: seq<string>, template: string)
    requires forall k :: 0 <= k < |ws| ==> NoSlash(ws[k])
    ensures Normalize(Segments(ws), template)
         == NonEmptySegments(ws) + (if EndsWithSlash(template) then TrailingSlash(ws) else "")
  {
    var x := NonEmptySegments(ws);
    CollapseSegments(ws);
    NonEmptySegmentsNoTrailingSlash(ws);
    if TrailingSlash(ws) == "/" && !EndsWithSlash(template) {
      NormalizeDropsSlash(Segments(ws), template, x);
    } else if TrailingSlash(ws) == "/" {
      NormalizeKeepsCollapsed(Segments(ws), template);
    } else {
      assert x + "" == x;
      NormalizeKeepsCollapsed(Segments(ws), template);
    }
  }

  /** The clean-up drops the one slash the collapsed path ends with when
      the template has none at its end. */
  lemma NormalizeDropsSlash(path: string, template: string, x: string)
    requires CollapseSlashes(path) == x + "/" && !EndsWithSlash(template)
    ensures Normalize(path, template) == x
  {
    assert (x + "/")[..|x|] == x;
  }

  /** The clean-up is the collapse alone when that does not end with a
      slash, or when the template does. */
  lemma NormalizeKeepsCollapsed(path: string, template: string)
    requires !EndsWithSlash(CollapseSlashes(path)) || EndsWithSlash(template)
    ensures Normalize(path, template) == CollapseSlashes(path)
  {
  }


  /** `Render` written out for two holes. */
  lemma RenderTwo(a: string, b: string, c: string, x: string, y: string)
    ensures Render([a, b, c], [x, y]) == a + x + b + y + c
  {
    assert [a, b, c][1..] == [b, c] && [x, y][1..] == [y];
    assert [b, c][1..] == [c] && [y][1..] == [];
    assert Render([b, c], [y]) == b + y + c;
  }
  /** `Render` written out for three holes. */
  lemma RenderThree(a: string, b: string, c: string, d: string, x: string, y: string, z: string)
    ensures Render([a, b, c, d], [x, y, z]) == a + x + b + y + c + z + d
  {
    assert [a, b, c, d][1..] == [b, c, d] && [x, y, z][1..] == [y, z];
    RenderTwo(b, c, d, y, z);
  }
  /** `ResolveRendered` for a template with one placeholder. */
  lemma ResolveOnePlaceholder(table: Table, name: string, params: Params, a: string, t: Token, b: string, v: string)
    requires name in table && table[name] == a + t.Text() + b
    requires NoBracket(a) && NoBracket(b) && AllLetters(t.key)
    requires Replacement(t, params) == Some(v) && NoBracket(v)
    ensures ResolvePath(table, name, params) == Success(Normalize(a + v + b, table[name]))
  {
    var lits, ts := [a, b], [t];
    assert Texts(ts) == [t.Text()] && Fills(ts, params) == [v];
    assert Render(lits, Texts(ts)) == a + t.Text() + b;
    assert Render(lits, Fills(ts, params)) == a + v + b;
    ResolveRendered(table, name, params, lits, ts);
  }
  /** `ResolveRendered` for a template with two placeholders. */
  lemma ResolveTwoPlaceholders(table: Table, name: string, params: Params,
                               a: string, t: Token, b: string, u: Token, c: string, v: string, w: string)
    requires name in table && table[name] == a + t.Text() + b + u.Text() + c
    requires NoBracket(a) && NoBracket(b) && NoBracket(c) && AllLetters(t.key) && AllLetters(u.key)
    requires Replacement(t, params) == Some(v) && NoBracket(v)
    requires Replacement(u, params) == Some(w) && NoBracket(w)
    ensures ResolvePath(table, name, params) == Success(Normalize(a + v + b + w + c, table[name]))
  {
    var lits, ts := [a, b, c], [t, u];
    assert ts[1..] == [u] && [u][1..] == [];
    assert Texts([u]) == [u.Text()] && Fills([u], params) == [w];
    assert Texts(ts) == [t.Text(), u.Text()] && Fills(ts, params) == [v, w];
    RenderTwo(a, b, c, t.Text(), u.Text());
    RenderTwo(a, b, c, v, w);
    ResolveRendered(table, name, params, lits, ts);
  }
  /** `ResolveRendered` for a template with three placeholders. */
  lemma ResolveThreePlaceholders(table: Table, name: string, params: Params,
                                 a: string, t: Token, b: string, u: Token, c: string, x: Token, d: string,
                                 v: string, w: string, y: string)
    requires name in table && table[name] == a + t.Text() + b + u.Text() + c + x.Text() + d
    requires NoBracket(a) && NoBracket(b) && NoBracket(c) && NoBracket(d)
    requires AllLetters(t.key) && AllLetters(u.key) && AllLetters(x.key)
    requires Replacement(t, params) == Some(v) && NoBracket(v)
    requires Replacement(u, params) == Some(w) && NoBracket(w)
    requires Replacement(x, params) == Some(y) && NoBracket(y)
    ensures ResolvePath(table, name, params) == Success(Normalize(a + v + b + w + c + y + d, table[name]))
  {
    var lits, ts := [a, b, c, d], [t, u, x];
    assert ts[1..] == [u, x] && [u, x][1..] == [x] && [x][1..] == [];
    assert Texts([x]) == [x.Text()] && Fills([x], params) == [y];
    assert Texts([u, x]) == [u.Text(), x.Text()] && Fills([u, x], params) == [w, y];
    assert Texts(ts) == [t.Text(), u.Text(), x.Text()] && Fills(ts, params) == [v, w, y];
    RenderThree(a, b, c, d, t.Text(), u.Text(), x.Text());
    RenderThree(a, b, c, d, v, w, y);
    ResolveRendered(table, name, params, lits, ts);
  }
}
