// The optional-parameter and sanitising cases of the project's test suite,
// stated for every template of the same shape and every parameter map
// whose values are plain path segments: each template is resolved through
// the placeholder-by-placeholder lemmas, and the substituted path is
// cleaned up segment by segment.
module RoutzOptionalScenarios {
  import opened Strings
  import opened Placeholders
  import opened Routz
  import opened RoutzProperties

  /** Every parameter value can stand as a whole path segment: it holds
      no slash and no `[`. */
  predicate SegmentValues(params: Params) {
    forall key :: key in params ==> NoSlash(params[key]) && NoBracket(params[key])
  }

  /** An optional placeholder is replaced by its `Fill`: the empty string
      exactly when its value is absent or empty, otherwise the value, a
      plain segment when the parameter values are. */
  lemma OptionalReplacement(t: Token, params: Params)
    requires t.optional && SegmentValues(params)
    ensures Replacement(t, params) == Some(Fill(t, params))
    ensures Fill(t, params) == "" <==> ParamValue(params, t.key).None?
    ensures Fill(t, params) != "" ==> t.key in params && Fill(t, params) == params[t.key]
    ensures NoSlash(Fill(t, params)) && NoBracket(Fill(t, params))
  {
  }

  /** A required placeholder with a usable value is replaced by it. */
  lemma RequiredReplacement(t: Token, params: Params)
    requires !t.optional && SegmentValues(params) && ParamValue(params, t.key).Some?
    ensures Replacement(t, params) == Some(params[t.key])
    ensures NoSlash(params[t.key]) && NoBracket(params[t.key])
  {
  }

  /** Segments and their clean form, one segment in front of the rest. */
  lemma SegmentsCons(a: string, ws: seq<string>)
    ensures Segments([a] + ws) == "/" + a + Segments(ws)
    ensures NonEmptySegments([a] + ws) == Segment(a) + NonEmptySegments(ws)
  {
    assert ([a] + ws)[1..] == ws;
  }

  /** Segments and their clean form written out for one segment. */
  lemma SegmentsOne(a: string)
    ensures Segments([a]) == "/" + a
    ensures NonEmptySegments([a]) == Segment(a)
  {
    SegmentsCons(a, []);
    assert [a] + [] == [a];
    assert "/" + a + [] == "/" + a;
    assert Segment(a) + [] == Segment(a);
  }

  /** Segments and their clean form written out for two segments. */
  lemma SegmentsTwo(a: string, b: string)
    ensures Segments([a, b]) == "/" + a + "/" + b
    ensures NonEmptySegments([a, b]) == Segment(a) + Segment(b)
  {
    SegmentsOne(b);
    SegmentsCons(a, [b]);
    assert [a] + [b] == [a, b];
    Assoc("/" + a, "/", b);
  }

  /** Segments and their clean form written out for three segments. */
  lemma SegmentsThree(a: string, b: string, c: string)
    ensures Segments([a, b, c]) == "/" + a + "/" + b + "/" + c
    ensures NonEmptySegments([a, b, c]) == Segment(a) + Segment(b) + Segment(c)
  {
    SegmentsTwo(b, c);
    SegmentsCons(a, [b, c]);
    assert [a] + [b, c] == [a, b, c];
    Assoc("/" + a, "/" + b + "/", c);
    Assoc("/" + a, "/" + b, "/");
    Assoc("/" + a, "/", b);
    Assoc(Segment(a), Segment(b), Segment(c));
  }

  /** Segments and their clean form written out for four segments. */
  lemma SegmentsFour(a: string, b: string, c: string, d: string)
    ensures Segments([a, b, c, d]) == "/" + a + "/" + b + "/" + c + "/" + d
    ensures NonEmptySegments([a, b, c, d]) == Segment(a) + Segment(b) + Segment(c) + Segment(d)
  {
    SegmentsThree(b, c, d);
    SegmentsCons(a, [b, c, d]);
    assert [a] + [b, c, d] == [a, b, c, d];
    var p := "/" + a;
    Assoc(p, "/" + b + "/" + c + "/", d);
    Assoc(p, "/" + b + "/" + c, "/");
    Assoc(p, "/" + b + "/", c);
    Assoc(p, "/" + b, "/");
    Assoc(p, "/", b);
    Assoc(Segment(a), Segment(b) + Segment(c), Segment(d));
    Assoc(Segment(a), Segment(b), Segment(c));
  }

  /** Segments and their clean form written out for five segments. */
  lemma SegmentsFive(a: string, b: string, c: string, d: string, e: string)
    ensures Segments([a, b, c, d, e]) == "/" + a + "/" + b + "/" + c + "/" + d + "/" + e
    ensures NonEmptySegments([a, b, c, d, e]) == Segment(a) + Segment(b) + Segment(c) + Segment(d) + Segment(e)
  {
    SegmentsFour(b, c, d, e);
    SegmentsCons(a, [b, c, d, e]);
    assert [a] + [b, c, d, e] == [a, b, c, d, e];
    var p := "/" + a;
    Assoc(p, "/" + b + "/" + c + "/" + d + "/", e);
    Assoc(p, "/" + b + "/" + c + "/" + d, "/");
    Assoc(p, "/" + b + "/" + c + "/", d);
    Assoc(p, "/" + b + "/" + c, "/");
    Assoc(p, "/" + b + "/", c);
    Assoc(p, "/" + b, "/");
    Assoc(p, "/", b);
    Assoc(Segment(a), Segment(b) + Segment(c) + Segment(d), Segment(e));
    Assoc(Segment(a), Segment(b) + Segment(c), Segment(d));
    Assoc(Segment(a), Segment(b), Segment(c));
  }

  /** A non-empty word without a slash, or a placeholder, does not end with one. */
  lemma NoEndingSlash(w: string, t: Token)
    ensures w != "" && NoSlash(w) ==> !EndsWithSlash(w)
    ensures !EndsWithSlash(t.Text())
  {
  }

  /** The clean-up of `/l/w`. */
  lemma CleanOptionalThenWord(l: string, w: string, template: string)
    requires NoSlash(l) && w != "" && NoSlash(w) && !EndsWithSlash(template)
    ensures Normalize("/" + l + "/" + w, template) == Segment(l) + "/" + w
  {
    SegmentsTwo(l, w);
    NormalizeSegments([l, w], template);
    Assoc(Segment(l), "/", w);
    assert Segment(l) + "/" + w + "" == Segment(l) + "/" + w;
  }

  /** A template of an optional placeholder segment followed by a word,
      like `/[locale?]/pages`, gives the word, with the value in front
      when there is one. */
  lemma ResolvesOptionalThenWord(table: Table, name: string, params: Params, t: Token, w: string)
    requires name in table && table[name] == "/" + t.Text() + "/" + w
    requires t.optional && AllLetters(t.key)
    requires w != "" && NoSlash(w) && NoBracket(w)
    requires SegmentValues(params)
    ensures ResolvePath(table, name, params) == Success(Segment(Fill(t, params)) + "/" + w)
  {
    var l := Fill(t, params);
    OptionalReplacement(t, params);
    assert table[name] == "/" + t.Text() + ("/" + w);
    ResolveOnePlaceholder(table, name, params, "/", t, "/" + w, l);
    assert "/" + l + ("/" + w) == "/" + l + "/" + w;
    EndsWithSlashAppend("/" + t.Text() + "/", w);
    NoEndingSlash(w, t);
    CleanOptionalThenWord(l, w, table[name]);
  }

  /** The clean-up of `/l/v/w/f`. */
  lemma CleanOptionalWordsOptional(l: string, v: string, w: string, f: string, template: string)
    requires NoSlash(l) && v != "" && NoSlash(v) && w != "" && NoSlash(w) && NoSlash(f) && !EndsWithSlash(template)
    ensures Normalize("/" + l + "/" + v + "/" + w + "/" + f, template) == Segment(l) + "/" + v + "/" + w + Segment(f)
  {
    SegmentsFour(l, v, w, f);
    NormalizeFourSegments(l, v, w, f, template);
    var q := Segment(l);
    Assoc(q, "/", v);
    Assoc(q + "/" + v, "/", w);
  }

  /** `NormalizeSegments` for four segments and a template without a final slash. */
  lemma NormalizeFourSegments(a: string, b: string, c: string, d: string, template: string)
    requires NoSlash(a) && NoSlash(b) && NoSlash(c) && NoSlash(d) && !EndsWithSlash(template)
    ensures Normalize(Segments([a, b, c, d]), template) == NonEmptySegments([a, b, c, d])
  {
    var ws := [a, b, c, d];
    assert forall k :: 0 <= k < |ws| ==> NoSlash(ws[k]);
    NormalizeSegments(ws, template);
    assert NonEmptySegments(ws) + "" == NonEmptySegments(ws);
  }

  /** `NormalizeSegments` for three segments and a template without a final slash. */
  lemma NormalizeThreeSegments(a: string, b: string, c: string, template: string)
    requires NoSlash(a) && NoSlash(b) && NoSlash(c) && !EndsWithSlash(template)
    ensures Normalize(Segments([a, b, c]), template) == NonEmptySegments([a, b, c])
  {
    var ws := [a, b, c];
    assert forall k :: 0 <= k < |ws| ==> NoSlash(ws[k]);
    NormalizeSegments(ws, template);
    assert NonEmptySegments(ws) + "" == NonEmptySegments(ws);
  }

  /** A template of an optional placeholder segment, two words and another
      optional placeholder segment, like `/[locale?]/pages/filter/[filter?]`,
      gives the two words, with the first value in front and the second at
      the end when they have ones. */
  lemma ResolvesOptionalWordsOptional(table: Table, name: string, params: Params,
                                      t: Token, v: string, w: string, u: Token)
    requires name in table && table[name] == "/" + t.Text() + "/" + v + "/" + w + "/" + u.Text()
    requires t.optional && AllLetters(t.key) && u.optional && AllLetters(u.key)
    requires v != "" && NoSlash(v) && NoBracket(v) && w != "" && NoSlash(w) && NoBracket(w)
    requires SegmentValues(params)
    ensures ResolvePath(table, name, params)
         == Success(Segment(Fill(t, params)) + "/" + v + "/" + w + Segment(Fill(u, params)))
  {
    var l, f := Fill(t, params), Fill(u, params);
    var b := "/" + v + "/" + w + "/";
    assert NoBracket(b);
    var p := "/" + t.Text();
    Assoc(p, "/" + v + "/" + w, "/");
    Assoc(p, "/" + v + "/", w);
    Assoc(p, "/" + v, "/");
    Assoc(p, "/", v);
    assert table[name] == "/" + t.Text() + b + u.Text() + "";
    OptionalReplacement(t, params);
    OptionalReplacement(u, params);
    ResolveTwoPlaceholders(table, name, params, "/", t, b, u, "", l, f);
    FlattenFourSegments("/" + l, v, w, f);
    EndsWithSlashAppend("/" + t.Text() + "/" + v + "/" + w + "/", u.Text());
    NoEndingSlash(w, u);
    CleanOptionalWordsOptional(l, v, w, f, table[name]);
  }

  /** `p + "/v/w/" + f` regrouped. */
  lemma FlattenFourSegments(p: string, v: string, w: string, f: string)
    ensures p + ("/" + v + "/" + w + "/") + f + "" == p + "/" + v + "/" + w + "/" + f
  {
    Assoc(p, "/" + v + "/" + w, "/");
    Assoc(p, "/" + v + "/", w);
    Assoc(p, "/" + v, "/");
    Assoc(p, "/", v);
  }

  /** The clean-up of `/w/s/c`. */
  lemma CleanWordRequiredOptional(w: string, s: string, c: string, template: string)
    requires w != "" && NoSlash(w) && s != "" && NoSlash(s) && NoSlash(c) && !EndsWithSlash(template)
    ensures Normalize("/" + w + "/" + s + "/" + c, template) == "/" + w + "/" + s + Segment(c)
  {
    SegmentsThree(w, s, c);
    NormalizeThreeSegments(w, s, c, template);
    Assoc("/" + w, "/", s);
  }

  /** A template of a word, a required placeholder segment and an optional
      one, like `/pages/[slug]/[comment?]`, with a value for the required
      one gives the word and that value, with the optional value at the
      end when there is one. */
  lemma ResolvesWordRequiredOptional(table: Table, name: string, params: Params,
                                     w: string, t: Token, u: Token)
    requires name in table && table[name] == "/" + w + "/" + t.Text() + "/" + u.Text()
    requires !t.optional && AllLetters(t.key) && u.optional && AllLetters(u.key)
    requires w != "" && NoSlash(w) && NoBracket(w)
    requires SegmentValues(params) && ParamValue(params, t.key).Some?
    ensures ResolvePath(table, name, params)
         == Success("/" + w + "/" + params[t.key] + Segment(Fill(u, params)))
  {
    var s, c := params[t.key], Fill(u, params);
    var a := "/" + w + "/";
    assert NoBracket(a);
    assert table[name] == a + t.Text() + "/" + u.Text() + "";
    RequiredReplacement(t, params);
    OptionalReplacement(u, params);
    ResolveTwoPlaceholders(table, name, params, a, t, "/", u, "", s, c);
    assert a + s + "/" + c + "" == "/" + w + "/" + s + "/" + c;
    EndsWithSlashAppend("/" + w + "/" + t.Text() + "/", u.Text());
    NoEndingSlash(w, u);
    CleanWordRequiredOptional(w, s, c, table[name]);
  }

  /** The clean-up of `/w/l/s/c` followed by nothing or a slash. */
  lemma CleanWordOptionals(w: string, l: string, s: string, c: string, tail: string, template: string)
    requires w != "" && NoSlash(w) && NoSlash(l) && NoSlash(s) && NoSlash(c)
    requires tail == "" || tail == "/"
    requires EndsWithSlash(template) <==> tail == "/"
    ensures Normalize("/" + w + "/" + l + "/" + s + "/" + c + tail, template)
         == "/" + w + Segment(l) + Segment(s) + Segment(c) + tail
  {
    var r := "/" + w + Segment(l) + Segment(s) + Segment(c);
    if tail == "" {
      SegmentsFour(w, l, s, c);
      var path := "/" + w + "/" + l + "/" + s + "/" + c;
      assert path + tail == path;
      NormalizeSegments([w, l, s, c], template);
      assert r + "" == r;
    } else {
      SegmentsFive(w, l, s, c, "");
      var path := "/" + w + "/" + l + "/" + s + "/" + c + "/";
      assert path + "" == path;
      NormalizeSegments([w, l, s, c, ""], template);
      assert r + "" == r;
    }
  }

  /** A template of a word and three optional placeholder segments, with or
      without a final slash, like `/pages/[locale?]/[slug?]/[comment?]`,
      gives the word followed by the segments that have a value, in
      template order, and ends with a slash exactly when the template does. */
  lemma ResolvesWordOptionals(table: Table, name: string, params: Params,
                              w: string, t: Token, u: Token, x: Token, tail: string)
    requires name in table && table[name] == "/" + w + "/" + t.Text() + "/" + u.Text() + "/" + x.Text() + tail
    requires tail == "" || tail == "/"
    requires t.optional && AllLetters(t.key) && u.optional && AllLetters(u.key) && x.optional && AllLetters(x.key)
    requires w != "" && NoSlash(w) && NoBracket(w)
    requires SegmentValues(params)
    ensures ResolvePath(table, name, params)
         == Success("/" + w + Segment(Fill(t, params)) + Segment(Fill(u, params))
                    + Segment(Fill(x, params)) + tail)
  {
    var l, s, c := Fill(t, params), Fill(u, params), Fill(x, params);
    var a := "/" + w + "/";
    assert NoBracket(a) && NoBracket(tail);
    OptionalReplacement(t, params);
    OptionalReplacement(u, params);
    OptionalReplacement(x, params);
    ResolveThreePlaceholders(table, name, params, a, t, "/", u, "/", x, tail, l, s, c);
    var prefix := "/" + w + "/" + t.Text() + "/" + u.Text() + "/";
    if tail == "" {
      assert table[name] == prefix + x.Text();
      EndsWithSlashAppend(prefix, x.Text());
      NoEndingSlash(w, x);
    } else {
      EndsWithSlashAppend(prefix + x.Text(), tail);
    }
    CleanWordOptionals(w, l, s, c, tail, table[name]);
  }

  /** The placeholder pattern allows an empty key: `[]` at the end of a
      template is a required placeholder for the key `""`, so without a
      usable value under that key resolving fails. */
  lemma ResolvesEmptyRequiredKey(table: Table, name: string, params: Params, w: string)
    requires name in table && table[name] == "/" + w + "/[]"
    requires NoBracket(w) && ParamValue(params, "").None?
    ensures ResolvePath(table, name, params) == Failure(MissingParam("", name))
  {
    var pre := "/" + w + "/";
    var t := Token(|pre|, "", false);
    assert t.Text() == "[]";
    assert table[name] == pre + t.Text() + "";
    ResolveOneToken(table, name, params, pre, t, "");
  }

  /** The clean-up of `/w/`. */
  lemma CleanWordEmpty(w: string, template: string)
    requires w != "" && NoSlash(w) && !EndsWithSlash(template)
    ensures Normalize("/" + w + "/", template) == "/" + w
  {
    SegmentsTwo(w, "");
    assert "/" + w + "/" + "" == "/" + w + "/";
    NormalizeSegments([w, ""], template);
    assert NonEmptySegments([w, ""]) + "" == "/" + w;
  }

  /** ... and `[?]` is an optional one, which disappears together with the
      slash in front of it. */
  lemma ResolvesEmptyOptionalKey(table: Table, name: string, params: Params, w: string)
    requires name in table && table[name] == "/" + w + "/[?]"
    requires w != "" && NoSlash(w) && NoBracket(w) && ParamValue(params, "").None?
    ensures ResolvePath(table, name, params) == Success("/" + w)
  {
    var pre := "/" + w + "/";
    var t := Token(|pre|, "", true);
    assert t.Text() == "[?]";
    assert table[name] == pre + t.Text() + "";
    ResolveOnePlaceholder(table, name, params, pre, t, "", "");
    assert pre + "" + "" == pre;
    assert !EndsWithSlash(table[name]) by { NoEndingSlash(w, t); EndsWithSlashAppend(pre, t.Text()); }
    CleanWordEmpty(w, table[name]);
  }
}
