// String operations the resolver relies on: the first-occurrence
// `String.prototype.replace` with a literal pattern, the global replace that
// turns every run of slashes into one slash, and the end-of-path slash test.
module Strings {

  datatype Option<T> = None | Some(value: T)

  /** `pat` occurs in `s` starting at index `i`. */
  predicate OccursAt(s: string, pat: string, i: nat) {
    i + |pat| <= |s| && s[i..i + |pat|] == pat
  }

  /** The first index at or after `from` where `pat` occurs. */
  function IndexOfFrom(s: string, pat: string, from: nat): (r: Option<nat>)
    requires from <= |s|
    ensures r.Some? ==> from <= r.value <= |s| && OccursAt(s, pat, r.value)
    ensures forall i :: from <= i <= |s| && (r.None? || i < r.value) ==> !OccursAt(s, pat, i)
    decreases |s| - from
  {
    if OccursAt(s, pat, from) then Some(from)
    else if from == |s| then None
    else IndexOfFrom(s, pat, from + 1)
  }

  /** The leftmost occurrence of `pat` in `s`, if any. */
  function IndexOf(s: string, pat: string): (r: Option<nat>)
    ensures r.Some? ==> r.value <= |s| && OccursAt(s, pat, r.value)
    ensures forall i :: 0 <= i <= |s| && (r.None? || i < r.value) ==> !OccursAt(s, pat, i)
  {
    IndexOfFrom(s, pat, 0)
  }

  /** `s.replace(pat, rep)` for a string pattern: only the leftmost
      occurrence is replaced, and `rep` is taken literally. */
  function ReplaceFirst(s: string, pat: string, rep: string): (r: string)
    ensures (forall i :: 0 <= i <= |s| ==> !OccursAt(s, pat, i)) ==> r == s
    ensures forall i :: 0 <= i <= |s| && OccursAt(s, pat, i) && (forall j :: 0 <= j < i ==> !OccursAt(s, pat, j))
              ==> r == s[..i] + rep + s[i + |pat|..]
  {
    match IndexOf(s, pat)
    case None => s
    case Some(i) => s[..i] + rep + s[i + |pat|..]
  }

  /** When no character before index `i` starts the pattern, the occurrence
      at `i` is the one replaced. */
  lemma ReplaceFirstAt(s: string, pat: string, rep: string, i: nat)
    requires |pat| > 0 && OccursAt(s, pat, i)
    requires forall k :: 0 <= k < i ==> s[k] != pat[0]
    ensures ReplaceFirst(s, pat, rep) == s[..i] + rep + s[i + |pat|..]
  {
  }

  predicate EndsWithSlash(s: string) {
    |s| > 0 && s[|s| - 1] == '/'
  }

  predicate StartsWithSlash(s: string) {
    |s| > 0 && s[0] == '/'
  }

  /** Two slashes in a row at index `i`. */
  predicate DoubleSlashAt(s: string, i: nat) {
    i + 1 < |s| && s[i] == '/' && s[i + 1] == '/'
  }

  predicate NoDoubleSlash(s: string) {
    forall i :: 0 <= i < |s| ==> !DoubleSlashAt(s, i)
  }

  /** What is left of `s` after its leading run of slashes. */
  function DropLeadingSlashes(s: string): (r: string)
    ensures |r| <= |s| && !StartsWithSlash(r)
    ensures r != [] ==> r[|r| - 1] == s[|s| - 1]
    ensures r == [] && s != [] ==> s[|s| - 1] == '/'
  {
    if StartsWithSlash(s) then DropLeadingSlashes(s[1..]) else s
  }

  /** Putting one character in front of a string without two slashes in a
      row keeps it so, unless a slash meets a leading slash. */
  lemma ConsNoDoubleSlash(c: char, t: string)
    requires NoDoubleSlash(t)
    requires !(c == '/' && StartsWithSlash(t))
    ensures NoDoubleSlash([c] + t)
  {
    var s := [c] + t;
    forall i | 0 <= i < |s|
      ensures !DoubleSlashAt(s, i)
    {
      if 0 < i && DoubleSlashAt(s, i) {
        assert DoubleSlashAt(t, i - 1);
      }
    }
  }

  /** The slash sanitising pass: every maximal run of slashes, wherever it
      is, becomes a single slash; all other characters are kept. */
  function CollapseSlashes(s: string): (r: string)
    ensures NoDoubleSlash(r)
    ensures StartsWithSlash(r) <==> StartsWithSlash(s)
    ensures EndsWithSlash(r) <==> EndsWithSlash(s)
    ensures |r| <= |s| && (r == [] <==> s == [])
    decreases |s|
  {
    if s == [] then []
    else if s[0] == '/' then
      var rest := DropLeadingSlashes(s[1..]);
      var tail := CollapseSlashes(rest);
      assert rest != [] ==> rest[|rest| - 1] == s[|s| - 1];
      ConsNoDoubleSlash('/', tail);
      "/" + tail
    else
      var tail := CollapseSlashes(s[1..]);
      ConsNoDoubleSlash(s[0], tail);
      [s[0]] + tail
  }

  /** Reference definition of the sanitising pass: drop every slash that
      immediately follows another slash. */
  function DropRepeatedSlashes(s: string): string {
    if |s| <= 1 then s
    else if s[0] == '/' && s[1] == '/' then DropRepeatedSlashes(s[1..])
    else [s[0]] + DropRepeatedSlashes(s[1..])
  }

  /** A slash followed by a run of slashes reduces, under the reference
      definition, to a slash followed by whatever follows the run. */
  lemma {:induction false} DropRepeatedSlashRun(s: string)
    requires StartsWithSlash(s)
    ensures DropRepeatedSlashes(s) == "/" + DropRepeatedSlashes(DropLeadingSlashes(s[1..]))
    decreases |s|
  {
    if |s| == 1 {
    } else if s[1] == '/' {
      DropRepeatedSlashRun(s[1..]);
      assert s[1..][1..] == s[2..];
    } else {
      assert DropLeadingSlashes(s[1..]) == s[1..];
    }
  }

  /** The regex-shaped pass and the reference definition agree. */
  lemma {:induction false} CollapseSlashesIsDropRepeated(s: string)
    ensures CollapseSlashes(s) == DropRepeatedSlashes(s)
    decreases |s|
  {
    if s == [] {
    } else if s[0] == '/' {
      var rest := DropLeadingSlashes(s[1..]);
      CollapseSlashesIsDropRepeated(rest);
      DropRepeatedSlashRun(s);
    } else {
      CollapseSlashesIsDropRepeated(s[1..]);
    }
  }

  /** A string that has no two slashes in a row passes the sanitiser
      unchanged; in particular the sanitiser is idempotent. */
  lemma {:induction false} CollapseSlashesOfCleanString(s: string)
    requires NoDoubleSlash(s)
    ensures CollapseSlashes(s) == s
    decreases |s|
  {
    if s != [] {
      assert NoDoubleSlash(s[1..]) by {
        assert forall i :: 0 <= i < |s| - 1 && DoubleSlashAt(s[1..], i) ==> DoubleSlashAt(s, i + 1);
      }
      CollapseSlashesOfCleanString(s[1..]);
      if s[0] == '/' {
        assert !DoubleSlashAt(s, 0);
        assert DropLeadingSlashes(s[1..]) == s[1..];
        CollapseSlashesSlash(s);
      } else {
        CollapseSlashesNonSlash(s);
      }
      HeadTail(s);
    }
  }

  /** A non-empty string is its first character followed by the rest. */
  lemma HeadTail(s: string)
    requires s != []
    ensures [s[0]] + s[1..] == s
  {
  }


  /** Under the reference definition, a slash that follows a slash can be
      dropped first. */
  lemma {:induction false} DropRepeatedDoubleSlash(s: string, i: nat)
    requires DoubleSlashAt(s, i)
    ensures DropRepeatedSlashes(s) == DropRepeatedSlashes(s[..i] + s[i + 1..])
    decreases i
  {
    var t := s[..i] + s[i + 1..];
    if i == 0 {
      assert t == s[1..];
    } else {
      assert t[0] == s[0] && t[1] == s[1];
      assert t[1..] == s[1..][..i - 1] + s[1..][i..];
      DropRepeatedDoubleSlash(s[1..], i - 1);
    }
  }

  /** The sanitiser removes each slash that follows a slash: dropping one
      beforehand changes nothing. */
  lemma CollapseSlashesDropsDouble(s: string, i: nat)
    requires DoubleSlashAt(s, i)
    ensures CollapseSlashes(s) == CollapseSlashes(s[..i] + s[i + 1..])
  {
    CollapseSlashesIsDropRepeated(s);
    CollapseSlashesIsDropRepeated(s[..i] + s[i + 1..]);
    DropRepeatedDoubleSlash(s, i);
  }

  predicate NoSlash(w: string) {
    forall k :: 0 <= k < |w| ==> w[k] != '/'
  }

  /** A path written segment by segment, empty segments included:
      `/ws[0]/ws[1]...`. */
  function Segments(ws: seq<string>): string {
    if ws == [] then [] else "/" + ws[0] + Segments(ws[1..])
  }

  /** A path segment as it appears in a clean path: nothing when empty,
      otherwise a slash and the segment. */
  function Segment(w: string): (r: string)
    ensures r == "" <==> w == ""
  {
    if w == "" then "" else "/" + w
  }

  /** The same path with its empty segments left out. */
  function NonEmptySegments(ws: seq<string>): string {
    if ws == [] then [] else Segment(ws[0]) + NonEmptySegments(ws[1..])
  }

  /** Characters without a slash pass the sanitiser as they are. */
  lemma {:induction false} CollapseSlashesKeepsWord(w: string, rest: string)
    requires NoSlash(w)
    ensures CollapseSlashes(w + rest) == w + CollapseSlashes(rest)
    decreases |w|
  {
    if w != [] {
      var s := w + rest;
      assert s[0] == w[0] && s[1..] == w[1..] + rest;
      assert NoSlash(w[1..]) by {
        assert forall k :: 0 <= k < |w| - 1 ==> w[1..][k] == w[k + 1];
      }
      CollapseSlashesKeepsWord(w[1..], rest);
      CollapseSlashesNonSlash(s);
      assert [w[0]] + w[1..] == w;
      Assoc([w[0]], w[1..], CollapseSlashes(rest));
    } else {
      assert w + rest == rest;
    }
  }

  /** Concatenation regrouped. */
  lemma Assoc(x: string, y: string, z: string)
    ensures x + (y + z) == x + y + z
  {
  }

  /** A run of slashes at the front becomes one slash. */
  lemma CollapseSlashesSlash(s: string)
    requires StartsWithSlash(s)
    ensures CollapseSlashes(s) == "/" + CollapseSlashes(DropLeadingSlashes(s[1..]))
  {
  }

  /** A character other than a slash is kept as it is. */
  lemma CollapseSlashesNonSlash(s: string)
    requires s != [] && s[0] != '/'
    ensures CollapseSlashes(s) == [s[0]] + CollapseSlashes(s[1..])
  {
  }


  /** An empty segment: its slash merges with the next one. */
  lemma CollapseEmptySegment(rest: string)
    requires rest == "" || StartsWithSlash(rest)
    ensures CollapseSlashes("/" + rest) == if rest == "" then "/" else CollapseSlashes(rest)
  {
    if rest != "" {
      var s := "/" + rest;
      assert s[1..] == rest;
      CollapseSlashesSlash(s);
      CollapseSlashesSlash(rest);
      assert DropLeadingSlashes(rest) == DropLeadingSlashes(rest[1..]);
    } else {
      assert "/" + rest == "/";
    }
  }

  /** A segment that is not empty stays, with its slash. */
  lemma CollapseWordSegment(w: string, rest: string)
    requires NoSlash(w) && w != ""
    ensures CollapseSlashes("/" + w + rest) == "/" + w + CollapseSlashes(rest)
  {
    var s := "/" + w + rest;
    Assoc("/", w, rest);
    assert s[1..] == w + rest && s[1] == w[0];
    assert DropLeadingSlashes(s[1..]) == w + rest;
    CollapseSlashesSlash(s);
    CollapseSlashesKeepsWord(w, rest);
    Assoc("/", w, CollapseSlashes(rest));
  }


  /** A path of segments without slashes never ends with a slash once
      its empty segments are left out. */
  lemma {:induction false} NonEmptySegmentsNoTrailingSlash(ws: seq<string>)
    requires forall k :: 0 <= k < |ws| ==> NoSlash(ws[k])
    ensures !EndsWithSlash(NonEmptySegments(ws))
    decreases |ws|
  {
    if ws != [] {
      assert forall k :: 0 <= k < |ws| - 1 ==> ws[1..][k] == ws[k + 1];
      NonEmptySegmentsNoTrailingSlash(ws[1..]);
      var head, tail := Segment(ws[0]), NonEmptySegments(ws[1..]);
      assert NonEmptySegments(ws) == head + tail;
      if tail != [] {
        EndsWithSlashAppend(head, tail);
      } else {
        assert head + tail == head;
        SegmentNoTrailingSlash(ws[0]);
      }
    }
  }

  /** A segment without a slash does not end with one in its clean form. */
  lemma SegmentNoTrailingSlash(w: string)
    requires NoSlash(w)
    ensures !EndsWithSlash(Segment(w))
  {
    if w != "" {
      assert Segment(w)[|Segment(w)| - 1] == w[|w| - 1];
    }
  }

  /** The slash an empty last segment leaves at the end of a path. */
  function TrailingSlash(ws: seq<string>): string {
    if ws != [] && ws[|ws| - 1] == "" then "/" else ""
  }

  /** One step of `CollapseSegments`: from the segments after the first to
      all of them. */
  lemma CollapseSegmentsCons(ws: seq<string>)
    requires ws != [] && NoSlash(ws[0])
    requires CollapseSlashes(Segments(ws[1..])) == NonEmptySegments(ws[1..]) + TrailingSlash(ws[1..])
    ensures CollapseSlashes(Segments(ws)) == NonEmptySegments(ws) + TrailingSlash(ws)
  {
    SegmentsUnfold(ws);
    if ws[0] == "" {
      CollapseSegmentsConsEmpty(ws);
    } else {
      CollapseSegmentsConsWord(ws);
    }
  }

  /** `CollapseSegmentsCons` when the first segment is empty. */
  lemma CollapseSegmentsConsEmpty(ws: seq<string>)
    requires ws != [] && ws[0] == ""
    requires CollapseSlashes(Segments(ws[1..])) == NonEmptySegments(ws[1..]) + TrailingSlash(ws[1..])
    ensures CollapseSlashes(Segments(ws)) == NonEmptySegments(ws) + TrailingSlash(ws)
  {
    var rest, clean := Segments(ws[1..]), NonEmptySegments(ws[1..]);
    SegmentsUnfold(ws);
    assert Segments(ws) == "/" + rest by { assert "/" + ws[0] == "/"; }
    assert NonEmptySegments(ws) == clean by { assert "" + clean == clean; }
    CollapseEmptyHead(rest, clean, TrailingSlash(ws[1..]), TrailingSlash(ws));
  }

  /** An empty first segment in terms of strings alone: its slash merges
      into the next one, or stays as the only one. */
  lemma CollapseEmptyHead(rest: string, clean: string, trail: string, slash: string)
    requires rest == "" || StartsWithSlash(rest)
    requires rest == "" ==> clean == "" && slash == "/"
    requires rest != "" ==> CollapseSlashes(rest) == clean + trail && slash == trail
    ensures CollapseSlashes("/" + rest) == clean + slash
  {
    CollapseEmptySegment(rest);
    if rest == "" {
      assert clean + slash == "/";
    }
  }

  /** `CollapseSegmentsCons` when the first segment is a word. */
  lemma CollapseSegmentsConsWord(ws: seq<string>)
    requires ws != [] && ws[0] != "" && NoSlash(ws[0])
    requires CollapseSlashes(Segments(ws[1..])) == NonEmptySegments(ws[1..]) + TrailingSlash(ws[1..])
    ensures CollapseSlashes(Segments(ws)) == NonEmptySegments(ws) + TrailingSlash(ws)
  {
    var w, rest, clean, slash := ws[0], Segments(ws[1..]), NonEmptySegments(ws[1..]), TrailingSlash(ws);
    SegmentsUnfold(ws);
    assert NonEmptySegments(ws) == "/" + w + clean;
    CollapseWordSegment(w, rest);
    assert slash == TrailingSlash(ws[1..]);
    Assoc("/" + w, clean, slash);
  }



  /** `Segments`, `NonEmptySegments` and `TrailingSlash` of a non-empty
      list, in terms of its first segment and the rest. */
  lemma SegmentsUnfold(ws: seq<string>)
    requires ws != []
    ensures Segments(ws) == "/" + ws[0] + Segments(ws[1..])
    ensures NonEmptySegments(ws) == Segment(ws[0]) + NonEmptySegments(ws[1..])
    ensures Segments(ws[1..]) == "" <==> ws[1..] == []
    ensures Segments(ws[1..]) == "" || StartsWithSlash(Segments(ws[1..]))
    ensures ws[1..] == [] ==> NonEmptySegments(ws[1..]) == "" && TrailingSlash(ws) == (if ws[0] == "" then "/" else "")
    ensures ws[1..] != [] ==> TrailingSlash(ws) == TrailingSlash(ws[1..])
  {
    var tail := ws[1..];
    if tail != [] {
      assert tail[|tail| - 1] == ws[|ws| - 1];
    }
  }


  /** The sanitiser drops exactly the empty segments of a path whose
      segments hold no slash; an empty last segment leaves its slash at
      the end. */
  lemma {:induction false} CollapseSegments(ws: seq<string>)
    requires forall k :: 0 <= k < |ws| ==> NoSlash(ws[k])
    ensures CollapseSlashes(Segments(ws)) == NonEmptySegments(ws) + TrailingSlash(ws)
    decreases |ws|
  {
    if ws != [] {
      assert forall k :: 0 <= k < |ws| - 1 ==> ws[1..][k] == ws[k + 1];
      CollapseSegments(ws[1..]);
      CollapseSegmentsCons(ws);
    }
  }

  /** A string ends with a slash exactly when its last non-empty part does. */
  lemma EndsWithSlashAppend(x: string, y: string)
    requires y != ""
    ensures EndsWithSlash(x + y) == EndsWithSlash(y)
  {
    assert (x + y)[|x + y| - 1] == y[|y| - 1];
  }

  /** Replacing a pattern that does not end in a slash keeps a trailing
      slash: the occurrence can never cover the final character. */
  lemma ReplaceFirstKeepsTrailingSlash(s: string, pat: string, rep: string)
    requires EndsWithSlash(s)
    requires |pat| > 0 && pat[|pat| - 1] != '/'
    ensures EndsWithSlash(ReplaceFirst(s, pat, rep))
  {
    match IndexOf(s, pat)
    case None =>
    case Some(i) =>
      assert s[i + |pat| - 1] == pat[|pat| - 1] by {
        assert s[i..i + |pat|][|pat| - 1] == s[i + |pat| - 1];
      }
      var tail := s[i + |pat|..];
      assert tail != [] && tail[|tail| - 1] == s[|s| - 1];
      EndsWithSlashAppend(s[..i] + rep, tail);
  }
}
