# routz, modelled in Dafny

`routz` maps route names to path templates such as `/pages/[slug]/[comment?]`.
`define(routes)` binds two operations to a routing table that its owner keeps and
may change at any time. `receive(name)` returns the template for a name, or
fails when there is none. `resolve(name, params)` proceeds in four steps:

1. It fetches the template.
2. It fills the placeholders from the parameters. A required placeholder
   `[key]` without a usable value is an error. An optional `[key?]` without
   one becomes empty.
3. It collapses every run of slashes into one.
4. It drops a trailing slash unless the template ends in one.

The model has five modules:

- `Strings` (`strings.dfy`) holds the string operations the resolver relies on:
  - `IndexOf` and `ReplaceFirst` model `String.prototype.replace` with a
    literal pattern;
  - `CollapseSlashes` is the global slash-sanitising replace;
  - `EndsWithSlash` is the end-of-path test.

  `CollapseSlashes` is proved equal to a reference definition that drops every
  slash following another slash. It is described segment by segment
  (`Segments`, `NonEmptySegments`): the empty segments of a path vanish, and an
  empty last segment leaves its slash.
- `Placeholders` (`placeholders.dfy`) holds an explicit scanner that stands in
  for the global regular expression `/\[([a-zA-Z]*)(\??)\]/g`:
  - `MatchAt` matches the pattern at one index;
  - `NextMatch` is one `exec` call from `lastIndex`;
  - `TokensFrom` and `Tokens` are all the matches, left to right.

  The scan is proved exact, complete and non-overlapping.
- `Routz` (`routz.dfy`) holds the errors (`RouteNotFound`, `MissingParam`) and
  the specification functions `Lookup`, `Replacement`, `Substitute`,
  `Normalize` and `ResolvePath`. It also holds two classes:
  - `Routes` is the live table the owner mutates.
  - `Definition` is what `define` returns. It holds the table by reference. Its
    `Receive` method and its `Resolve` method are proved to compute the
    specification functions. `Resolve` runs the source's `while` loop over the
    scan, with `lastIndex` and the path under construction.

  Neither method has a `modifies` clause: receiving and resolving never write
  to the table.
- `RoutzProperties` (`properties.dfy`) states what resolving promises:
  - which error is reported, and when;
  - success exactly when every required placeholder has a value;
  - the shape of the result (no repeated slash; a trailing slash exactly when
    the template has one);
  - independence from unrelated or empty parameters;
  - the result for templates made of plain literal parts and placeholders.
- `RoutzScenarios` and `RoutzOptionalScenarios` (`scenarios.dfy`,
  `optional_scenarios.dfy`) restate the cases of the project's test suite as
  facts about the model:
  - the live table is modelled through the two classes;
  - the optional-placeholder and sanitising cases are stated for every
    template of the same shape.

Two consequences of the code are worth spelling out:

- The pattern `[a-zA-Z]*` (src/routz.ts:50) also accepts an empty name, so
  `[]` is a required placeholder for the key `""` and `[?]` an optional one
  (`ResolvesEmptyRequiredKey`, `ResolvesEmptyOptionalKey`).
- Each step replaces the first textual occurrence of the placeholder's text
  in the path built so far, not the occurrence the scan found. Replacing an
  earlier placeholder can form a new occurrence to the left of a later one.
  In `[[b?]a?]/[a?]` without values, the second placeholder survives in the
  result (`FirstOccurrenceIsReplaced`). For the same reason, "a template whose
  placeholders are all optional loses all of them" is not claimed in general.

## Model

| member | source | states |
|---|---|---|
| Strings.IndexOf | src/routz.ts:74 | the index found is an occurrence of the pattern and no earlier index is one; none is found only when the pattern occurs nowhere |
| Strings.ReplaceFirst | src/routz.ts:74 | without an occurrence the string is unchanged; otherwise exactly the leftmost occurrence is replaced, literally, and everything else kept |
| Strings.ReplaceFirstAt | src/routz.ts:74 | an occurrence with no earlier character that could start the pattern is the one replaced |
| Strings.ReplaceFirstKeepsTrailingSlash | src/routz.ts:74 | replacing a placeholder text (which ends in `]`) never removes a trailing slash |
| Strings.CollapseSlashes | src/routz.ts:77 | the sanitised path has no two slashes in a row, starts and ends with a slash exactly when the input does, and is empty only for the empty input |
| Strings.CollapseSlashesIsDropRepeated | src/routz.ts:51 | the run-by-run pass equals the reference definition "drop every slash that follows a slash" |
| Strings.CollapseSlashesDropsDouble | src/routz.ts:51 | dropping any slash that follows a slash before sanitising changes nothing |
| Strings.CollapseSlashesOfCleanString | src/routz.ts:77 | a path without repeated slashes is left unchanged, so sanitising is idempotent |
| Strings.CollapseSlashesKeepsWord | src/routz.ts:77 | characters other than slashes pass through unchanged |
| Strings.CollapseEmptySegment | src/routz.ts:77 | an empty segment's slash merges with the next slash |
| Strings.CollapseWordSegment | src/routz.ts:77 | a non-empty segment stays, with its slash |
| Strings.CollapseSegments | src/routz.ts:77 | a path written segment by segment loses exactly its empty segments; an empty last segment leaves a trailing slash |
| Strings.NonEmptySegmentsNoTrailingSlash | src/routz.ts:79 | the non-empty segments of a path never end with a slash |
| Placeholders.LetterRunEnd | src/routz.ts:50 | the end of the maximal run of ASCII letters from an index |
| Placeholders.MatchAt | src/routz.ts:50 | a match at an index lies inside the string, reads exactly as its token's text and has a letters-only key |
| Placeholders.TokenTextIsPlaceholder | src/routz.ts:50 | every token text with a letters-only key is a string the pattern matches |
| Placeholders.MatchAtExact | src/routz.ts:50 | a substring is a placeholder text if and only if the match at its start ends where it ends |
| Placeholders.NoBracketInsideToken | src/routz.ts:50 | no `[` occurs inside a placeholder after its first character, so matches never overlap |
| Placeholders.NextMatch | src/routz.ts:62 | one `exec` step returns the match with the smallest start at or after `lastIndex`, and none is missed before it |
| Placeholders.TokensFrom | src/routz.ts:62 | every token found is a match, and consecutive tokens do not overlap |
| Placeholders.TokensFromComplete | src/routz.ts:62 | every index from `lastIndex` on where the pattern matches is the start of a token found |
| Placeholders.TokensAreAllMatches | src/routz.ts:62 | an index starts a token of the template if and only if the pattern matches there |
| Placeholders.FirstTokenFrom | src/routz.ts:62 | the first token found at or after `from` does not straddle a later match |
| Placeholders.NextMatchSkips | src/routz.ts:62 | a stretch without `[` holds no match |
| Placeholders.TokensFromStep | src/routz.ts:62 | after a stretch without `[`, the next token is the placeholder text that follows |
| Placeholders.TokensFromDone | src/routz.ts:62 | the scan ends once no `[` is left |
| Placeholders.OptionalMark | src/routz.ts:63 | a token is optional exactly when its text has `?` before the closing bracket |
| Placeholders.TextInjective | src/routz.ts:74 | two tokens with the same text have the same key and optionality |
| Placeholders.MatchOfText | src/routz.ts:50 | wherever a token's text stands, the pattern matches it there |
| Routz.Replacement | src/routz.ts:64-72 | a placeholder has no replacement exactly when it is required and its value is absent or empty; an optional one without value becomes `""`; a usable value is used as it is |
| Routz.Substitute | src/routz.ts:62-75 | a failed substitution reports `MissingParam` for one of the placeholders, with the route's name |
| Routz.Normalize | src/routz.ts:77-81 | the cleaned path has no repeated slash; it ends with a slash only if the template does, and keeps a trailing slash that both have |
| Routz.Routes.constructor | src/routz.ts:22 | the table starts with the entries it is given |
| Routz.Routes.Set | src/routz.test.ts:57-58 | the owner's assignment changes that one entry and nothing else |
| Routz.Definition.Define | src/routz.ts:22-92 | the definition holds the table it was given, by reference |
| Routz.Definition.Receive | src/routz.ts:29-36 | the result is `Lookup` on the table as it is now: the template it holds for the name, or `RouteNotFound(name)` when that is absent or empty; the table is not written |
| Routz.Definition.Resolve | src/routz.ts:49-89 | the loop over the scan computes `ResolvePath` on the table as it is now; the table is not written |
| RoutzProperties.SubstituteStopsAtFirstMissing | src/routz.ts:62-69 | the first placeholder in scan order that has no replacement decides the `MissingParam` error |
| RoutzProperties.SubstituteSucceedsIff | src/routz.ts:62-75 | substitution succeeds if and only if every placeholder has a replacement |
| RoutzProperties.SubstituteUsesOnlyTokenValues | src/routz.ts:64-66 | only the usable values of the placeholders' keys matter |
| RoutzProperties.SubstituteKeepsTrailingSlash | src/routz.ts:74 | substitution keeps a trailing slash |
| RoutzProperties.ResolveRouteNotFound | src/routz.ts:55 | `resolve` fails with `RouteNotFound(name)` if and only if the table has no usable template, whatever the parameters |
| RoutzProperties.ResolveMissingParam | src/routz.ts:66-69 | a required placeholder without a usable value, the first without a replacement, makes `resolve` fail with `MissingParam(key, name)` |
| RoutzProperties.ResolveSucceedsIff | src/routz.ts:49-89 | `resolve` succeeds if and only if the route is found and each placeholder is optional or has a usable value |
| RoutzProperties.ResolveOptionalOnly | src/routz.ts:66-72 | a template with only optional placeholders resolves for any parameters, none among them |
| RoutzProperties.ResolveUsesOnlyTemplateKeys | src/routz.ts:64-66 | parameter maps that agree on the template's keys resolve alike |
| RoutzProperties.ResolveIgnoresUnknownParam | src/routz.ts:62-66 | a parameter whose key names no placeholder changes nothing |
| RoutzProperties.ResolveEmptyValueIsMissing | src/routz.ts:66 | an empty value counts as no value |
| RoutzProperties.ResolvedPathShape | src/routz.ts:77-81 | a resolved path has no repeated slash and ends with a slash if and only if the template does |
| RoutzProperties.NormalizeCleanPath | src/routz.ts:77-81 | a path without repeated slashes whose trailing slash the template shares is left unchanged |
| RoutzProperties.ResolveLiteralTemplate | src/routz.ts:49-89 | a template without placeholders or repeated slashes resolves to itself for any parameters |
| RoutzProperties.ResolveOneToken | src/routz.ts:62-75 | a template with one placeholder between literal parts without `[`: its replacement takes its place before the clean-up, or a required one is reported missing |
| RoutzProperties.SingleTokenScan | src/routz.ts:62 | such a template scans to exactly that placeholder, and its text first occurs there |
| RoutzProperties.SameTextsSameFills | src/routz.ts:74 | tokens with the same texts have the same replacements |
| RoutzProperties.TokensOfRender | src/routz.ts:62 | a template made of literal parts without `[` and placeholder texts scans to exactly those placeholders |
| RoutzProperties.ReplaceAfterPlain | src/routz.ts:74 | a placeholder text after a prefix without `[` is the occurrence replaced |
| RoutzProperties.SubstituteRender | src/routz.ts:57-75 | substituting such a template, each replacement free of `[`, puts each replacement in its placeholder's place |
| RoutzProperties.ResolveRendered | src/routz.ts:49-89 | such a template, each replacement free of `[`, resolves to the clean-up of the literal parts interleaved with the replacements |
| RoutzProperties.NormalizeSegments | src/routz.ts:77-81 | the clean-up of a path of slash-free segments keeps the non-empty ones, and a final slash only when the last segment is empty and the template ends in a slash |
| RoutzProperties.ResolveOnePlaceholder | src/routz.ts:49-89 | `ResolveRendered` for one placeholder, its replacement free of `[` |
| RoutzProperties.ResolveTwoPlaceholders | src/routz.ts:49-89 | `ResolveRendered` for two placeholders, each replacement free of `[` |
| RoutzProperties.ResolveThreePlaceholders | src/routz.ts:49-89 | `ResolveRendered` for three placeholders, each replacement free of `[` |
| RoutzScenarios.ResolvesLiteralRoute | src/routz.test.ts:70-83 | `/home` resolves to itself, with parameters omitted, null or empty |
| RoutzScenarios.ResolvesSingleParam | src/routz.test.ts:85-101 | one required placeholder between literal parts is replaced by its value |
| RoutzScenarios.ResolvesRequiredParam | src/routz.test.ts:85-92 | `/pages/[pageSlug]` with `pageSlug: 'foo'` gives `/pages/foo` |
| RoutzScenarios.ResolvesParamInsideSegment | src/routz.test.ts:94-101 | `/profile/id-[id]-user` with `id: 'foo'` gives `/profile/id-foo-user` |
| RoutzScenarios.MissingRequiredParam | src/routz.test.ts:162-171 | `/pages/[slug]` without `slug` fails with `MissingParam("slug", name)` |
| RoutzScenarios.LiveTableReceive | src/routz.test.ts:45-64 | `receive` returns `/pages` and fails for `not-defined` before the owner changes the table, and returns the changed and the added entries after |
| RoutzScenarios.ResolvesMovedRoute | src/routz.test.ts:185-189 | the moved route resolves to `/pages/articles/article-7411` |
| RoutzScenarios.ResolvesAddedRoute | src/routz.test.ts:186-191 | the added route resolves to `/but/defined/yet` |
| RoutzScenarios.ResolvesInitialRoute | src/routz.test.ts:180-181 | the route as first defined resolves to `/pages/article-42` |
| RoutzScenarios.LiveTableResolve | src/routz.test.ts:173-192 | `resolve` gives `/pages/article-42` and `RouteNotFound("not-defined")` before the owner changes the table, and resolves the moved and the added routes after |
| RoutzScenarios.FirstOccurrenceIsReplaced | src/routz.ts:74 | `[[b?]a?]/[a?]` without values resolves to `/[a?]`: the first textual occurrence is replaced, not the scanned one |
| RoutzScenarios.SubstituteTwo | src/routz.ts:62-75 | two placeholders with replacements make two first-occurrence replacements in order |
| RoutzOptionalScenarios.OptionalReplacement | src/routz.ts:64-72 | an optional placeholder is replaced by its `Fill`: `""` exactly when its value is absent or empty, otherwise the value |
| RoutzOptionalScenarios.RequiredReplacement | src/routz.ts:64-66 | a required placeholder with a usable value is replaced by it |
| RoutzOptionalScenarios.ResolvesOptionalThenWord | src/routz.test.ts:103-124 | `/[locale?]/pages`-shaped templates give the word, with the value in front when there is one |
| RoutzOptionalScenarios.ResolvesOptionalWordsOptional | src/routz.test.ts:103-124 | `/[locale?]/pages/filter/[filter?]`-shaped templates keep exactly the values present |
| RoutzOptionalScenarios.ResolvesWordRequiredOptional | src/routz.test.ts:103-124 | `/pages/[slug]/[comment?]`-shaped templates give the slug and, when present, the comment |
| RoutzOptionalScenarios.ResolvesWordOptionals | src/routz.test.ts:126-149 | `/pages/[locale?]/[slug?]/[comment?]` with or without a final slash keeps the values present, with a final slash exactly when the template has one |
| RoutzOptionalScenarios.ResolvesEmptyRequiredKey | src/routz.ts:50 | `[]` is a required placeholder for the empty key |
| RoutzOptionalScenarios.ResolvesEmptyOptionalKey | src/routz.ts:50 | `[?]` is an optional placeholder that disappears with the slash in front of it |

## Left out

- The `lastIndex` mechanics of the global regular expression are replaced by an explicit scanner. `NextMatch` from `lastIndex` is one `exec` call. A zero-length match cannot occur, since every match is at least two characters long.
- `String.prototype.replace` gives `$&`, `$1` and similar patterns in a replacement string a special meaning. This model treats replacement text literally.
- Prototype-chain lookups on plain objects (a route or parameter named `toString`) and the stringification of non-string values are not modelled. Table values and parameter values are strings.
- A `null` or omitted parameter object is modelled as the empty map.
- The object spread copy of the parameters changes nothing observable and is not modelled.
- Errors are the datatype `RouteError`. The message text of the thrown `Error` is not modelled.
- The TypeScript type aliases and the Jest test runner are not modelled. The test cases appear as lemmas and methods.
- Concurrency is not modelled. The source has none.
- RoutzOptionalScenarios.ResolvesOptionalThenWord, ResolvesOptionalWordsOptional, ResolvesWordRequiredOptional and ResolvesWordOptionals: these are stated for each template of the tested shape with symbolic words and placeholder keys. They also require parameter values without `/` or `[` (`SegmentValues`). The literal instances with the test's own words are not stated separately.
- RoutzScenarios.ResolvesSingleParam: this requires the substituted path to have no repeated or trailing slash. Other paths go through `Normalize`, as `RoutzProperties.ResolveOneToken` states.
