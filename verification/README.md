# Title injector of the navigation site's build configuration

The build configuration (`vite.config.js`) registers one plugin with real
logic, `html-transform`. Its `transformIndexHtml` hook rewrites the HTML
entry template before it is served or built, in two steps:

1. **Title selection.** The title is `env.VITE_SITE_TITLE || '猫猫导航'`.
2. **Single replacement.** The first `<title>...</title>` element is
   replaced with `html.replace(/<title>(.*?)<\/title>/, `<title>${title}</title>`)`.
   The replace is not global.

The Dafny model has five modules:

- `TitlePattern` (`title_pattern.dfy`) models the one regular expression.
  - `Find` is an explicit search that follows the RegExp matcher of ECMA-262.
    It tries start positions left to right. The lazy `.*?` tries the closing
    tag before consuming one more character, and `.` never consumes a line
    terminator (LF, CR, U+2028, U+2029).
  - Next to it is a declarative reference for a leftmost lazy match
    (`IsLeftmostMatch`). Lemmas prove that the search and the reference agree.
- `Substitution` (`substitution.dfy`) models GetSubstitution from section
  22.1.3.19.1 of ECMA-262, 15th edition (2024). This is the step of
  `String.prototype.replace` that expands `$` references in the replacement
  string: `$$`, `` $` ``, `$&`, `$'`, `$n`, `$nn` and `$<`.
- `TitleInjector` (`title_injector.dfy`) holds the hook itself.
  - `ChooseTitle` picks the title.
  - `ReplaceFirst` replaces the first match.
  - `TransformIndexHtml` is the hook as written.
  - It also proves the replacement, pass-through and idempotence properties.
  - `TransformIndexHtmlLiteral` is the corrected hook. It escapes `$` before
    calling `replace` (see Findings).
- `Scenarios` (`scenarios.dfy`) works through concrete documents and
  environments, each proved.
- `Wrappers` (`wrappers.dfy`) holds the `Option` type.

The environment that `loadEnv` would produce is a `map<string, string>` parameter.

## Model

| member | source | states |
|---|---|---|
| TitleInjector.ChooseTitle | vite.config.js:22 | The title is never empty. It is the configured value when `VITE_SITE_TITLE` is present and non-empty; otherwise it is exactly the default `猫猫导航`. |
| TitleInjector.TitleDependsOnlyOnKey | vite.config.js:22 | Two environments that agree on `VITE_SITE_TITLE` give the same title, whatever their other keys. |
| TitleInjector.ZeroStringIsKept | vite.config.js:22 | `||` only treats an absent or empty value as falsy, so the non-empty string "0" is used as the title. |
| TitleInjector.Template | vite.config.js:26 | The replacement string is `<title>`, the title, `</title>`, in that order; it holds a `$` exactly when the title does. |
| TitleInjector.Expansion | vite.config.js:24-27 | A replacement string without `$` expands to itself, whatever the match. |
| TitleInjector.TransformIndexHtml | vite.config.js:20-28 | The hook as written: with no match the HTML comes back unchanged; with the leftmost match, the text before and after it is kept, and a title without `$` lands verbatim between the tags. The lemmas NoMatchUnchanged, LeftmostMatchReplaced, VerbatimTitle and TransformIdempotent state the same in terms of the reference match. |
| TitleInjector.TransformIndexHtmlLiteral | vite.config.js:20-28 | Not source code: the corrected hook, with every `$` of the replacement string doubled. With no match the HTML comes back unchanged; with the leftmost match, every title, `$` included, lands verbatim between the kept prefix and suffix. |
| Substitution.EscapeDollars | vite.config.js:26 | Not source code: the escaping the corrected hook adds. The result is one character longer per `$` in the text, and a `$`-free text is left as it is. |
| TitlePattern.LazyClose | vite.config.js:25 | `.*?</title>` from a content position finds the first closing tag reachable without crossing a line terminator, and no earlier one. When it fails, every later closing tag lies beyond a line terminator. |
| TitlePattern.MatchAt | vite.config.js:25 | An anchored attempt succeeds exactly when a match starts there, and then it yields the lazy match. |
| TitlePattern.FindFrom | vite.config.js:25 | Trying start positions from `i` upward yields a lazy match with no qualifying start before it, or fails only when no start at or after `i` qualifies. |
| TitlePattern.Find | vite.config.js:25 | A found match is the leftmost lazy match. A failed search means no position qualifies. |
| TitlePattern.LeftmostMatchUnique | vite.config.js:25 | A string has at most one leftmost lazy match. |
| TitlePattern.FindIsLeftmostMatch | vite.config.js:25 | The search returns `m` if and only if `m` is the leftmost lazy match (the search agrees with the reference, both directions). |
| TitlePattern.FindFailsIffNoMatch | vite.config.js:25 | The search fails if and only if no position starts a `<title>` with a `</title>` reachable without a line terminator. |
| TitlePattern.NoOpenTagNoMatch | vite.config.js:25 | Without a literal lower-case `<title>` anywhere there is no match. |
| TitlePattern.LineBreakInContentSkipped | vite.config.js:25 | A `<title>` with a line terminator before its first `</title>` does not qualify, and the search does not stop there. |
| TitlePattern.InsertedElementIsLazyMatch | vite.config.js:25-26 | `<title>` + a title without line terminators or `</title>` + `</title>` is a lazy match ending at that closing tag. |
| TitlePattern.EarlierStartsStillFail | vite.config.js:25 | Changing the text after the leftmost match's opening tag cannot make an earlier start position qualify. |
| Substitution.GetSubstitution | vite.config.js:26 | A replacement string without `$` expands to itself. |
| Substitution.NextRef | vite.config.js:26 | Each reference consumes at least one and at most all remaining characters. A character other than `$` stands for itself. |
| Substitution.LiteralPrefix | vite.config.js:26 | A `$`-free head of the replacement string is copied unchanged, and the expansion of the rest follows it. |
| Substitution.DollarDollar | vite.config.js:26 | `$$` inserts one `$`. |
| Substitution.DollarAmpersand | vite.config.js:26 | `$&` inserts the matched text. |
| Substitution.AmpersandBetween | vite.config.js:26 | `$&` between two `$`-free texts puts the matched text between them. |
| Substitution.DollarBacktick | vite.config.js:26 | `` $` `` inserts the text before the match. |
| Substitution.DollarQuote | vite.config.js:26 | `$'` inserts the text after the match. |
| Substitution.DollarOne | vite.config.js:25-26 | With the pattern's single capture group, `$1` inserts the captured old title, even when a digit follows. |
| Substitution.DollarZero | vite.config.js:26 | When no digit follows, `$0` is not a capture index and stays literally. |
| Substitution.EscapeDollarsRoundTrip | vite.config.js:26 | Doubling every `$` of a text gives a replacement string that expands back to that exact text, for any match. |
| TitleInjector.Splice | vite.config.js:24-27 | The result keeps the text before the match and the text after the match, with the new text exactly in between. |
| TitleInjector.ReplaceFirst | vite.config.js:24-27 | With no match, `replace` returns its input unchanged; with the leftmost match `m`, the text before `m` and the text after it are kept. |
| TitleInjector.ReplaceFirstAt | vite.config.js:24-27 | When `m` is the leftmost lazy match, `replace` puts the expansion of the replacement string in place of exactly `m`. |
| TitleInjector.NoMatchUnchanged | vite.config.js:24-27 | When no position qualifies, the hook (as written and corrected) returns the HTML unchanged. |
| TitleInjector.NoOpenTagUnchanged | vite.config.js:24-27 | HTML without a lower-case `<title>` (e.g. upper-case tags or a tag with attributes) passes through unchanged. |
| TitleInjector.LeftmostMatchReplaced | vite.config.js:24-27 | The leftmost match is the one replaced. Everything before its start and everything after its closing tag is kept, so later `<title>` elements are untouched. |
| TitleInjector.VerbatimTitle | vite.config.js:22-27 | For a title without `$`, the output is the text before the match, then `<title>` + title + `</title>`, then the text after the match. |
| TitleInjector.VerbatimSplice | vite.config.js:24-27 | For a title without `$`, the match is swapped for exactly the title element. |
| TitleInjector.LiteralTitleReplaced | vite.config.js:22-27 | The corrected hook inserts every title verbatim, `$` included, between the kept prefix and suffix. |
| TitleInjector.LiteralSplice | vite.config.js:24-27 | With `$` escaped, the match is swapped for exactly the title element. |
| TitleInjector.SplicedTitleIsLeftmostMatch | vite.config.js:25-26 | For a title without line terminators or `</title>`, the title element spliced in at the leftmost match becomes the output's leftmost lazy match. |
| TitleInjector.SpliceAgain | vite.config.js:24-26 | Replacing the inserted element by the same element changes nothing. |
| TitleInjector.TransformIdempotent | vite.config.js:18-29 | Running the hook twice with the same environment equals running it once, for a title with no `$`, no line terminator and no `</title>`. |
| TitleInjector.TransformLiteralIdempotent | vite.config.js:18-29 | With `$` escaped, running the hook twice equals running it once for any title without line terminators or `</title>`. |
| TitleInjector.DefaultTitleIsInert | vite.config.js:22 | The default title has no `$`, no line terminator and no `</title>`, so the idempotence lemmas apply to it. |
| Scenarios.NoOpenTagStartUnchanged | vite.config.js:24-27 | A document in which no `<` is followed by `t` passes through unchanged. |
| Scenarios.ElementAfterUnmatchedPrefix | vite.config.js:24-27 | After a prefix where no match starts, the first title element with inert content is replaced by the `$`-free title, and the rest is kept. |
| Scenarios.FirstElementReplaced | vite.config.js:24-27 | After a prefix containing no `<t`, a first title element whose content is inert (no line terminator, no `</title>`) is replaced by a title without `$`, and the prefix and suffix are kept. |
| Scenarios.LeadingElementReplaced | vite.config.js:24-27 | A title element at the start of the document whose content is inert (no line terminator, no `</title>`) is replaced by a title without `$`, and everything after it is kept. |
| Scenarios.EmptyEnvUsesDefault | vite.config.js:18-29 | With an empty environment, `<head><title>Old</title></head>` becomes `<head><title>猫猫导航</title></head>`. |
| Scenarios.ConfiguredTitleUsed | vite.config.js:18-29 | With `VITE_SITE_TITLE = "My Site"`, an empty title element is filled with "My Site". |
| Scenarios.EmptyValueUsesDefault | vite.config.js:18-29 | An empty `VITE_SITE_TITLE` counts as unset, so the default title goes in. |
| Scenarios.OnlyFirstTitleReplaced | vite.config.js:24-27 | Of two title elements, only the first is replaced, and the second is kept character for character. |
| Scenarios.NoTitleUnchanged | vite.config.js:24-27 | A document with no title element is returned unchanged, whatever the environment. |
| Scenarios.UpperCaseUnchanged | vite.config.js:25 | `<TITLE>Old</TITLE>` is not matched and passes through unchanged. |
| Scenarios.AttributeUnchanged | vite.config.js:25 | `<title lang="x">Old</title>` is not matched and passes through unchanged. |
| Scenarios.BrokenElementUnmatched | vite.config.js:25 | No match starts anywhere inside a title element whose content holds a line terminator and no `<`. |
| Scenarios.LineBreakMovesToNextTitle | vite.config.js:24-27 | When the first title element's content contains a line break, the second element is the one replaced, and the first is kept. |
| Scenarios.AmpersandTitleNestsElement | vite.config.js:22-27 | For the title `$&`, the output is the whole old element nested inside a new one. |
| Scenarios.DollarTitleExpanded | vite.config.js:22-27 | With `VITE_SITE_TITLE = "$&"`, `<title>Old</title>` becomes `<title><title>Old</title></title>`, not `<title>$&</title>`. |
| Scenarios.AmpersandGrows | vite.config.js:22-27 | With the title `$&`, a pass wraps the leftmost match in a new title element, which makes the document longer by exactly the two tags. |
| Scenarios.ShiftedMatchQualifies | vite.config.js:25 | After such a pass, the old element still qualifies as a match, one opening tag further on. |
| Scenarios.DollarTitleNotIdempotent | vite.config.js:18-29 | With the title `$&`, running the hook twice differs from running it once whenever the HTML has a match. |
| Scenarios.DollarTitleLiteral | vite.config.js:22-27 | With `$` escaped, the same input gives `<title>$&</title>`. |
| Scenarios.SingleElementLiteral | vite.config.js:22-27 | With `$` escaped, a document that is one inert title element becomes exactly the element holding the configured title. |

## Left out

- `loadEnv(mode, process.cwd(), '')` (vite.config.js:11) reads the process environment and `.env` files, which is I/O. Its result is the `env` map parameter.
- `vue()`, `vueDevTools()` and `defineConfig` (vite.config.js:3-4, 7, 15-16) are library calls with no visible logic.
- `resolve.alias` with `fileURLToPath(new URL('./src', import.meta.url))` (vite.config.js:31-35) is Node path resolution.
- A general regular-expression engine is not modelled. Only the one fixed pattern is, as a hand-written search.
- JavaScript strings are UTF-16 code units; here they are sequences of `char`. Positions differ from JavaScript's whenever an astral character precedes the match, but the output text is the same: no match boundary can fall inside a surrogate pair, because `<` is never a surrogate and `.` accepts either half of one.
- Substitution.GetSubstitution: named capture groups are not modelled. The pattern has none, so `$<` always stays literal, as ECMA-262 prescribes for that case.
- TitleInjector.TransformIdempotent: idempotence is proved only for titles without `$`, line terminators or `</title>`. It does not hold in general: with the title `$&`, each pass nests the element once more (`Scenarios.DollarTitleNotIdempotent`).

## Findings

| source | as written | input that shows it | evidently intended | confidence | as-written member | corrected member |
|---|---|---|---|---|---|---|
| vite.config.js:24-27 | The title goes into the replacement string of `replace`, so `$` sequences in it are expanded. | `VITE_SITE_TITLE = "$&"` with `<title>Old</title>` gives `<title><title>Old</title></title>`. | The configured title is inserted exactly as written: `<title>$&</title>`. | medium, not executed | Scenarios.DollarTitleExpanded | TitleInjector.LiteralTitleReplaced |
