# BotGuardLib bot detector, modelled in Dafny

BotGuardLib's `BotDetector` decides whether an HTTP user agent belongs to a
bot. It holds a set of user-agent patterns and a single matcher compiled from
all of them. The matcher is the patterns joined with `|`, or `^$` when the
joined text is empty. The patterns come from:

- `new`, which folds a newline-separated text to ASCII lowercase and keeps
  its non-blank lines;
- `append`, which inserts the folded fragments;
- `remove`, which deletes the folded fragments.

Each mutation recompiles the matcher through `update_regex`. `check_bot` folds
the user agent and asks the matcher whether it occurs anywhere in it.

The project has four modules:

- `StdText` (`std_text.dfy`) covers the pieces of Rust's standard library the
  detector relies on:
  - `to_ascii_lowercase`;
  - `char::is_whitespace` and `str::trim`;
  - `str::lines`, which splits on `'\n'` and drops one `'\r'` before it.

  It also defines `EqualIgnoringAsciiCase`, equality up to ASCII case in the
  manner of `str::eq_ignore_ascii_case`. The detector never calls that
  function; the predicate only serves to state that `check_bot` ignores
  ASCII case.
- `RegexModel` (`regex_model.dfy`) stands in for the `regex` crate.
  - A fragment is literal text, optionally anchored by a leading `^` and/or a
    trailing `$`.
  - An unanchored fragment matches anywhere in the input, which is an
    unanchored search.
  - A compiled matcher is the alternation of its branches.
- `BotGuard` (`bot_detector.dfy`) has the detector itself:
  - the class `BotDetector`, holding the pattern set and the compiled matcher;
  - its `Valid()` invariant: the matcher equals `ToRegex` of the current set,
    and every stored pattern is ASCII-lowercase;
  - `ParseLines`, `ToRegex` and `Join`;
  - lemmas over whole call sequences.
- `BotGuardCases` (`bot_guard_cases.dfy`) states the repository's own examples
  as lemmas about the model: the empty pattern text, the single pattern `me`,
  the two-line example from the `new` documentation, the appends in the test
  at BotGuardLib/src/lib.rs:222-235, and the `append` documentation at
  BotGuardLib/src/lib.rs:71-73.

`append` and `remove` are methods with `for` loops over their arguments that
update the set in place. `new` and `default` are constructors. `check_bot` is
a function that reads the detector, so it cannot change any state.

`ToRegex` reads the pattern set as a set. The iteration order of the source's
`HashSet` does not matter, and `ToRegexAsWritten` proves that ToRegex agrees
with "join in any order, then fall back to `^$` if empty".

## Model

| member | source | states |
|---|---|---|
| BotGuard.BotDetector.constructor | BotGuardLib/src/lib.rs:49-56 | `new` leaves the detector valid: the matcher equals `to_regex` of the set, and every pattern is lowercase. The set is the non-blank lines of the ASCII-lowercased text. |
| BotGuard.BotDetector.Default | BotGuardLib/src/lib.rs:17-27 | `default` is `new` on the embedded corpus. That corpus is empty in a build without the corpus feature, so the set is empty and the detector is valid. |
| BotGuard.BotDetector.Append | BotGuardLib/src/lib.rs:75-80 | The new set is the old set plus the ASCII-lowercased fragments, nothing else changes in it, and the matcher is rebuilt, so the invariant holds. |
| BotGuard.BotDetector.Remove | BotGuardLib/src/lib.rs:102-107 | The new set is the old set minus the ASCII-lowercased fragments, fragments that are not present are ignored, and the invariant holds. |
| BotGuard.BotDetector.UpdateRegex | BotGuardLib/src/lib.rs:127-129 | Only the matcher field changes, and it becomes `to_regex` of the current set. |
| BotGuard.BotDetector.CheckBot | BotGuardLib/src/lib.rs:119-122 | The answer is the matcher applied to the folded user agent. A set that is empty (or holds only `""`) accepts exactly the empty user agent. Otherwise the answer is true exactly when some stored fragment matches the folded user agent. |
| BotGuard.ParseLinesMember | BotGuardLib/src/lib.rs:131-138 | `parse_lines` keeps a string exactly when it is one of the text's lines and is not all whitespace. Kept lines are not trimmed. |
| BotGuard.NewStoresFoldedNonBlankLines | BotGuardLib/src/lib.rs:49-56 | Folding the whole text and then splitting it gives the same set as folding each non-blank line of the original text. Repeated lines, and lines equal up to ASCII case, become one entry. |
| BotGuard.ParseLinesOfTerminated | BotGuardLib/src/lib.rs:131-138 | For a text written line by line with `\n` or `\r\n`, `parse_lines` gives exactly the set of non-blank written lines. |
| BotGuard.ParsedLinesAreSingleLines | BotGuardLib/src/lib.rs:131-138 | No pattern parsed from a text contains a `\n`. |
| BotGuard.ParsedLinesAreLower | BotGuardLib/src/lib.rs:50 | Every pattern parsed from a folded text is ASCII-lowercase. |
| BotGuard.JoinEmptyIff | BotGuardLib/src/lib.rs:141-147 | Joining with `\|` gives the empty pattern exactly when there are no entries or there is the single entry `""`. |
| BotGuard.ToRegexAsWritten | BotGuardLib/src/lib.rs:140-152 | For every iteration order of the set, `ToRegex` is the `^$` matcher when the joined pattern is empty, and otherwise the alternation of the listed entries. |
| BotGuard.ToRegexMatchesIff | BotGuardLib/src/lib.rs:140-152 | The compiled matcher matches only the empty input when the set is empty or `{""}`. Otherwise it matches exactly when some entry matches. |
| BotGuard.IsBotForIgnoresAsciiCase | BotGuardLib/src/lib.rs:119-122 | Two user agents that are equal up to ASCII case get the same `check_bot` answer. |
| BotGuard.LowerAllIgnoresAsciiCase | BotGuardLib/src/lib.rs:75-80 | Fragment lists that agree position by position up to ASCII case have the same effect on the set. |
| BotGuard.AppendUpperSameEffect | BotGuardLib/src/lib.rs:77 | Appending a fragment and appending its ASCII-uppercased form give the same set. |
| BotGuard.AppendThenRemoveRestores | BotGuardLib/src/lib.rs:75-107 | Adding folded fragments that were all absent, then taking them out, gives back the original set. |
| BotGuard.StoredPatternIsItsOwnFold | BotGuardLib/src/lib.rs:75-107 | A stored pattern is its own fold, so removing it deletes exactly that pattern and appending it again leaves the set unchanged. |
| BotGuard.AppendFoldedSameEffect | BotGuardLib/src/lib.rs:77 | Appending a fragment and appending its ASCII-lowercased form give the same set. |
| BotGuard.RemoveStoredPattern | BotGuardLib/src/lib.rs:102-107 | `remove([p])` for a stored pattern `p` leaves the detector valid and deletes `p` and nothing else. |
| BotGuard.AppendIsIdempotent | BotGuardLib/src/lib.rs:58-80 | Two identical `append` calls leave the same set and matcher as one call. |
| BotGuard.KnownAppendAbsentRemoveAreNoOps | BotGuardLib/src/lib.rs:75-107 | Appending fragments that are already stored, or removing fragments that are absent, changes neither the set nor the matcher. |
| BotGuard.AppendRemoveRoundTrip | BotGuardLib/src/lib.rs:75-107 | `append([f]); remove([f])` on a detector not holding the fold of `f` restores both the set and the matcher. |
| StdText.AsciiLowerIsLower | BotGuardLib/src/lib.rs:50 | The result of `to_ascii_lowercase` has no ASCII capital, and a character is kept exactly when it is not an ASCII capital. |
| StdText.AsciiLowerAppend | BotGuardLib/src/lib.rs:50 | Folding distributes over concatenation. |
| StdText.AsciiLowerFixedIff | BotGuardLib/src/lib.rs:77 | A string is ASCII-lowercase exactly when folding leaves it unchanged. |
| StdText.AsciiLowerIdempotent | BotGuardLib/src/lib.rs:77 | Folding twice is the same as folding once. |
| StdText.AsciiLowerOfUpper | BotGuardLib/src/lib.rs:77 | Uppercasing before folding makes no difference. |
| StdText.EqualIgnoringAsciiCaseIff | BotGuardLib/src/lib.rs:121 | Two strings are equal up to ASCII case exactly when their folds are equal. |
| StdText.TrimStartEmptyIff | BotGuardLib/src/lib.rs:135 | `trim_start` leaves nothing exactly for an all-whitespace string, and otherwise leaves a string that starts with a non-whitespace character. |
| StdText.TrimEndKeepsHead | BotGuardLib/src/lib.rs:135 | `trim_end` never empties a string whose first character is not whitespace. |
| StdText.TrimEmptyIff | BotGuardLib/src/lib.rs:135 | `trim().is_empty()` holds exactly for blank strings. |
| StdText.BlankUnderLower | BotGuardLib/src/lib.rs:50 | Folding neither creates nor removes a blank line. |
| StdText.LinesCons | BotGuardLib/src/lib.rs:134 | Splitting a text with a line before its first `\n` yields that line, without one trailing `\r`, followed by the lines of the rest. |
| StdText.LinesLast | BotGuardLib/src/lib.rs:134 | A non-empty text with no `\n` is one line, kept as it is. |
| StdText.LinesConsCrlf | BotGuardLib/src/lib.rs:134 | A line ended by `\r\n` loses exactly that ending. |
| StdText.NewlineIndexOf | BotGuardLib/src/lib.rs:134 | The first `\n` of `a + "\n" + b` is at `\|a\|` when `a` has none. |
| StdText.LinesHaveNoNewline | BotGuardLib/src/lib.rs:134 | No line contains a `\n`. |
| StdText.LinesCharsFromText | BotGuardLib/src/lib.rs:134 | Every character of every line occurs in the text. |
| StdText.LinesOfTerminated | BotGuardLib/src/lib.rs:134 | Splitting a text written line by line, with `\n` or `\r\n` endings, gives back exactly those lines. |
| StdText.LowerEachMember | BotGuardLib/src/lib.rs:50 | A string is among the folded lines exactly when it is the fold of one of the lines. |
| StdText.LinesOfLower | BotGuardLib/src/lib.rs:50 | Splitting the folded text gives the folded lines of the text: folding and `lines` commute. |
| RegexModel.SubstringIff | BotGuardLib/src/lib.rs:120-121 | An unanchored fragment occurs in the input exactly when some suffix of the input starts with it. |
| RegexModel.SubstringTooLong | BotGuardLib/src/lib.rs:120-121 | An unanchored fragment longer than the input never matches it. |
| RegexModel.AnchoredEmptyMatches | BotGuardLib/src/lib.rs:148 | The `^$` fallback matches the empty input and nothing else. |
| RegexModel.SubstringNeedsHead | BotGuardLib/src/lib.rs:120-121 | A fragment whose first character is absent from the input does not occur in it. |
| RegexModel.SubstringOfAppend | BotGuardLib/src/lib.rs:120-121 | An occurrence in a tail is an occurrence in the whole input. |
| BotGuardCases.EmptyPatternText | BotGuardLib/src/lib.rs:196-203 | An empty pattern text stores nothing. The detector accepts `""` and rejects every non-empty user agent, `"1"` and `"Googlebot"` among them. |
| BotGuardCases.SinglePatternText | BotGuardLib/src/lib.rs:205-208 | The text `me` stores the one pattern `me`. |
| BotGuardCases.SinglePatternRejectsShort | BotGuardLib/src/lib.rs:209-210 | The pattern `me` rejects `""` and `"M"`. |
| BotGuardCases.SinglePatternAcceptsMe | BotGuardLib/src/lib.rs:211 | The pattern `me` accepts `"Me"`. |
| BotGuardCases.SinglePatternRejectsGooglebot | BotGuardLib/src/lib.rs:212 | The pattern `me` rejects `"Googlebot"`. |
| BotGuardCases.NewCollapsesRepeatsAndBlanks | BotGuardLib/src/lib.rs:131-138 | The text holding `me`, `ME` and a line of one space stores only `me`. |
| BotGuardCases.TwoLineExampleText | BotGuardLib/src/lib.rs:40-43 | The example text, which starts with an empty line, stores the two patterns `^googlebot-image/` and `bingpreview/`. |
| BotGuardCases.TwoLineExampleAcceptsImage | BotGuardLib/src/lib.rs:45 | Those patterns accept `Googlebot-Image/1.0` through the anchored one. |
| BotGuardCases.TwoLineExampleAcceptsPreview | BotGuardLib/src/lib.rs:46 | Those patterns accept any user agent that ends in `BingPreview/1.0b`. |
| BotGuardCases.TwoLineExampleRejectsGooglebot | BotGuardLib/src/lib.rs:47 | Those patterns reject `Googlebot`. |
| BotGuardCases.StoredFragmentMatches | BotGuardLib/src/lib.rs:119-122 | A stored non-empty fragment that matches the folded user agent makes `check_bot` answer true. |
| BotGuardCases.FoldedPrefix | BotGuardLib/src/lib.rs:121 | A user agent that starts with `head` folds to a text that starts with the fold of `head`. |
| BotGuardCases.AddMultipleAcceptsAnchored | BotGuardLib/src/lib.rs:229-234 | After appending `TestCatalyzeBot`, `^GoogleMetaverse` and `^Special/` to any pattern set, every user agent starting with `Special/` or with `GoogleMetaverse` is a bot, `Special/1.0` and `GoogleMetaverse/2.1 (experimental)` among them. |
| BotGuardCases.AppendExampleAcceptsMetaverse | BotGuardLib/src/lib.rs:71-73 | After appending `GoogleMetaverse` and `^Special/` to any pattern set, every user agent containing `GoogleMetaverse` is a bot, `Mozilla/5.0 (GoogleMetaverse/1.0)` among them. |
| BotGuardCases.EmptyFragmentAlone | BotGuardLib/src/lib.rs:141-149 | Appending `""` to an empty detector gives `{""}`. That set joins to the empty pattern, so the detector falls back to `^$` and rejects `"a"`, although the empty fragment on its own occurs in every input. |

## Left out

- The `regex` crate is not modelled as an engine. A fragment is literal text with optional `^`/`$` anchors. Character classes, repetition, escapes, groups and every other metacharacter are read literally. A fragment holding `|` or parentheses could change how the joined pattern parses, and so could a fragment ending in `\`, which escapes the `|` the join puts after it (`a\` joined with `b` gives `a\|b`); none of this is captured. Folding regex text to ASCII lowercase also changes what escapes mean (`\S` becomes `\s`, `\D` becomes `\d`, `\W` becomes `\w`, `\B` becomes `\b`, `\A` becomes `\a`), which the literal reading hides: the model treats `\S` and `\s` as the same fragment, as the fold does, but cannot show that their meanings differ. For the same reason the test at BotGuardLib/src/lib.rs:267-280 (`\s+`, `\d{4}`) is not modelled.
- `Regex::new(..).unwrap()` panics when a fragment does not compile. That panic, and the fact that `append` has already inserted into the set when it happens, are not modelled: every fragment is taken to compile.
- The corpus feature's `include_str!` file does not exist. `BotDetector.Default` models only the build without the feature, where the corpus is the empty string. The tests that rely on a corpus (BotGuardLib/src/lib.rs:178-192 and 237-264), and the documentation examples that expect the corpus to hold patterns (BotGuardLib/src/lib.rs:90-100 and 114-117), are not modelled.
- The asserts at BotGuardLib/src/lib.rs:219 and 232 are not modelled. They expect the pattern `testcatalyzebot\s/\d\.\d` (or `testcatalyzebot`) to match `mozilla/5.0 (fancynewtestb0t /1.2)`, which does not contain that text, so no reading of the pattern makes them hold. The other asserts of the test at lib.rs:222-235 are stated as lemmas (`BotGuardCases.AddMultipleAcceptsAnchored` for lines 233-234, and `BotGuardCases.EmptyPatternText` for the asserts before the append at lines 225-227).
- The documentation example at BotGuardLib/src/lib.rs:66-69 is not modelled. It holds in the source, because the regex `customnewtestb0t\s/\d\.\d` matches `customnewtestb0t /1.2`, but it needs the escapes `\s` and `\d`, and the model reads fragments literally. The part of the same example at lib.rs:71-73 needs no escapes and is stated as `BotGuardCases.AppendExampleAcceptsMetaverse`, for any patterns stored before the append.
- `HashSet` iteration order is not modelled. The set is a Dafny `set`, and `ToRegexAsWritten` covers every order.
- Only ASCII case folding is modelled, as `to_ascii_lowercase` does. There is no Unicode case folding.
- Strings are sequences of Unicode scalar values. UTF-8 byte layout is not modelled.
- `Debug` formatting of the struct is not modelled.
- The source has no error path for a bad pattern and no atomic `append`, so neither exists in the model. `append` and `remove` cannot fail here.
- A pattern set holding only the empty fragment joins to the empty pattern. It therefore behaves like the empty set, accepting only the empty user agent, although `""` as a fragment would match every input. This is what the code does, and the model keeps it (see `BotGuardCases.EmptyFragmentAlone`).
