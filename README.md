# Text analysis component, modelled in Dafny

This project models the logic of `TextAnalysisApp`, a React component for text analysis. A user types text and can do three things with it:

- **Count Words.** Shows the number of distinct words twice: once case-insensitive and once case-sensitive. A word is a match of the global regular expression `\b\w+\b`. Distinct words are counted by putting the matches in a `Set`.
- **Count Characters.** Shows the number of ASCII letters and digits.
- **Replace Word.** Replaces every match of `new RegExp("(" + search + ")", "g")` with `<mark>` + replacement + `</mark>`, using `String.prototype.replaceAll`. The result is shown as HTML.

**Clear** resets everything.

The model has three modules and a module of worked examples:

- `TextMetrics` (`text_metrics.dfy`), pure functions:
  - the scan of `\b\w+\b` over a string: `WordMatches`, `Tokens`;
  - the distinct-word count, `UniqueWordCount`;
  - ASCII lowercasing, `ToLowerCase`;
  - the filter `replace(/[^a-zA-Z0-9]/g, '')` and its length: `StripNonAlnum`, `CharacterCount`.
- `TextTransformer` (`text_transformer.dfy`), pure functions:
  - the scan of a literal pattern with `lastIndex`: `MatchPositions`;
  - the ECMAScript replacement template with its `$` patterns (`GetSubstitution`, section 22.1.3.19.1 of ECMA-262): `Expand`;
  - the result of `replaceAll`: `Splice`, `ReplaceAllHighlighted`.
- `TextAnalysis` (`text_analysis_app.dfy`):
  - the eight `useState` cells are the fields of the class `TextAnalysisApp`; `null` is `None`;
  - each event handler is a method that overwrites only the cells the handler sets;
  - `Valid()` is the invariant every handler keeps. The two word counts are present together, the case-insensitive count is never the larger, and no count is present before an operation is chosen.
- `Examples` (`worked_examples.dfy`): concrete inputs carried through the model.

A JavaScript string is modelled as a sequence of Dafny `char`. A Dafny `char` is a Unicode scalar value, so a model character stands for one UTF-16 code unit only in texts without surrogate code units; "## Left out" says what this changes. The regular expressions carry no `u` or `i` flag. So `\w` and `[a-zA-Z0-9]` are ASCII classes, and a `\b` test looks only at the characters on either side.

`"a b-c1!"` has character count 4: the filter keeps `a`, `b`, `c` and `1` (`Examples.CharacterCountExample`).

## Model

| member | source | states |
|---|---|---|
| TextMetrics.RunEnd | src/components/TextAnalysisApp.js:28 | the greedy `\w+` begun at i stops at the end of the string or at the first non-word character; everything it passes over is a word character |
| TextMetrics.WordMatches | src/components/TextAnalysisApp.js:28 | every match of `\b\w+\b` found from lastIndex i starts at or after i and is a maximal run of word characters; the matches are in text order and do not overlap |
| TextMetrics.WordMatchesCover | src/components/TextAnalysisApp.js:28 | a scan begun at a run edge finds every word character after it inside some match |
| TextMetrics.Tokens | src/components/TextAnalysisApp.js:28 | every element of `text.match(/\b\w+\b/g) \|\| []` is non-empty and made only of word characters |
| TextMetrics.TokensAreMaximalRuns | src/components/TextAnalysisApp.js:28 | the tokens are exactly the maximal runs of word characters; there is one token per match, each is the text of its match, they are in text order, and every word character lies inside one |
| TextMetrics.NoTokensIffNoWordChars | src/components/TextAnalysisApp.js:28 | `match` yields no token (the `\|\| []` case), the empty text included, exactly when the text has no word character |
| TextMetrics.SetOfSeqBounds | src/components/TextAnalysisApp.js:29 | a `Set` built from a list has no more elements than the list, and at least one exactly when the list is not empty |
| TextMetrics.UniqueWordCount | src/components/TextAnalysisApp.js:27-31 | `new Set(words).size` for the tokens of the text: at most the number of tokens, and at least 1 exactly when there is a token |
| TextMetrics.UniqueWordCountZero | src/components/TextAnalysisApp.js:27-31 | the unique count is 0 exactly when the text has no word character |
| TextMetrics.ToLowerCharKeepsWordClass | src/components/TextAnalysisApp.js:21 | lowercasing a character neither makes nor unmakes a word character, and never yields an ASCII capital |
| TextMetrics.ToLowerCase | src/components/TextAnalysisApp.js:21 | `toLowerCase` keeps the length and leaves no ASCII capital; each capital becomes the lowercase letter 32 code points above it, and every other character is unchanged |
| TextMetrics.LowerCaseIdempotent | src/components/TextAnalysisApp.js:21 | lowercasing a lowercased text changes nothing |
| TextMetrics.LowerCaseSameMatches | src/components/TextAnalysisApp.js:21 | the scan of the lowercased text finds the same match positions as the scan of the text |
| TextMetrics.LowerCaseTokens | src/components/TextAnalysisApp.js:21 | the tokens of the lowercased text are the text's tokens lowercased one by one, as many and in the same order |
| TextMetrics.ImageNoLarger | src/components/TextAnalysisApp.js:21-22 | lowercasing every element of a set of words cannot make the set larger |
| TextMetrics.LoweredSeqNoMoreDistinct | src/components/TextAnalysisApp.js:21-22 | a word list lowercased element by element has no more distinct words than the list |
| TextMetrics.CaseInsensitiveAtMostSensitive | src/components/TextAnalysisApp.js:20-31 | for every text, the case-insensitive unique word count is at most the case-sensitive one |
| TextMetrics.StripNonAlnum | src/components/TextAnalysisApp.js:35 | the filtered text is no longer than the text and holds only ASCII letters and digits |
| TextMetrics.StripKeepsExactlyAlnum | src/components/TextAnalysisApp.js:35 | the filter keeps every occurrence of each letter or digit and drops every other character (as multisets) |
| TextMetrics.StripEmptyIffNoAlnum | src/components/TextAnalysisApp.js:35 | the filtered text is empty exactly when the text has no ASCII letter or digit |
| TextMetrics.StripFullIffAllAlnum | src/components/TextAnalysisApp.js:35 | the filtered text is as long as the text exactly when every character is an ASCII letter or digit |
| TextMetrics.CharacterCount | src/components/TextAnalysisApp.js:34-37 | `chars.length` is at most the text's length; it is 0 exactly when the text has no ASCII letter or digit, and equals the text's length exactly when every character is one |
| TextTransformer.Advance | src/components/TextAnalysisApp.js:41-42 | after a match, lastIndex moves on by at least one and at least the match's length |
| TextTransformer.MatchPositions | src/components/TextAnalysisApp.js:41-42 | every match index found from lastIndex i is an occurrence of the search string; the matches do not overlap and fit in the text, and empty matches are one index apart |
| TextTransformer.MatchPositionsComplete | src/components/TextAnalysisApp.js:41-42 | every occurrence at or after i is a match or starts inside an earlier match, so the global scan misses none |
| TextTransformer.NoMatchIffNoOccurrence | src/components/TextAnalysisApp.js:41-42 | there is no match exactly when the search string occurs nowhere in the text |
| TextTransformer.RefLength | src/components/TextAnalysisApp.js:42 | the reference at the head of a replacement template is 1 to 3 characters long and lies inside the template; only a reference that starts with `$` is longer than one character |
| TextTransformer.Expand | src/components/TextAnalysisApp.js:42 | the empty replacement template gives the empty string, and a template of one character, a lone `$` included, stands for itself |
| TextTransformer.ExpandReferences | src/components/TextAnalysisApp.js:42 | what `RefReplacement` makes of each reference, whatever follows it in the template: `$$` gives `$`, `$&` the match, `` $` `` the text before the match and `$'` the text after it; the rest of the template is expanded after it |
| TextTransformer.ExpandGroupReferences | src/components/TextAnalysisApp.js:42 | `$1` and `$01`, the references to the pattern's one capture group, give the match whatever follows them, so `$12` is `$1` then `2` |
| TextTransformer.ExpandNonReferences | src/components/TextAnalysisApp.js:42 | a `$` that starts no reference is copied: `$0` not followed by `1`, and a `$` followed by none of `$&`'0` and `1` |
| TextTransformer.ExpandPlain | src/components/TextAnalysisApp.js:42 | a replacement string without `$` is inserted exactly as written |
| TextTransformer.ExpandHeadAppend | src/components/TextAnalysisApp.js:42 | when the right part cannot complete a reference begun on the left, the expansion of a joined template starts with the left part's first reference |
| TextTransformer.ExpandAppend | src/components/TextAnalysisApp.js:42 | a template expands piecewise where its right part cannot complete a reference begun on the left |
| TextTransformer.ExpandPrefix | src/components/TextAnalysisApp.js:42 | a `$`-free start of a template is copied and the rest is expanded |
| TextTransformer.ExpandBetween | src/components/TextAnalysisApp.js:42 | a template between two `$`-free parts expands on its own, the parts copied around it |
| TextTransformer.ExpandPlainAt | src/components/TextAnalysisApp.js:42 | a replacement string without `$` is inserted exactly as written at every match |
| TextTransformer.Markup | src/components/TextAnalysisApp.js:42 | the template literal adds 13 characters around the replacement string, which it holds unchanged at offset 6; every `$` of the template comes from the replacement string |
| TextTransformer.ExpandMarkup | src/components/TextAnalysisApp.js:42 | expanding `<mark>${replaceString}</mark>` expands only the user's replacement string and keeps both tags |
| TextTransformer.Splice | src/components/TextAnalysisApp.js:42 | the result's length is the text's length from `from` on, less the matched characters, plus the lengths of the fills |
| TextTransformer.Substitutions | src/components/TextAnalysisApp.js:42 | there is one replacement per match, and a template without `$` gives the template itself at every match |
| TextTransformer.SpliceRestores | src/components/TextAnalysisApp.js:42 | putting the search string back at every match gives back the text |
| TextTransformer.ReplaceAllHighlighted | src/components/TextAnalysisApp.js:40-43 | when the search string does not occur in the text, `replaceAll` returns the text unchanged |
| TextTransformer.ReplaceAllShape | src/components/TextAnalysisApp.js:41-42 | the result is the text with every match replaced by `<mark>`, the expanded replacement and `</mark>`; it has one wrapper per match, the gaps are copied verbatim, and the search string put back at each wrapper restores the text |
| TextTransformer.ReplaceAllPlain | src/components/TextAnalysisApp.js:42 | with a replacement string free of `$`, every wrapper holds exactly `<mark>` + the replacement string + `</mark>` |
| TextTransformer.ReplaceAllPlainLength | src/components/TextAnalysisApp.js:40-43 | with a replacement string free of `$`, each of the n matches trades its own length for the replacement string and the 13 characters of the tags |
| TextAnalysis.TextAnalysisApp.constructor | src/components/TextAnalysisApp.js:5-12 | the initial state: all four strings empty, the three counts and the active operation `null`; the invariant holds |
| TextAnalysis.TextAnalysisApp.HandleTextChange | src/components/TextAnalysisApp.js:15-17 | typing replaces the text and changes nothing else, so counts already shown stay stale until recomputed |
| TextAnalysis.TextAnalysisApp.SetSearchString | src/components/TextAnalysisApp.js:123-129 | the search input, shown only on the Replace Word panel, sets the search string and nothing else |
| TextAnalysis.TextAnalysisApp.SetReplaceString | src/components/TextAnalysisApp.js:130-136 | the replace-with input, shown only on the Replace Word panel, sets the replacement string and nothing else |
| TextAnalysis.TextAnalysisApp.GenerateUniqueWordCountInsensitive | src/components/TextAnalysisApp.js:20-24 | sets the case-insensitive count to the number of distinct tokens of the lowercased text, touching no other cell |
| TextAnalysis.TextAnalysisApp.GenerateUniqueWordCountSensitive | src/components/TextAnalysisApp.js:27-31 | sets the case-sensitive count to the number of distinct tokens of the text, touching no other cell |
| TextAnalysis.TextAnalysisApp.GenerateCharacterCount | src/components/TextAnalysisApp.js:34-37 | sets the character count to the number of ASCII letters and digits of the text, touching no other cell |
| TextAnalysis.TextAnalysisApp.HandleReplace | src/components/TextAnalysisApp.js:40-44 | sets the modified text to the highlighted replace-all of the text and changes nothing else; the invariant is kept |
| TextAnalysis.TextAnalysisApp.HandleClear | src/components/TextAnalysisApp.js:47-56 | every cell returns to its initial value and the invariant holds |
| TextAnalysis.TextAnalysisApp.CountWordsClicked | src/components/TextAnalysisApp.js:76-80 | selects the Count Words panel and sets both unique counts from the current text; the invariant, including insensitive ≤ sensitive, is kept |
| TextAnalysis.TextAnalysisApp.CountCharsClicked | src/components/TextAnalysisApp.js:86-89 | selects the Count Characters panel and sets the character count from the current text; the invariant is kept |
| TextAnalysis.TextAnalysisApp.ReplaceWordClicked | src/components/TextAnalysisApp.js:95 | selects the Replace Word panel and changes nothing else |
| TextAnalysis.CountWordsTwiceThenClear | src/components/TextAnalysisApp.js:47-80 | pressing Count Words twice without editing the text shows the same counts both times: the unique words of the lowercased text and of the text, the first never larger. Clear then sets all four strings to empty and the three counts and the active operation to `null`, from any valid state |
| TextAnalysis.ReplaceFlow | src/components/TextAnalysisApp.js:121-137 | opening Replace Word, typing both strings and pressing Replace All leaves the Replace Word panel open and the two strings as typed. It keeps the text, both word counts and the character count, and shows the highlighted result, which is the text itself when the search string does not occur |
| Examples.CharacterCountExample | src/components/TextAnalysisApp.js:34-37 | `"a b-c1!"` has character count 4 |
| Examples.MatchesHiExample | src/components/TextAnalysisApp.js:28 | the scan of `"Hi hi"` finds the runs [0, 2) and [3, 5) |
| Examples.TokensExample | src/components/TextAnalysisApp.js:27-31 | `"Hi hi"` has tokens `Hi`, `hi` and case-sensitive unique count 2 |
| Examples.LowerTokensExample | src/components/TextAnalysisApp.js:20-24 | lowercased, `"Hi hi"` has tokens `hi`, `hi` and case-insensitive unique count 1 |
| Examples.MatchesExample | src/components/TextAnalysisApp.js:41-42 | searching `a` in `"a b a"` matches at indices 0 and 4 |
| Examples.EmptySearchExample | src/components/TextAnalysisApp.js:41-42 | the empty search string matches at indices 0 and 1 of a text of one model character |
| Examples.SpliceExample | src/components/TextAnalysisApp.js:42 | filling both matches of `"a b a"` keeps `" b "` between the fills |
| Examples.ReplaceExample | src/components/TextAnalysisApp.js:40-43 | replacing `a` by `X` in `"a b a"` gives `<mark>X</mark> b <mark>X</mark>` |
| Examples.TemplateExample | src/components/TextAnalysisApp.js:42 | for the match `b` at index 1 of `"ab"`: `$&` is `b`, `$$` is `$`, `` $` `` is `a`, `$'` is empty, and `$2` (no such group) stays `$2` |

## Left out

- TextAnalysis.TextAnalysisApp.HandleReplace: requires the search string to contain no regular-expression syntax character (`^ $ \ . * + ? ( ) [ ] { } |`). The code passes the search string to `new RegExp` as a pattern. A search string with such characters is matched as a regular expression, or throws a `SyntaxError` when it is malformed. The model covers only literal search strings.
- TextAnalysis.ReplaceFlow: requires the search string to contain no regular-expression syntax character, for the reason given on the `HandleReplace` line above. The scenario is proved only for literal search strings.
- TextMetrics.ToLowerCase: lowercases only `A`–`Z`, while `toLowerCase` applies the full Unicode case mapping. Outside ASCII the mapping can change what `\w` sees: the Kelvin sign (U+212A) is not a word character, but it lowercases to `k`, which is one.
- TextMetrics.CaseInsensitiveAtMostSensitive: proved for the ASCII mapping only. Under the full mapping it fails for a text holding only the Kelvin sign, where the case-sensitive count is 0 and the case-insensitive count is 1.
- Code units: JavaScript strings are sequences of UTF-16 code units, but a model string is a sequence of Unicode scalar values. A model `char` stands for one code unit only in texts without surrogate code units. A lone surrogate cannot be written at all, and a character outside the Basic Multilingual Plane is one model character where JavaScript sees two code units. None of the three regular expressions has the `u` flag, so JavaScript treats each code unit on its own. This changes counts and positions for such texts: for example, `"😀".replaceAll(/()/g, "<mark></mark>")` puts a wrapper at code units 0, 1 and 2, three wrappers, while the model's `MatchPositions("\U{1F600}", "", 0)` is `[0, 1]`, two wrappers (`Examples.EmptySearchExample`).
- Named groups: the `$<name>` replacement pattern is kept literally, as it is for a pattern without named groups. Since the search string is literal, the pattern has no named groups.
- Rendering: the JSX, the CSS and the conditional panels are not modelled. This includes showing the modified text as HTML through `dangerouslySetInnerHTML`, and its HTML injection. The only trace of the panels is that the replace inputs and the Replace All button require the Replace Word panel to be open.
- React: state updates are applied at once, in order. React's batching of updates and re-rendering are not modelled. Every handler reads the state of the render that created it, which in this component is the current state.
- DOM events: an input's `onChange` event is modelled by its new value alone.
