# sub-fixer, modelled in Dafny

sub-fixer repairs Persian subtitle files in the SRT format. `Subtitle::fix`
runs five stages over the whole text of a file, in this order:

1. It strips the italic tags `<i>` and `</i>`.
2. It turns Arabic yeh (U+064A) and kaf (U+0643) into Persian yeh (U+06CC) and keheh (U+06A9).
3. It turns the ASCII `?` into the Arabic question mark (U+061F).
4. It drops the right-to-left embedding character (U+202B).
5. It splits the text into lines and sorts each line into one of four kinds: timestamp, blank, sequence number or dialogue. Only dialogue lines change: their ASCII digits become Extended Arabic-Indic (Persian) digits. The lines are then joined again with `"\n"`.

The project has four modules, one per file:

- `Text` (`text.dfy`) models the Rust standard-library string operations the
  fixer is built from:
  - `remove_matches`, `replace`, `lines` and `trim`, with `lines` defined through `Pieces`, the pieces `str::split` would give;
  - joining lines with a separator.
- `Patterns` (`patterns.dfy`) models the fixer's `regex` module:
  - the two line shapes, as predicates;
  - the digit table `PERSIAN_NUMBERS`.
- `Subtitles` (`subtitle.dfy`) models the `Subtitle` type:
  - Each stage is a function on the text.
  - `fix_line`, the per-line closure, is a method.
  - Its digit loop is a method.
  - The object is a class whose `contents` field the stage methods update, as the Rust methods do through `&mut self`.
  - Each method is proved equal to its specification function.
  - The lemmas state what the stages promise.
- `Scenarios` (`scenarios.dfy`) computes concrete runs:
  - every line of the unit tests, one line at a time: the tagged, Arabic-letter, question-mark and digit lines through the whole of `fix`, the sequence numbers and timestamps through `fix_line`;
  - the last block of the digit test (number, timestamp, dialogue) as one three-line text;
  - the two inputs described below.

Two properties one might expect of the fixer do not hold of its code. The model follows the code, and `Scenarios` exhibits both:

- Running `fix` twice can change the text again. In `<<i>i>` the inner tag is removed, which leaves a new `<i>`. Stage 5 alone does not have this problem: `fix_line` applied to its own result changes nothing, and so does stage 5 on text without `'\r'` and without a final `'\n'`.
- The number of lines is not kept. A blank last line is joined without a `"\n"` after it, so `a\n\n` (two lines) becomes `a\n` (one line).

## Model

| member | source | states |
|---|---|---|
| `Text.RemoveMatchesDeletesOccurrences` | src/lib.rs:50-53 | `remove_matches` cuts the text at the occurrences of the pattern, left to right and without overlap; joining the pieces with the pattern gives the text back; no piece holds the pattern; the result is the pieces laid end to end, in order |
| `Text.RemoveMatchesUnchangedIff` | src/lib.rs:51-52 | `remove_matches` leaves the text unchanged exactly when the pattern does not occur in it |
| `Text.RemoveMatchesKeepsChars` | src/lib.rs:51-52 | `remove_matches` only deletes: the multiset of the result is contained in that of the text |
| `Text.RemoveCharDeletesAll` | src/lib.rs:65 | removing a one-character pattern leaves no copy of that character and keeps every other character exactly as often |
| `Text.ReplaceChar` | src/lib.rs:56-57 | `replace` of a character keeps the length, puts the replacement at every position of the target, and keeps every other position |
| `Text.ReplaceCharInverse` | src/lib.rs:56-61 | replacing back undoes a replacement whenever the replacement character was absent; no target is left after a replacement by a different character |
| `Text.LinesChars` | src/lib.rs:95 | `lines()` yields lines without `'\n'`, built only from characters of the text |
| `Text.LinesEmptyIff` | src/lib.rs:95 | `lines()` yields no line exactly when the text is empty |
| `Text.LinesJoin` | src/lib.rs:93-98 | splitting a text into lines and joining them with `"\n"` gives the text back when it holds no `'\r'` and does not end in `'\n'` |
| `Text.PiecesOfJoin` | src/lib.rs:97-98 | lines without the separator that are joined with it are recovered by splitting at it |
| `Text.TrimEmptyIff` | src/lib.rs:72 | `trim()` leaves nothing exactly when every character is Unicode whitespace |
| `Text.IsWhitespace` | src/lib.rs:72 | the Unicode White_Space property: the set `char::is_whitespace` accepts, which `trim()` strips and which the regex class `\s` of the timestamp pattern (src/lib.rs:10) also denotes |
| `Text.RemoveMatches` | src/lib.rs:51-52 | definition of `remove_matches`: a left-to-right scan that deletes each occurrence of the pattern not overlapping an earlier one; an empty pattern deletes nothing; the result is never longer than the text |
| `Text.Pieces` | src/lib.rs:95 | helper behind `lines()` (and the description of what `remove_matches` keeps), giving the pieces `str::split` would give at a non-empty pattern: the text between the occurrences that `RemoveMatches` deletes; there is at least one piece and the first is a prefix of the text |
| `Text.Join` | src/lib.rs:97-98 | definition of `intersperse` followed by `collect`: the pieces with the separator between neighbours, so `n` pieces get `n - 1` separators |
| `Text.Lines` | src/lib.rs:95 | definition of `lines()`: the pieces between `'\n'`, each losing one `'\r'` before a removed `'\n'`, with the empty remainder after a final `'\n'` dropped |
| `Text.Trim` | src/lib.rs:72 | definition of `trim()`: Unicode whitespace removed from both ends |
| `Text.RemoveMatchesSkipsPrefix` | src/lib.rs:51-52 | `remove_matches` passes over a prefix that does not hold the pattern's first character and works on the rest alone |
| `Text.RemoveMatchesLeadingMatch` | src/lib.rs:51-52 | a text that starts with the pattern loses that occurrence first |
| `Text.ReplaceCharConcat` | src/lib.rs:56-61 | `replace` of a character acts on the parts of a text independently |
| `Patterns.IsDecimalDigit` | src/lib.rs:10-11 | the regex class `\d` in Unicode mode: general category Nd as listed by Unicode 15.0 |
| `Patterns.IsTimestamp` | src/lib.rs:9-10 | definition of the anchored timestamp pattern: exactly two clock readings `dd:dd:dd,ddd`, of `\d` digits, joined by one whitespace character, `-->` and one whitespace character |
| `Patterns.IsLineNumber` | src/lib.rs:11 | definition of `^\d+$`: a non-empty run of `\d` digits and nothing else |
| `Patterns.PersianNumbersShape` | src/lib.rs:18-29 | row `d` of `PERSIAN_NUMBERS` pairs ASCII digit `d` with code point U+06F0 + `d`; that glyph is not an ASCII digit and is a decimal digit (`\d`) |
| `Patterns.DigitValue` | src/lib.rs:81-82 | an ASCII digit's value is the table row whose first component is that digit |
| `Subtitles.WithoutItalics` | src/lib.rs:50-53 | definition of stage 1: every `<i>` removed, then every `</i>` of what is left |
| `Subtitles.WithPersianQuestionMarks` | src/lib.rs:60-62 | definition of stage 3: every `?` replaced by U+061F |
| `Subtitles.WithoutRtlEmbedding` | src/lib.rs:64-66 | definition of stage 4: every U+202B removed |
| `Subtitles.IsBlank` | src/lib.rs:72 | the guard `l.trim().is_empty()`: the line trims to nothing |
| `Subtitles.Classify` | src/lib.rs:70-73 | definition of the guards of `fix_line`, tried in the source's order: timestamp, blank after `trim()`, line number, otherwise dialogue |
| `Subtitles.FixedLine` | src/lib.rs:69-91 | definition of `fix_line`: a dialogue line gets Persian digits, every other kind of line is returned as given |
| `Subtitles.FixedLines` | src/lib.rs:96 | `.map(fix_line)`: `fix_line` applied to each line, in order, one result per line |
| `Subtitles.FixedText` | src/lib.rs:93-98 | definition of stage 5: `fix_line` mapped over `lines()` and the results joined with `"\n"` |
| `Subtitles.Cleaned` | src/lib.rs:42-45 | definition of stages 1 to 4, in the order `fix` calls them |
| `Subtitles.Fixed` | src/lib.rs:41-48 | definition of the whole of `fix`: stage 5 applied to the result of stages 1 to 4 |
| `Subtitles.WithPersianLetters` | src/lib.rs:55-58 | the two `replace` calls of stage 2 amount to one substitution per character: yeh to Persian yeh, kaf to keheh, every other character kept, length kept |
| `Subtitles.PersianDigits` | src/lib.rs:80-83 | after all ten replacements, each ASCII digit of a dialogue line is the Persian digit of its row, every other character stays in place, and no ASCII digit is left |
| `Subtitles.LocalizeDigits` | src/lib.rs:80-83 | the loop over `PERSIAN_NUMBERS`, one `replace` per row, computes `PersianDigits` of the line |
| `Subtitles.FixLine` | src/lib.rs:69-91 | the `fix_line` closure returns timestamp, blank and line-number lines as given and the Persian-digit form of a dialogue line |
| `Subtitles.Subtitle.constructor` | src/lib.rs:37-39 | `new` stores the text as the contents |
| `Subtitles.Subtitle.Fix` | src/lib.rs:41-48 | `fix` runs the five stages in order; the returned text is the final contents and equals the whole pipeline applied to the initial contents |
| `Subtitles.Subtitle.RemoveItalics` | src/lib.rs:50-53 | the new contents are the old with every `<i>` removed, then every `</i>` |
| `Subtitles.Subtitle.ReplaceArabicChars` | src/lib.rs:55-58 | the new contents are the old with Arabic yeh and kaf replaced |
| `Subtitles.Subtitle.ReplaceQuestionMark` | src/lib.rs:60-62 | the new contents are the old with every `?` replaced by U+061F |
| `Subtitles.Subtitle.RemoveRtlChar` | src/lib.rs:64-66 | the new contents are the old without U+202B |
| `Subtitles.Subtitle.FixOthers` | src/lib.rs:68-100 | the loop applies `fix_line` to every line in order, and the new contents are the fixed lines joined by `"\n"` |
| `Subtitles.WithoutItalicsUnchangedIff` | src/lib.rs:50-53 | stage 1 leaves the text unchanged exactly when it holds neither `<i>` nor `</i>` |
| `Subtitles.PersianLettersReplaceAll` | src/lib.rs:55-58 | after stage 2 no Arabic yeh or kaf is left, every other character is kept, and a second pass changes nothing |
| `Subtitles.PersianLettersRoundTrip` | src/lib.rs:55-58 | mapping the Persian letters back undoes stage 2 on text that held no Persian yeh or keheh |
| `Subtitles.QuestionMarksReplaceAll` | src/lib.rs:60-62 | after stage 3 no `?` is left, each `?` became U+061F, every other character (an existing U+061F included) is kept, the length is kept, and a second pass changes nothing |
| `Subtitles.RtlEmbeddingRemovedAll` | src/lib.rs:64-66 | after stage 4 no U+202B is left; every other character is kept as often and in order (the pieces between the removed characters, laid end to end); a second pass changes nothing |
| `Subtitles.ClassifyByShape` | src/lib.rs:70-73 | the guards of `fix_line` never overlap: a line is classed as timestamp exactly when it matches the timestamp pattern, as blank exactly when it trims to nothing, and as line number exactly when it matches `^\d+$`; it is dialogue exactly when none of them holds |
| `Subtitles.LocalizeRow` | src/lib.rs:81-82 | one `replace` call of the digit loop adds its row to the rows already done, without touching an earlier replacement |
| `Subtitles.ReplacementOrderIrrelevant` | src/lib.rs:81-83 | any order of the table's `replace` calls that uses every row gives the same dialogue line |
| `Subtitles.FixedLineUnchangedIff` | src/lib.rs:69-91 | `fix_line` returns its line unchanged exactly when the line is not dialogue or holds no ASCII digit |
| `Subtitles.DigitFreeKept` | src/lib.rs:80-83 | the digit loop leaves a line without ASCII digits as it is |
| `Subtitles.ExchangedClassify` | src/lib.rs:70-73 | the guards of `fix_line` give the same kind to two lines that differ only where both hold decimal digits, since `\d` accepts the Persian digits as well as the ASCII ones |
| `Subtitles.FixedLineKeepsKind` | src/lib.rs:69-91 | the line `fix_line` returns has the same kind as the line it was given |
| `Subtitles.FixedLineIdempotent` | src/lib.rs:69-91 | applying `fix_line` to its own result changes nothing |
| `Subtitles.FixedLineChars` | src/lib.rs:69-91 | `fix_line` writes only characters of its line and Persian digits |
| `Subtitles.FixedTextChars` | src/lib.rs:93-98 | stage 5 adds only `'\n'` and Persian digits to the characters of the text |
| `Subtitles.FixedTextLineByLine` | src/lib.rs:93-98 | stage 5 turns the empty text into the empty text; otherwise the result, cut at `'\n'`, is exactly `fix_line` of each input line, in order |
| `Subtitles.FixedTextOfLines` | src/lib.rs:93-98 | stage 5 on lines joined with `"\n"` (none holding `'\n'` or `'\r'`, the last not empty) gives `fix_line` of each line, joined the same way |
| `Subtitles.FixedTextIdempotent` | src/lib.rs:93-98 | on text without `'\r'` and without a final `'\n'`, running stage 5 twice gives the same text as running it once |
| `Subtitles.FixedTextKeepsNonDialogue` | src/lib.rs:70-73 | a text whose lines are all timestamps, blanks or line numbers passes stage 5 unchanged, provided it has no `'\r'` and no final `'\n'` |
| `Subtitles.FixedHasNoForbiddenChars` | src/lib.rs:41-48 | the output of `fix` holds no `?`, no Arabic yeh or kaf and no U+202B |
| `Subtitles.CleanedConcat` | src/lib.rs:42-45 | stages 1 to 4 handle a prefix without `<` and U+202B on its own: the result for the whole text is the result for the prefix followed by the result for the rest |
| `Subtitles.CleanedChar` | src/lib.rs:50-66 | stages 1 to 4 turn a single `?` into U+061F and an Arabic yeh or kaf into its Persian form, and keep any other character except `<` and U+202B |
| `Subtitles.FixedOneLine` | src/lib.rs:41-48 | a text that stages 1 to 4 turn into one non-empty line without `'\n'` or `'\r'` comes out of `fix` as `fix_line` of that line |
| `Scenarios.MiddleStagesIdle` | src/lib.rs:55-66 | stages 2 to 4 leave alone a text without the characters they replace or remove |
| `Scenarios.OnlyLastStageActs` | src/lib.rs:41-48 | a text without `<`, yeh, kaf, `?` or U+202B goes through `fix` as through stage 5 alone |
| `Scenarios.ItalicsAround` | src/lib.rs:50-53 | stage 1 strips a pair of tags `<i>` … `</i>` around text without `<` and leaves that text |
| `Scenarios.ItalicsAroundNumber` | src/lib.rs:50-53 | stage 1 turns `<i>12</i>` into `12` |
| `Scenarios.ItalicNumberIsLineNumber` | src/lib.rs:41-48 | tags are stripped before lines are classified, so `fix` turns `<i>12</i>` into the line number `12`, ASCII digits kept |
| `Scenarios.ItalicsNested` | src/lib.rs:50-53 | stage 1 turns `<<i>i>` into `<i>` and `<i>` into the empty text |
| `Scenarios.TagLineIsDialogue` | src/lib.rs:70-76 | the line `<i>` is dialogue and, holding no digit, `fix_line` keeps it |
| `Scenarios.FixNotIdempotent` | src/lib.rs:41-53 | `fix` turns `<<i>i>` into `<i>`, and a second `fix` turns that into the empty text |
| `Scenarios.LinesWithTrailingBlank` | src/lib.rs:95 | `lines()` of `a\n\n` is `a` and a blank line; `lines()` of `a\n` is only `a` |
| `Scenarios.LineCountNotPreserved` | src/lib.rs:93-98 | `fix` turns the two lines `a\n\n` into `a\n`, which has one line |
| `Scenarios.FirstHeaderKept` | src/lib.rs:109-110 | the sequence number `1` and the timestamp of the first block of every test are classed as line number and timestamp, and `fix_line` keeps them |
| `Scenarios.ItalicLineFixed` | src/lib.rs:111-121 | `fix` turns the tagged line of the italics test into the line without its tags |
| `Scenarios.UnchangedDialogueKept` | src/lib.rs:113-127 | `fix` keeps the two dialogue lines of the tests that no stage changes |
| `Scenarios.YehLineFixed` | src/lib.rs:138-148 | `fix` turns the Arabic yeh of the first line of the Arabic-letters test into Persian yeh and keeps the rest |
| `Scenarios.KafLineFixed` | src/lib.rs:140-150 | `fix` turns the Arabic kaf of the second line of the Arabic-letters test into keheh and keeps the rest |
| `Scenarios.QuestionYehLineFixed` | src/lib.rs:165-175 | `fix` keeps the opening U+061F of the first line of the question-mark test and turns its Arabic yeh into Persian yeh |
| `Scenarios.QuestionKafLineFixed` | src/lib.rs:167-177 | `fix` turns the opening `?` of the second line of the question-mark test into U+061F and its Arabic kaf into keheh |
| `Scenarios.NumberAtEndFixed` | src/lib.rs:192-202 | `fix` turns `12` at the end of the first line of the digit test into `۱۲` and its Arabic yeh into Persian yeh |
| `Scenarios.NumbersInsideFixed` | src/lib.rs:194-204 | `fix` turns `2` and `0912` in the second line of the digit test into `۲` and `۰۹۱۲` and its Arabic kaf into keheh |
| `Scenarios.TimestampLineKept` | src/lib.rs:197 | the timestamp line of the digit test is classed as timestamp and keeps its ASCII digits |
| `Scenarios.LineNumberKept` | src/lib.rs:196 | the sequence-number line `2` of the digit test is a line number and keeps its ASCII digit |
| `Scenarios.DialogueDigitsLocalized` | src/lib.rs:198-208 | in the dialogue line of the digit test, `34` becomes `۳۴` and nothing else changes |
| `Scenarios.TestBlockFixed` | src/lib.rs:196-208 | `fix` maps the last block of the digit test (number, timestamp, dialogue) to the expected block |

## Left out

- `src/main.rs` is not part of this model. It is the command-line front end: it reads a file, calls `fix` and writes the result.
- The regular-expression engine and the `lazy_static` compilation are replaced by predicates that state the two anchored patterns directly.
- `Patterns.IsDecimalDigit`: the regex class `\d` (general category Nd) is the Unicode 15.0 table. A `regex` crate built on other Unicode tables may differ for digits added later.
- Text is a sequence of Unicode scalar values. The UTF-8 bytes of a Rust `String` are not modelled, and none of the operations depends on them.
- `Text.Lines` follows the current `str::lines`: a final line ending in a bare `'\r'` keeps it. Older Rust releases dropped that `'\r'`.
- `Text.RemoveMatches` gives the leftmost non-overlapping matches that Rust's search finds. The two-way search algorithm itself is not modelled.
- `Subtitles.Subtitle.Fix`: `fix` takes `self` by value and so consumes the object. The model keeps the object, and the returned text equals its final contents.
- The second column of `PERSIAN_NUMBERS` is a one-character `&str` and is modelled as a `char`.
- The two TODOs of `fix_line` are not implemented in the code, so they are not modelled either: removing `[.!?]*` groups, and putting U+202B in front of each dialogue line.
- The unit tests of src/lib.rs:107-213 are computed line by line, not as the nine-line texts they pass to `fix`. Only the last block of the digit test (src/lib.rs:196-198) is computed as a text of several lines. The blank lines between blocks are not computed separately; `Subtitles.ClassifyByShape` classes every blank line as blank.
