# hangul-normalize, modelled in Dafny

This project models the text-normalisation library of `hangul-normalize`
(`src/lib.rs`). It proves properties of each stage and of the pipeline that
chains them. Text is a sequence of Unicode scalar values (`string`).

- `control_chars` (`Filter`): every character outside an allow-list is
  replaced by its own copy of a replacement text. The allow-list is written
  out as a predicate: ASCII letters and digits, the compatibility jamo
  ranges, the precomposed syllables, a set of punctuation, Unicode
  `White_Space` and newline.
- `hangul_to_jamo` (`Jamo`): each precomposed syllable (U+AC00 to U+D7A3) is
  split by arithmetic into table entries from CHO, JUNG and JONG. The
  arithmetic is the index arithmetic of the Hangul syllable decomposition in
  section 3.12 of the Unicode Standard (base 44032, 588 = 21 × 28, 28). The
  output is the source's own compatibility jamo (U+3131 to U+3163), not the
  standard's conjoining jamo. Every other character is padded with two
  U+0000 characters, and then every U+0000 is filtered out. The model keeps
  this pad-then-filter form. It proves that form equal to a per-character
  reference, and that reference shows the filter also deletes U+0000 from
  the input.
- `derepeat` (`Repeat`): a method with a loop over the text that updates the
  `last_char` and `repeat` state. It is proved equal to a position-based
  specification. That specification is related to runs of identical
  characters, including the sentinel U+1D54A that seeds `last_char`.
- `whitespace_less` (`Whitespace`): `str::trim`, then a method with a loop
  that drops whitespace following whitespace unless it is a tab. It is
  proved equal to a position-based specification, whose shape properties
  are then proved.
- `NormalizeConfig` and `normalize` (`Pipeline`): the stages in the order
  filter, derepeat, whitespace, decomposition, each one applied only when
  its option is set.

`text.dfy` (`Text`) holds what the stages share: Unicode `White_Space`
(25 code points), the syllable range, the sentinel and the subsequence
relation.

The allow-list is the regex class at `src/lib.rs:8`. Besides letters,
digits, jamo, syllables and punctuation it allows `<`, `>` and, through `\s`,
every `White_Space` character, not only space and newline.

## Model

| member | source | states |
|---|---|---|
| Text.IsWhitespace | src/lib.rs:89 | the definition is the model: Unicode `White_Space`, the class of `char::is_whitespace`, `str::trim` and `\s` |
| Text.IsSyllable | src/lib.rs:28 | the definition is the model: the range '가'..='힣' |
| Filter.IsAllowed | src/lib.rs:8 | the definition is the model: the negated regex class, range by range |
| Filter.IsPunctuation | src/lib.rs:8 | the definition is the model: the punctuation of the class, `<` and `>` included |
| Filter.IsLiteral | src/lib.rs:10 | the definition is the model: a replacement without `$`, which `replace_all` inserts literally |
| Filter.CountDisallowed | src/lib.rs:8 | the number of characters outside the class, at most the text's length |
| Filter.ControlChars | src/lib.rs:5-10 | the definition is the model: each allowed character kept, each other character replaced by its own copy of the replacement; its properties are the lemmas below |
| Filter.ControlCharsMembers | src/lib.rs:5-10 | every output character is an allowed input character or a character of the replacement |
| Filter.ControlCharsLength | src/lib.rs:5-10 | output length = kept characters + replaced characters × replacement length: each disallowed character gets its own copy |
| Filter.ControlCharsAppend | src/lib.rs:10 | the replacement is per character, so filtering distributes over concatenation |
| Filter.AllowedTextUnchanged | src/lib.rs:8-10 | text made only of allowed characters has nothing to replace and comes out unchanged |
| Filter.ControlCharsIdempotent | src/lib.rs:8-10 | with an allowed replacement the output is all allowed, and filtering twice equals filtering once |
| Filter.ReplaceTwo | src/lib.rs:10 | two allowed stretches each followed by a disallowed character become the stretches each followed by the replacement |
| Filter.ControlCharsExample | src/lib.rs:144-149 | the unit test: `"가힣#ㄱㅏz1()!?[]/ &"` with `"흠"` gives `"가힣흠ㄱㅏz1()!?[]/ 흠"` |
| Jamo.IsCompatJamo | src/lib.rs:14-25 | the definition is the model: the compatibility jamo block 'ㄱ'..'ㅣ' that the CHO, JUNG and JONG tables draw from |
| Jamo.Groups | src/lib.rs:26-41 | the definition is the model: the `flat_map`, three characters per input character |
| Jamo.HangulToJamo | src/lib.rs:26-43 | the definition is the model: the `flat_map` followed by the U+0000 filter; its properties are the lemmas below |
| Jamo.DecomposeAll | src/lib.rs:26-43 | the definition is the per-character reference that `Jamo.HangulToJamoPerCharacter` proves equal to the source's form |
| Jamo.SyllableParts | src/lib.rs:29-32 | for a syllable the computed indices are in bounds: cho < 19, jung < 21, jong < 28 |
| Jamo.Compose | src/lib.rs:29-32 | indices in bounds recompose (44032 + cho·588 + jung·28 + jong) to a syllable |
| Jamo.SplitThenCompose | src/lib.rs:29-32 | decomposing a syllable into its indices and recomposing them gives the syllable back |
| Jamo.ComposeThenSplit | src/lib.rs:29-32 | recomposing in-range indices and decomposing the syllable gives the same indices back |
| Jamo.TableEntries | src/lib.rs:14-25 | of the constant tables `Jamo.CHO`, `Jamo.JUNG` and `Jamo.JONG` (the source's three tables): every CHO and JUNG entry and every JONG entry but the first is a compatibility jamo; JONG[0] is U+0000 |
| Jamo.Group | src/lib.rs:27-40 | each character expands to exactly three characters before the filter |
| Jamo.DropNul | src/lib.rs:42 | the filter's output holds no U+0000 and only characters from its input |
| Jamo.Decompose | src/lib.rs:28-40 | a syllable becomes 2 or 3 compatibility jamo, 3 exactly when jong ≠ 0; U+0000 becomes nothing; any other character becomes itself |
| Jamo.DropNulAppend | src/lib.rs:42 | the U+0000 filter distributes over concatenation |
| Jamo.HangulToJamoPerCharacter | src/lib.rs:26-43 | pad-then-filter equals decomposing each character on its own |
| Jamo.DecomposeAllAppend | src/lib.rs:26-43 | per-character decomposition distributes over concatenation |
| Jamo.HangulToJamoAppend | src/lib.rs:26-43 | `hangul_to_jamo` distributes over concatenation |
| Jamo.NonSyllablesPassThrough | src/lib.rs:36-42 | text without syllables comes out with only its U+0000 characters deleted, order kept |
| Jamo.HangulToJamoClean | src/lib.rs:14-43 | the output holds no syllable and no U+0000; each output character is a compatibility jamo or a non-syllable input character |
| Jamo.HangulToJamoIdempotent | src/lib.rs:14-43 | decomposing twice equals decomposing once |
| Jamo.DropNulIdentity | src/lib.rs:42 | the filter leaves text without U+0000 unchanged |
| Jamo.DecomposeComposed | src/lib.rs:28-35 | the syllable with indices (cho, jung, jong) becomes CHO[cho], JUNG[jung], then JONG[jong] only when jong ≠ 0 |
| Jamo.PlainTextUnchanged | src/lib.rs:36-42 | text with no syllable and no U+0000 passes through unchanged |
| Jamo.ExampleSyllablesA | src/lib.rs:137-142 | '가' and '힣' of the unit test as table entries |
| Jamo.ExampleSyllablesB | src/lib.rs:137-142 | '뷁' and '킼' of the unit test as table entries |
| Jamo.ExamplePlainPieces | src/lib.rs:137-142 | the non-syllable pieces of the unit test pass through |
| Jamo.ExampleSplit | src/lib.rs:137-142 | the unit test's input, decomposed piece by piece |
| Jamo.HangulToJamoExample | src/lib.rs:137-142 | the unit test: `"가힣 뷁 ab123킼ㄱㄴㄷ"` gives `"ㄱㅏㅎㅣㅎ ㅂㅞㄺ ab123ㅋㅣㅋㄱㄴㄷ"` |
| Repeat.RunPos | src/lib.rs:47-56 | the definition is the model: the value of `repeat` after reading a position, with `last_char` seeded by the sentinel |
| Repeat.Capped | src/lib.rs:49-59 | the definition is the model: the characters among the first `k` whose counter is below `n` |
| Repeat.Derepeated | src/lib.rs:46-60 | the definition is the model: what `derepeat` returns; its meaning is proved by the lemmas below |
| Repeat.Derepeat | src/lib.rs:46-60 | the loop that updates `last_char` (seeded with the sentinel `Text.SENTINEL`, U+1D54A) and `repeat` returns exactly the characters whose counter is below `n` |
| Repeat.RunPosIsRunPosition | src/lib.rs:47-57 | the counter is the character's 1-based position in its run minus one, plus one for a leading run of the sentinel |
| Repeat.DerepeatZero | src/lib.rs:57 | with `n = 0` the output is empty |
| Repeat.DerepeatSubsequence | src/lib.rs:49-59 | the output is a subsequence of the input |
| Repeat.CappedEnd | src/lib.rs:50-57 | the output so far ends with the last character read (or is empty), and its trailing run of that character is at most the counter plus one |
| Repeat.TrailBeforeBounded | src/lib.rs:50-57 | before a character is read, the output's trailing run of it is at most its counter |
| Repeat.RunsAtMostSnoc | src/lib.rs:57 | appending a character whose trailing run is at most `n` keeps every run at most `n` |
| Repeat.KeptRunBounded | src/lib.rs:50-57 | a kept character never makes its output run longer than `n` |
| Repeat.DerepeatRunsBounded | src/lib.rs:50-57 | for `n ≥ 1` no run in the output is longer than `n` |
| Repeat.RunPosPrefix | src/lib.rs:49-58 | the counter at a position depends only on the text up to it |
| Repeat.CappedPrefix | src/lib.rs:49-59 | the output for a prefix depends only on that prefix |
| Repeat.RunPosInBlock | src/lib.rs:50-56 | inside a run the counter is the position in the run, plus one for a leading run of the sentinel |
| Repeat.CappedBlock | src/lib.rs:50-57 | a run of `m` copies contributes its first min(m, n) copies (n − 1 for a leading sentinel run) |
| Repeat.DerepeatRuns | src/lib.rs:46-59 | text made of maximal runs comes out as the same runs, each cut to `n`, and a leading run of the sentinel cut to `n − 1` |
| Repeat.DerepeatRunsStep | src/lib.rs:46-59 | when the runs before the last come out cut to `n`, appending the last maximal run adds that run cut to `n` (or to `n − 1` when it is the only run and is the sentinel) |
| Repeat.LeadingSentinelRun | src/lib.rs:47-57 | a text that is exactly one run of `m` sentinel characters keeps exactly `min(m, n − 1)` of them (a leading sentinel run followed by other text is covered by `Repeat.DerepeatRuns`) |
| Repeat.ShortRunsUnchanged | src/lib.rs:50-57 | text whose runs are all at most `n` long comes out unchanged, unless it starts with the sentinel |
| Repeat.ExampleInput | src/lib.rs:151-156 | the unit test's input is the runs 아×5, space, 음×3, space, 호×4, space, 홀×2, space |
| Repeat.ExampleOutput | src/lib.rs:151-156 | the unit test's expected output is the same runs with 아 and 호 cut to 3 |
| Repeat.DerepeatExample | src/lib.rs:151-156 | the unit test: `"아아아아아 음음음 호호호호 홀홀 "` with `n = 3` gives `"아아아 음음음 호호호 홀홀 "` |
| Whitespace.TrimStart | src/lib.rs:86 | trimming the start removes a prefix made only of whitespace, and the rest does not start with whitespace |
| Whitespace.TrimEnd | src/lib.rs:86 | trimming the end removes a suffix made only of whitespace, and the rest does not end with whitespace |
| Whitespace.Trim | src/lib.rs:86 | the definition is the model: `str::trim` as trimming the start, then the end |
| Whitespace.Keeps | src/lib.rs:89-94 | the definition is the model: the closure keeps a character unless it is whitespace right after whitespace and not a tab |
| Whitespace.Squeeze | src/lib.rs:87-96 | the definition is the model: the characters of the trimmed text that the closure keeps |
| Whitespace.Compacted | src/lib.rs:84-97 | the definition is the model: what `whitespace_less` returns; its properties are the lemmas below |
| Whitespace.WhitespaceLess | src/lib.rs:84-97 | the loop over the trimmed text with `last_char` keeps exactly the characters not dropped as whitespace after whitespace (tabs always kept) |
| Whitespace.SqueezeEnds | src/lib.rs:88-95 | the first character is always kept, and the last kept character is whitespace exactly when the last character read is |
| Whitespace.SqueezeTabs | src/lib.rs:88-95 | in the scan's output any two adjacent whitespace characters have a tab second |
| Whitespace.SqueezeNonWhitespace | src/lib.rs:88-95 | the scan deletes only whitespace |
| Whitespace.SqueezeMembers | src/lib.rs:88-95 | every kept character comes from the scanned text |
| Whitespace.SqueezeKeepsAll | src/lib.rs:88-95 | text whose whitespace pairs all have a tab second is kept whole |
| Whitespace.TrimEnds | src/lib.rs:86 | a trimmed text neither starts nor ends with whitespace |
| Whitespace.TrimNoop | src/lib.rs:86 | text that neither starts nor ends with whitespace is its own trim |
| Whitespace.TrimAround | src/lib.rs:86 | trimming removes exactly the whitespace around a text that neither starts nor ends with whitespace |
| Whitespace.TrimStartAround | src/lib.rs:86 | trimming the start removes exactly a leading stretch of whitespace |
| Whitespace.TrimEndAround | src/lib.rs:86 | trimming the end removes exactly a trailing stretch of whitespace |
| Whitespace.Shape | src/lib.rs:84-97 | the output neither starts nor ends with whitespace, and any two adjacent whitespace characters in it have a tab second |
| Whitespace.KeepsNonWhitespace | src/lib.rs:84-97 | the non-whitespace characters of the output are exactly those of the input, in order |
| Whitespace.TrimStartNonWhitespace | src/lib.rs:86 | trimming the start deletes only whitespace |
| Whitespace.TrimEndNonWhitespace | src/lib.rs:86 | trimming the end deletes only whitespace |
| Whitespace.CompactedMembers | src/lib.rs:84-97 | every output character occurs in the input |
| Whitespace.CompactedIdempotent | src/lib.rs:84-97 | applying `whitespace_less` twice equals applying it once |
| Whitespace.ExampleTrim | src/lib.rs:129-135 | the unit test's input trims to `"가     나  다 라"` |
| Whitespace.ExampleSqueeze | src/lib.rs:129-135 | the scan of that trimmed text gives `"가 나 다 라"` |
| Whitespace.WhitespaceLessExample | src/lib.rs:129-135 | the unit test: `"   가     나  다 라    "` gives `"가 나 다 라"` |
| Pipeline.Normalize | src/lib.rs:99-123 | the definition is the model: `NormalizeConfig`'s four options and the stages in the order filter, derepeat, whitespace, decomposition, each skipped when its option is off |
| Pipeline.LiteralReplacement | src/lib.rs:107-110 | the definition is the model: a configured replacement contains no `$` |
| Pipeline.AllOffIdentity | src/lib.rs:106-123 | with every option off `normalize` returns its input |
| Pipeline.SingleStages | src/lib.rs:106-123 | with one option on `normalize` is that stage alone |
| Pipeline.DerepeatedMembers | src/lib.rs:111-114 | every character the derepeat stage outputs occurs in its input (deletion itself is `Repeat.DerepeatSubsequence`) |
| Pipeline.CompatJamoAllowed | src/lib.rs:8 | compatibility jamo are allowed by the filter, are not whitespace and are not syllables |
| Pipeline.MiddleAllowed | src/lib.rs:111-118 | the derepeat and whitespace stages pass on only characters they receive, so allowed input gives allowed output |
| Pipeline.MiddleNoNul | src/lib.rs:107-118 | with an allowed replacement no U+0000 reaches the decomposition stage |
| Pipeline.FullPipelineClean | src/lib.rs:106-123 | with an allowed replacement and every stage on, the output is all allowed, with no syllable and no U+0000 |
| Pipeline.DecomposeWhitespace | src/lib.rs:28-40 | decomposing a character other than U+0000 gives at least one character; whitespace stays itself and anything else gives no whitespace |
| Pipeline.DecomposeFirst | src/lib.rs:26-43 | decomposing text without U+0000 keeps the whitespace-ness of the first character, and keeps it as it is when it is whitespace |
| Pipeline.DecomposeLast | src/lib.rs:26-43 | the same for the last character |
| Pipeline.DecomposeTabs | src/lib.rs:26-43 | text without U+0000 in which every pair of adjacent whitespace characters has a tab second keeps that shape when decomposed |
| Pipeline.FullPipelineShape | src/lib.rs:106-123 | with an allowed replacement and every stage on, the output keeps the whitespace shape of `whitespace_less` |
| Pipeline.NulBetweenSpaces | src/lib.rs:106-123 | without the filter the shape can be lost: whitespace and decomposition stages turn `"a \0 b"` into `"a  b"`, which has two adjacent spaces |
| Pipeline.NulKeptByWhitespaceLess | src/lib.rs:84-97 | `whitespace_less` keeps the U+0000 of `"a \0 b"`, since U+0000 is not whitespace |
| Pipeline.KeptWhole | src/lib.rs:84-97 | text that neither starts nor ends with whitespace, and whose adjacent whitespace pairs all have a tab second, is returned by `whitespace_less` unchanged |
| Pipeline.NulDeletedByDecomposition | src/lib.rs:36-42 | `hangul_to_jamo` deletes that U+0000, joining the two spaces |
| Pipeline.NulDeleted | src/lib.rs:36-42 | a U+0000 between two stretches of text without syllables or U+0000 is deleted, joining the stretches |
| Pipeline.NulAlone | src/lib.rs:36-42 | a lone U+0000 decomposes to nothing |
| Pipeline.AdjacentSpaces | src/lib.rs:89-90 | `"a  b"` has two adjacent whitespace characters, neither a tab |

## Left out

- `space_around_ic` (src/lib.rs:62-82) is not modelled. Its unit test is commented out. The condition at src/lib.rs:66 is always true, so the other branches are dead code and the function only deletes U+0000.
- The command-line program `hangul-normalizer-cli/src/main.rs` is not modelled. It parses arguments and reads and writes files, stdin and stdout. Its call at line 69 passes `&opts` where a `&NormalizeConfig` is expected.
- The regex engine and the `lazy_static` cache (src/lib.rs:6-9) are not modelled. The character class is the predicate `Filter.IsAllowed`.
- Filter.ControlChars: requires a replacement with no `$`. `replace_all` with a `&str` replacement expands `$` references such as `$0` and `$$`, and that expansion is not modelled. Pipeline.Normalize carries the same requirement.
- Repeat.Derepeat: the counter is an unbounded `nat`, so overflow of `usize` in `repeat += 1` is not modelled. With overflow checks on it would panic, and without them it would wrap around. It is unreachable, because a run that long would exceed the address space.
- Jamo.SyllableParts: the arithmetic is on unbounded integers. In the source it is on `usize` and cannot underflow, because the branch only runs for code points of at least 44032.
- Pipeline.FullPipelineShape: the whitespace shape of the output is promised only when the filter is on with an allowed replacement. Without the filter, a U+0000 between two whitespace characters survives `whitespace_less` and is then deleted by `hangul_to_jamo`, so two whitespace characters meet (`Pipeline.NulBetweenSpaces`).
- Ownership, allocation and the move of `text` into `normalize` are not modelled. The stages are functions from text to text.
