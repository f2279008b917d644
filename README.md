# bash_command_finder — a Dafny model of the command-resolution core

The bash command finder turns an English phrase into a shell command. It looks for the phrase
in a local store of confirmed examples (the cache). If that misses, it asks an online answer
bank. If that is not trusted, it asks a generative language model with a few-shot prompt built
from the stored examples and extracts a command from the generated text. Finally it asks the
user to confirm, and a confirmed (phrase, command) pair is learned into the store.

The same logic exists three times, and each copy is modelled in its own module:

- `RustFinder` models `src/main.rs`, the live program.
- `PyFinder` models `src/bash_command_finder.py`, the Python rewrite.
- `MainPy` models `main.py`, the older Python version.

They share these modules:

- `Common` holds the result and failure types, the provenance of a command, the switches, and
  the answer-bank threshold.
- `Text` holds the string operations of Rust and Python that the programs use:
  - splitting on a literal separator, and joining;
  - Python's whitespace `split()` and Rust's `trim`;
  - lower-casing, and filtering the alphanumeric characters.
- `Levenshtein` is a recursive reference definition of the edit distance. Both imperative
  versions are proved equal to it:
  - the full-table version of `src/main.rs`, which uses an `array2` filled column by column;
  - the two-row version of `src/bash_command_finder.py`, in module `TwoRowLevenshtein`.
    `tests/benchmark_levenshtein.py:9-29` is the same function, character for character.
- `Realign` holds the part of the answer extractor that all three copies share. After the
  generated text has been split on the prompt, it takes either the text after an echoed prompt
  or the lines after the first line closest to the search phrase.
- `ExampleStore` is the example store as an ordered list of pairs. It gives the first-match
  cache lookup and a class `ExampleFile` whose `contents` hold what `cmd_examples.json` holds.
  `check_cache` is the same loop in all three copies (`src/main.rs:468-479`,
  `src/bash_command_finder.py:184-189`, `main.py:146-151`); `ExampleFile.CheckCache` models it.

`main.py` repeats some code of `src/bash_command_finder.py` word for word, and `MainPy` reuses
the `PyFinder` members for it:

- `form_query_base` (`main.py:46-53`);
- the prompt assembly (`main.py:113-118`);
- `correct_answer_line` (`main.py:104-110`).

The network answers, the generated text, the loaded store and the user's confirmation line are
parameters of the operations. A failing run becomes an `Err(...)` value:

- a Rust `panic!`;
- a Python exception;
- an index out of range.

Behaviour of the programs that is easy to misread, and the points where the copies differ:

- **Splits into more than two pieces.** When the prompt recurs in the generated text, the split
  gives more than two pieces. Only two pieces (src/main.rs:376-380,
  src/bash_command_finder.py:126-127) or one piece (src/main.rs:381-397,
  src/bash_command_finder.py:128-134) give candidate lines, so in that case there are none:
  - Rust and `src/bash_command_finder.py` fail with "No command via Bloom could be found!";
  - `main.py` fails at `[0]`.
- **Trimming the confirmation.** The confirmation is trimmed only in Rust. Both Python copies
  lower-case the raw line.
- **Empty answers.** Only `src/bash_command_finder.py` drops empty answers from the answer bank.
- **Learning a confirmed pair.** In `src/bash_command_finder.py`, `save_json_cmd_examples`
  rebinds its argument to `[]` (line 60) before it copies and deduplicates. A confirmed example
  therefore rewrites the store as an empty list. `PyFinder.ConfirmRun` states exactly that.
  The other two copies append the pair, `RustFinder.ConfirmRun` as it is and
  `MainPy.ConfirmRun` then deduplicating.
- **Empty commands.** The extractors skip empty candidate lines, but that does not make the
  command they return non-empty. A first non-empty candidate line made only of symbols (such
  as `$`) is cleaned to the empty string in all copies, so an empty command can be returned (`RustFinder.SymbolLineCleansToEmpty`,
  `PyFinder.SymbolLineCleansToEmpty`).

## Model

| member | source | states |
|---|---|---|
| Levenshtein.Step | src/main.rs:298-309 | the distance between prefixes of lengths i+1 and j+1 is the minimum of deleting, inserting and substituting (cost 0 for equal characters) from the three neighbouring prefix distances |
| Levenshtein.EqualLast | src/main.rs:300-301 | strings ending in the same character are as far apart as the strings without it, which justifies copying the diagonal cell |
| Levenshtein.Symmetric | tests/benchmark_levenshtein.py:10-11 | the edit distance is symmetric, so swapping the arguments to make the first the longer keeps the result |
| Levenshtein.SelfDistance | src/bash_command_finder.py:130-133 | a string is at distance 0 from itself, so a line equal to the search phrase is a closest line |
| Levenshtein.LengthGap | src/bash_command_finder.py:130-133 | the distance is at least the difference of the two lengths, in both directions |
| Levenshtein.DeletePrefix | src/bash_command_finder.py:130-133 | prefixing a string with p puts it at distance exactly len(p) from the string |
| Levenshtein.DropLastRight | src/main.rs:303-306 | removing the last character of the second string raises the distance by at most one |
| Levenshtein.DropLastLeft | src/main.rs:303-306 | removing the last character of the first string raises the distance by at most one |
| Levenshtein.LastStepBounds | src/main.rs:303-306 | the distance is at most each of deleting, inserting and substituting the last characters from the three shorter distances |
| Levenshtein.LastStepChoice | src/main.rs:303-306 | the distance equals one of those three ways of finishing the edit |
| Levenshtein.Triangle | src/main.rs:288-311 | the distance computed by the table obeys the triangle inequality: going from a to c by way of b is never shorter |
| RustFinder.EqualCell | src/main.rs:300-301 | when s1[i] equals s2[j], the cell for prefixes i+1, j+1 equals the diagonal cell |
| RustFinder.UnequalCell | src/main.rs:302-306 | when the characters differ, min(min(above+1, left+1), diagonal+1) is the distance of the longer prefixes |
| RustFinder.CellValue | src/main.rs:300-306 | with the earlier columns and the cells above complete, the loop body gives the edit distance of the prefixes ending at i and j |
| RustFinder.FillColumn | src/main.rs:299-308 | the inner loop completes column j, every cell holding the edit distance of its prefixes, and leaves later cells of row 0 unchanged |
| RustFinder.LevenshteinDistance | src/main.rs:288-311 | after column 0 is set to i, row 0 to j and the other columns are filled in order, d[len1][len2] is the edit distance of s1 and s2 |
| TwoRowLevenshtein.NextRow | tests/benchmark_levenshtein.py:17-27 | a row starts at i+1, has len(s2)+1 entries, each next entry is min(prev[j+1]+1, cur[j]+1, prev[j]+(c1 != c2)), and the row holds the distances from the first i+1 characters of s1 to every prefix of s2 |
| TwoRowLevenshtein.LevenshteinTwoRow | src/bash_command_finder.py:27-47 | with the swap, the early return of len(s1) for an empty s2 and the row loop, the last entry of the last row is the edit distance |
| Text.JoinSplit | src/main.rs:374 | joining the pieces of a split with the separator gives the original text back |
| Text.SplitSinglePiece | src/main.rs:376-381 | a split yields one piece exactly when the separator does not occur in the text |
| Text.SplitAfterSeparator | src/bash_command_finder.py:124-127 | text that begins with the separator splits into an empty piece followed by the split of the rest |
| Text.SplitJoin | src/main.rs:368 | splitting on a one-character separator undoes joining pieces that do not contain it |
| Text.SplitPiecesFree | src/main.rs:360 | no piece of a split on a character contains that character |
| Text.NonEmpty | src/main.rs:401-405 | the non-empty lines are at most as many as the lines, and a string is among them exactly when it is a non-empty line |
| Text.NonEmptyCounts | src/main.rs:401-405 | every non-empty line is kept exactly as often as it occurs and the empty line not at all |
| Text.NonEmptyHead | src/main.rs:401-406 | there is a non-empty line exactly when some index is the first non-empty one, and the head of the filtered list is that line |
| Text.KeepAlnum | src/main.rs:362-365 | the result holds exactly the alphanumeric characters of the input, is no longer than it, is the input when it is all alphanumeric, and is empty when it has none |
| Text.KeepAlnumCounts | src/bash_command_finder.py:145 | each alphanumeric character is kept exactly as often as it occurs, and no other character is kept |
| Text.KeepAlnumAppend | src/main.rs:362-365 | the filter commutes with concatenation, so the kept characters stay in their order |
| Text.Words | src/bash_command_finder.py:143 | whitespace tokens are non-empty and contain no white space |
| Text.WordsAtSpace | src/bash_command_finder.py:143 | any white-space character, a tab as much as a space, separates tokens: the tokens around it are those of the text before it followed by those of the text after it |
| Text.WordsAfterToken | src/bash_command_finder.py:143 | a non-empty space-free token followed by a white-space character, or by nothing, is the first token |
| Text.WordsAroundSpace | main.py:105 | two space-free tokens around any white-space character are the two tokens of the text |
| Text.WordsJoin | src/bash_command_finder.py:147 | tokenising a single-space join of space-free tokens gives back the non-empty tokens |
| Text.WordsNone | src/bash_command_finder.py:143-144 | a line has no token exactly when every character is white space |
| Text.TrimStart | src/main.rs:450 | the result is a suffix, everything removed is white space, and it does not start with white space |
| Text.TrimEnd | src/main.rs:450 | the result is a prefix, everything removed is white space, and it does not end with white space |
| Text.LowerIsYes | src/bash_command_finder.py:173 | the lower-cased text is "y" or "yes" exactly when the text spells y or yes in any mix of cases |
| Realign.FirstArgMin | src/main.rs:387-392 | the index is in range, its distance is at most every other, and strictly below every earlier one (first minimum) |
| Realign.AnswerLines | src/bash_command_finder.py:124-134 | two pieces give the lines of the second; one piece gives the lines strictly after the first line closest to the search phrase; any other count gives no candidates |
| Realign.StrictlyClosest | src/bash_command_finder.py:133 | a line strictly closer than every other line is the one and only anchor |
| Realign.MarkedLineAnchors | src/bash_command_finder.py:128-134 | when the text was not echoed but holds the line "# " + query, and no other line is within two characters of the query's length, the candidates are the lines after that line |
| ExampleStore.Lookup | src/main.rs:468-479 | None exactly when no example has the query; otherwise the command of an example with that query before which no example has it |
| ExampleStore.LookupAfterAppend | src/main.rs:450-453 | appending a pair keeps every existing hit and makes the new pair found only for a query that had none |
| ExampleStore.ExampleFile.CheckCache | src/bash_command_finder.py:184-189 | the scan with early return yields the first-match lookup of the stored examples |
| RustFinder.QueryBase | src/main.rs:327-334 | exactly 2n lines, line 2k is "# " + query k and line 2k+1 is "> " + command k |
| RustFinder.FormQueryBase | src/main.rs:327-334 | the push loop builds exactly those lines |
| RustFinder.RunBloomPrompt | src/main.rs:420-424 | the prompt is those lines followed by the raw search text, joined by newlines |
| RustFinder.PromptLines | src/main.rs:420-424 | when no example or search text spans lines, the lines of the prompt are the few-shot lines then the search text (2n+1 lines) |
| RustFinder.CorrectAnswerLineTokens | src/main.rs:359-370 | splitting the cleaned line on " " gives as many tokens as before, the first one reduced to its alphanumeric characters and every other token unchanged |
| RustFinder.SymbolLineCleansToEmpty | src/main.rs:359-370 | a one-token line with no alphanumeric character is cleaned to the empty string |
| RustFinder.SplitOn | src/main.rs:374 | at least one piece; an empty prompt matches at every character boundary, giving len(text) + 2 pieces |
| RustFinder.ParseBloomResponse | src/main.rs:372-409 | no candidates fail with "No command via Bloom could be found!"; candidates that are all empty fail at the index of the first non-empty one; an answer exists exactly when some candidate is non-empty, and it is the cleaned first non-empty candidate |
| RustFinder.EmptyPromptNeverAnswers | src/main.rs:374-406 | splitting on an empty prompt never leads to an answer |
| RustFinder.EchoedPrompt | src/main.rs:376-380 | when the generated text is the prompt followed by a tail not containing it, the answer is the cleaned first non-empty line of the tail |
| RustFinder.NotEchoed | src/main.rs:381-396 | when the prompt does not occur, the candidates are the lines strictly after an anchor (first closest line) |
| RustFinder.ConfirmRun | src/main.rs:450-460 | accepts exactly a trimmed y/yes in any case; on acceptance appends (search, command) to the store and hands the command to the clipboard if enabled; otherwise leaves the store unchanged |
| RustFinder.ApplyArgMeaning | src/main.rs:490-502 | one argument turns on the switch it names and nothing else, and any other argument replaces the search phrase |
| RustFinder.ScanMeaning | src/main.rs:489-503 | after scanning every argument, each switch is on exactly when it was given and the phrase is the last non-switch argument |
| RustFinder.LastNonFlagIsLast | src/main.rs:500-502 | the last non-switch argument is empty when all arguments are switches, and otherwise is the non-switch argument followed only by switches |
| RustFinder.ParseArgs | src/main.rs:489-503 | the loop computes the scan of all arguments: each switch is set exactly when it occurs; the search phrase is the last non-switch argument, args[0] included, or empty |
| RustFinder.Resolve | src/main.rs:504-528 | empty search fails; a cache hit gives origin cache, and origin cache only comes from an enabled cache's hit; after a miss, more than one answer with the answer bank enabled gives the first answer, and origin code grepper only arises so; otherwise, with the generative model enabled, the result is the extractor's answer or its failure; the no-source failure happens exactly when nothing is found and the generative model is disabled |
| RustFinder.SingleAnswerFallsThrough | src/main.rs:519-527 | a single answer-bank answer gives the same outcome as none |
| RustFinder.CorrectedListing | src/main.rs:359-370 | "ls -la" is left unchanged by the clean-up |
| RustFinder.EchoedEndToEnd | src/main.rs:504-528 | with no cache hit and no trusted answer-bank answer, generated text that echoes the prompt followed by a tail without it resolves to the corrected first non-empty line of the tail, with origin bloom |
| PyFinder.QueryBase | src/bash_command_finder.py:72-79 | exactly 1+3n lines: the header, then per example in order "", "# " + query and the command |
| PyFinder.FormQueryBase | src/bash_command_finder.py:72-79 | the append loop builds exactly those lines |
| PyFinder.RunBloomPrompt | src/bash_command_finder.py:151-156 | the prompt is those lines, then "" and "# " + text, joined by newlines |
| PyFinder.PromptStartsWithHeader | src/bash_command_finder.py:73 | every prompt begins with the header and so is not empty |
| PyFinder.PromptLines | src/bash_command_finder.py:151-156 | when no example or search text spans lines, the lines of the prompt are the few-shot lines, "" and "# " + text (3n+3 lines) |
| PyFinder.CorrectAnswerLineWords | src/bash_command_finder.py:142-148 | the clean-up fails exactly on an all-space line; otherwise the tokens of the result are the tokens of the line with the first reduced to its alphanumeric characters, rejoined with single spaces: the result is its own single-space join when the first token keeps a character, and a space before the other tokens when it keeps none |
| PyFinder.SeparatorBecomesSpace | src/bash_command_finder.py:142-148 | a clean first token and a second token separated by any white-space character, such as a tab, come back separated by one space |
| PyFinder.SymbolLineCleansToEmpty | src/bash_command_finder.py:142-148 | a one-token line with no alphanumeric character is cleaned to the empty string |
| PyFinder.ParseBloomOutput | src/bash_command_finder.py:122-139 | an empty prompt raises; no candidates raise "No command via Bloom could be found!"; all-empty candidates fail at the index; otherwise the result is the clean-up of the first non-empty candidate |
| PyFinder.EchoedPrompt | src/bash_command_finder.py:126-127 | when the generated text is the prompt followed by a tail not containing it, the result is the clean-up of the first non-empty line of the tail |
| PyFinder.GrepperAnswers | src/bash_command_finder.py:106-109 | the answers kept are exactly the non-empty ones, the first kept is the first non-empty answer, and nothing is removed when none is empty |
| PyFinder.GrepperAnswersCounts | src/bash_command_finder.py:109 | each non-empty answer is kept exactly as often as it occurs, so exactly the empty answers are removed |
| PyFinder.GrepperAnswersAppend | src/bash_command_finder.py:109 | the filter commutes with concatenation, so the kept answers stay in their order |
| PyFinder.ConfirmRun | src/bash_command_finder.py:164-181 | accepts exactly y/yes in any case without trimming; on acceptance the store is rewritten empty and the command goes to the clipboard if enabled; otherwise the store is unchanged |
| PyFinder.Resolve | src/bash_command_finder.py:240-259 | a cache hit gives origin cache, and origin cache only comes from an enabled cache's hit; after a miss, more than one non-empty answer with the answer bank enabled gives the first of them, and origin code grepper only arises so; otherwise, with the generative model enabled, the result is the extractor's answer or its failure; the no-source failure happens exactly when nothing is found and the generative model is disabled |
| PyFinder.NeverEmptySeparator | src/bash_command_finder.py:124 | the split on the prompt never raises for an empty separator |
| PyFinder.EmptyAnswersIgnored | src/bash_command_finder.py:109 | answers that are all empty give the same outcome as no answers |
| PyFinder.CleanLine | src/bash_command_finder.py:142-148 | a line of clean tokens, the first alphanumeric, is returned unchanged |
| PyFinder.EchoedClean | src/bash_command_finder.py:122-139 | an echoed prompt followed by a tail whose first non-empty line is clean yields that line |
| PyFinder.EchoedEndToEnd | src/bash_command_finder.py:240-259 | with no cache hit and the answer bank off, such generated text resolves to that line with origin bloom |
| PyFinder.RealignedEndToEnd | src/bash_command_finder.py:128-139 | without an echo, the answer is the first non-empty line after the line "# " + search when every other line differs in length from the search by more than two |
| MainPy.Dedup | main.py:37 | the saved list has no duplicate pair and holds exactly the pairs of the input |
| MainPy.RememberedAfterSave | main.py:36-40 | in whatever order the pairs are saved, a lookup of the confirmed query hits a command stored for it, the confirmed one when the query was new |
| MainPy.UncommentedMembers | main.py:59 | the kept lines are exactly the lines not starting with '#' |
| MainPy.UncommentedCounts | main.py:59 | each line not starting with '#' is kept exactly as often as it occurs, and no comment line is kept |
| MainPy.UncommentedAppend | main.py:59 | stripping comment lines commutes with concatenation, so the kept lines stay in their order |
| MainPy.ParseCodeGrepperAnswer | main.py:56-60 | an answer without '#' is unchanged; the parse fails exactly when the answer has a '#' and an empty line |
| MainPy.UncommentedLines | main.py:56-60 | after stripping, the lines of the result are the kept lines, none starting with '#', or the result is empty when none is kept |
| MainPy.ParseAnswers | main.py:72 | all answers parse, one result per answer in order, or the parse fails |
| MainPy.ParseBloomOutput | main.py:85-101 | an empty prompt raises; the index fails exactly when no candidate is non-empty; otherwise the result is the clean-up of the first non-empty candidate |
| MainPy.AgreesWithGuardedExtractor | main.py:99 | this extractor gives the same result as the guarded one, except that "no candidates" becomes the index failure |
| MainPy.ConfirmRun | main.py:126-143 | accepts exactly y/yes in any case; on acceptance the store holds each pair of the old store plus the new pair exactly once; otherwise it is unchanged |
| MainPy.AnswerBankThenModel | main.py:179-183 | a blank answer line fails; a non-empty list of parsed answers gives the first; with no answers the result is the extractor's answer or its failure; the generative model is used only with no answers; the split never raises |
| MainPy.Resolve | main.py:174-183 | with use_cache a hit is kept, and origin cache only comes from such a hit; after a miss or with the cache off the result is that of the answer bank and then the model; the split never raises |
| MainPy.SingleAnswerTrusted | main.py:180-183 | a single plain answer is taken here, while src/bash_command_finder.py does not take it from the answer bank |

## Left out

- HTTP calls are not modelled: `query` and the network part of `query_code_grepper` in all
  three copies. The generated text and the answer texts are parameters.
- JSON is not modelled: parsing, serialising and the `output[0]["generated_text"]` access.
  Neither is file access (`load_json_cmd_examples`, `save_json_cmd_examples` for Rust). The
  store is the `contents` of an `ExampleFile`. Stored entries are modelled as pairs, so an
  entry with fewer than two strings (a panic or `IndexError` at `cmd_eg[1]`) cannot be written.
- Reading standard input, printing, debug output and the clipboard are not modelled. The
  confirmation line is a parameter. The clipboard is the `clipboard` result of each
  `ConfirmRun`.
- `run_process` and the infinite `run_repl` loop of `main.py` are left out. They spawn
  processes.
- The timing harness of `tests/benchmark_levenshtein.py` (lines 32-43) is left out.
- `main.py` imports `Levenshtein.distance` from a foreign library. It is modelled as the
  reference `EditDistance`.
- The click decorators of both Python programs are left out, so their switches and the
  search phrase arrive as values. `main.py`'s `--debug` and `--use_cache` are passed as
  booleans.
- Text.IsAlnum: treats only ASCII letters and digits as alphanumeric. Rust
  `char::is_alphanumeric` and Python `str.isalnum` also accept non-ASCII letters and numbers.
  A body is needed, and the Unicode tables are not part of this model.
- Text.KeepAlnum: inherits the ASCII-only notion of alphanumeric described above.
- Text.Lower: lower-cases ASCII letters only. In Dafny this is exact for comparing against "y"
  and "yes", because no other character lower-cases to y, e, or s. Other uses of case are not
  modelled.
- Text.IsWhiteSpace uses Unicode White_Space, which is what Rust `trim` uses. Text.IsPySpace
  uses the same set plus U+001C to U+001F, as Python `str.split()` does.
- RustFinder.LevenshteinDistance: does not model `usize` overflow. The distances are bounded by
  the string lengths, so they cannot overflow.
- MainPy.ConfirmRun: does not fix the order of the saved pairs. Python's `list(set(...))` leaves
  the order to the hash set.
- `PyFinder.CorrectAnswerLine`, `RustFinder.CorrectAnswerLine`, `Text.Join` and the predicates
  carry no contract of their own, and `Text.Split` only promises at least one piece. Their
  properties are the lemmas named in the table.
