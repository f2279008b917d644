/** The Python command finder, src/bash_command_finder.py: prompt assembly with a header line,
    whitespace tokenising in the answer clean-up, the extractor with its candidate guard, the
    answer-bank filter, cache learning and the resolution decision of `cmdline_main`. The
    two-row edit distance of this file is module TwoRowLevenshtein. */
module PyFinder {
  import opened Common
  import opened Text
  import opened Levenshtein
  import opened Realign
  import opened ExampleStore

  /** The header line every prompt starts with. */
  const ExamplesContext: string := "Linux bash command to accomplish the task"

  // ---------------------------------------------------------------------------------------------
  // form_query_base and the prompt of run_bloom_query
  // ---------------------------------------------------------------------------------------------

  /** The header, then for every example in order a blank line, `"# " + query` and the command. */
  function QueryBase(examples: seq<Example>): (lines: seq<string>)
    ensures |lines| == 1 + 3 * |examples|
    ensures lines[0] == ExamplesContext
    ensures forall k :: 0 <= k < |examples| ==>
      lines[3 * k + 1] == "" && lines[3 * k + 2] == "# " + examples[k].0 && lines[3 * k + 3] == examples[k].1
  {
    if examples == [] then [ExamplesContext]
    else
      var n := |examples| - 1;
      assert forall k :: 0 <= k < n ==> examples[..n][k] == examples[k];
      QueryBase(examples[..n]) + ["", "# " + examples[n].0, examples[n].1]
  }

  method FormQueryBase(examples: seq<Example>) returns (lines: seq<string>)
    ensures lines == QueryBase(examples)
  {
    lines := [ExamplesContext];
    for k := 0 to |examples|
      invariant lines == QueryBase(examples[..k])
    {
      assert examples[..k + 1][..k] == examples[..k];
      lines := lines + [""];
      lines := lines + ["# " + examples[k].0];
      lines := lines + [examples[k].1];
    }
    assert examples[..|examples|] == examples;
  }

  /** The prompt: the few-shot lines, a blank line and `"# " + text`, joined by newlines. */
  function BloomPrompt(examples: seq<Example>, text: string): string
  {
    Join(QueryBase(examples) + ["", "# " + text], "\n")
  }

  /** The prompt assembly of `run_bloom_query`. */
  method RunBloomPrompt(examples: seq<Example>, text: string) returns (prompt: string)
    ensures prompt == BloomPrompt(examples, text)
  {
    var lines := FormQueryBase(examples);
    lines := lines + [""];
    lines := lines + ["# " + text];
    assert lines == QueryBase(examples) + ["", "# " + text];
    prompt := Join(lines, "\n");
  }

  /** Every prompt begins with the header, so it is never empty. */
  lemma PromptStartsWithHeader(examples: seq<Example>, text: string)
    ensures ExamplesContext <= BloomPrompt(examples, text)
    ensures |BloomPrompt(examples, text)| >= |ExamplesContext| > 0
  {
    JoinStartsWithFirst(QueryBase(examples) + ["", "# " + text], "\n");
  }

  predicate SingleLineExamples(examples: seq<Example>)
  {
    forall k :: 0 <= k < |examples| ==> '\n' !in examples[k].0 && '\n' !in examples[k].1
  }

  lemma {:induction false} QueryBaseSingleLines(examples: seq<Example>)
    requires SingleLineExamples(examples)
    ensures forall p :: p in QueryBase(examples) ==> '\n' !in p
  {
    if examples != [] {
      var n := |examples| - 1;
      assert SingleLineExamples(examples[..n]) by {
        forall k | 0 <= k < n ensures '\n' !in examples[..n][k].0 && '\n' !in examples[..n][k].1 {
          assert examples[..n][k] == examples[k];
        }
      }
      QueryBaseSingleLines(examples[..n]);
      assert '\n' !in "# " + examples[n].0;
    }
  }

  /** When no example and not the search text spans several lines, the lines of the prompt are
      exactly the few-shot lines, a blank line and `"# " + text`. */
  lemma PromptLines(examples: seq<Example>, text: string)
    requires SingleLineExamples(examples) && '\n' !in text
    ensures Lines(BloomPrompt(examples, text)) == QueryBase(examples) + ["", "# " + text]
    ensures |Lines(BloomPrompt(examples, text))| == 3 * |examples| + 3
  {
    QueryBaseSingleLines(examples);
    assert '\n' !in "# " + text;
    SplitJoin(QueryBase(examples) + ["", "# " + text], '\n');
  }

  // ---------------------------------------------------------------------------------------------
  // correct_answer_line and parse_bloom_output
  // ---------------------------------------------------------------------------------------------

  /** Split on runs of white space, keep only the alphanumeric characters of the first token and
      join the tokens with single spaces; a line without a token fails. */
  function CorrectAnswerLine(line: string): Result<string>
  {
    var comps := Words(line);
    if comps == [] then Err(NoToken)
    else Ok(Join(comps[0 := KeepAlnum(comps[0])], " "))
  }

  /** The clean-up fails exactly on an all-space line; otherwise the tokens of the result are
      the tokens of the line with the first one reduced to its alphanumeric characters (and
      dropped when none remain). The tokens are rejoined with single spaces: when the first
      token keeps a character the result is in that normal form, and when it keeps none the
      result is a single space before the other tokens (or empty when there are none). */
  lemma CorrectAnswerLineWords(line: string)
    ensures CorrectAnswerLine(line).Err? <==> forall i :: 0 <= i < |line| ==> IsPySpace(line[i])
    ensures CorrectAnswerLine(line).Ok? ==>
      var ws := Words(line);
      Words(CorrectAnswerLine(line).value) == NonEmpty([KeepAlnum(ws[0])]) + ws[1..]
    ensures CorrectAnswerLine(line).Ok? ==>
      var ws, v := Words(line), CorrectAnswerLine(line).value;
      (KeepAlnum(ws[0]) != "" ==> Join(Words(v), " ") == v)
      && (KeepAlnum(ws[0]) == "" ==> v == if |ws| == 1 then "" else " " + Join(ws[1..], " "))
  {
    WordsNone(line);
    var ws := Words(line);
    if ws != [] {
      var corrected := ws[0 := KeepAlnum(ws[0])];
      AlnumSpaceFree(ws[0]);
      forall w | w in corrected ensures SpaceFree(w) {
        var k :| 0 <= k < |corrected| && corrected[k] == w;
        if k > 0 {
          assert ws[k] in ws;
        }
      }
      WordsJoin(corrected);
      assert corrected == [KeepAlnum(ws[0])] + ws[1..];
      NonEmptyAppend([KeepAlnum(ws[0])], ws[1..]);
      forall w | w in ws[1..] ensures w != "" {
        assert w in ws;
      }
      NonEmptyKeepsNonEmpty(ws[1..]);
    }
  }

  /** Any white-space character between two tokens, a tab or a carriage return as much as a
      space, comes back as a single space when the first token is already clean. */
  lemma SeparatorBecomesSpace(first: string, c: char, rest: string)
    requires IsPySpace(c)
    requires first != "" && forall ch :: ch in first ==> IsAlnum(ch)
    requires rest != "" && SpaceFree(rest)
    ensures CorrectAnswerLine(first + [c] + rest) == Ok(first + " " + rest)
  {
    var line := first + [c] + rest;
    AlnumSpaceFree(first);
    WordsAroundSpace(first, c, rest);
    var ws := Words(line);
    assert ws == [first, rest];
    assert KeepAlnum(first) == first;
    assert ws[0 := KeepAlnum(ws[0])] == ws;
    assert CorrectAnswerLine(line) == Ok(Join(ws, " "));
  }

  /** A one-token line without any alphanumeric character, such as "$", is cleaned to the empty
      string, so the extractor can resolve to an empty command. */
  lemma SymbolLineCleansToEmpty(line: string)
    requires line != "" && SpaceFree(line) && forall c :: c in line ==> !IsAlnum(c)
    ensures CorrectAnswerLine(line) == Ok("")
  {
    WordsOfWord(line);
  }

  /** `parse_bloom_output(output, query_text, cmd_text)` on the generated text: `prompt` is the
      text sent to the model and `search` the search phrase. Splitting on an empty prompt raises;
      no candidate lines raise "No command via Bloom could be found!"; all-empty candidates fail
      when the first is taken; otherwise the first non-empty candidate is cleaned up. */
  function ParseBloomOutput(output: string, prompt: string, search: string): (r: Result<string>)
    ensures prompt == "" ==> r == Err(EmptySeparator)
    ensures prompt != "" ==>
      var lines := AnswerLines(Split(output, prompt), search);
      (|lines| == 0 ==> r == Err(NoBloomCandidates))
      && (|lines| > 0 && (forall k :: !FirstNonEmptyAt(lines, k)) ==> r == Err(NoNonEmptyLine))
      && (forall k :: FirstNonEmptyAt(lines, k) ==> r == CorrectAnswerLine(lines[k]))
  {
    if prompt == "" then Err(EmptySeparator)
    else
      var lines := AnswerLines(Split(output, prompt), search);
      NonEmptyHead(lines);
      if |lines| == 0 then Err(NoBloomCandidates)
      else
        var nonEmpty := NonEmpty(lines);
        if |nonEmpty| == 0 then Err(NoNonEmptyLine)
        else CorrectAnswerLine(nonEmpty[0])
  }

  /** When the generated text begins with the prompt and the prompt does not recur, the answer
      is the cleaned-up first non-empty line after it. */
  lemma EchoedPrompt(prompt: string, tail: string, search: string)
    requires prompt != "" && !Occurs(tail, prompt)
    ensures var lines := Lines(tail);
            var r := ParseBloomOutput(prompt + tail, prompt, search);
            ((forall k :: !FirstNonEmptyAt(lines, k)) ==> r == Err(NoNonEmptyLine))
            && (forall k :: FirstNonEmptyAt(lines, k) ==> r == CorrectAnswerLine(lines[k]))
  {
    SplitAfterSeparator(prompt, tail);
    SplitSinglePiece(tail, prompt);
    JoinSplit(tail, prompt);
    assert Split(prompt + tail, prompt) == ["", tail];
  }

  // ---------------------------------------------------------------------------------------------
  // query_code_grepper and confirm_run_of_bloom_query
  // ---------------------------------------------------------------------------------------------

  /** The answer-bank filter: each answer goes through `parse_code_grepper_answer`, whose body is
      commented out so that it returns its argument, and the empty answers are dropped. */
  function GrepperAnswers(answers: seq<string>): (r: seq<string>)
    ensures forall a :: a in r <==> a in answers && a != ""
    ensures |r| <= |answers|
    ensures (forall k :: 0 <= k < |answers| ==> answers[k] != "") ==> r == answers
    ensures forall k :: FirstNonEmptyAt(answers, k) ==> |r| > 0 && r[0] == answers[k]
  {
    NonEmptyHead(answers);
    if forall k :: 0 <= k < |answers| ==> answers[k] != "" then
      NonEmptyKeepsNonEmpty(answers);
      NonEmpty(answers)
    else
      NonEmpty(answers)
  }

  /** Each non-empty answer is kept as often as it was returned, so exactly the empty answers are
      dropped. */
  lemma GrepperAnswersCounts(answers: seq<string>)
    ensures forall x :: multiset(GrepperAnswers(answers))[x]
                        == if x == "" then 0 else multiset(answers)[x]
    ensures |GrepperAnswers(answers)| == |answers| - multiset(answers)[""]
  {
    NonEmptyCounts(answers);
    var r := GrepperAnswers(answers);
    assert multiset(answers) == multiset(answers)["" := 0] + multiset{}["" := multiset(answers)[""]];
    assert multiset(r) == multiset(answers)["" := 0];
  }

  /** The filter commutes with concatenation, so the answers kept stay in their order. */
  lemma GrepperAnswersAppend(a: seq<string>, b: seq<string>)
    ensures GrepperAnswers(a + b) == GrepperAnswers(a) + GrepperAnswers(b)
  {
    NonEmptyAppend(a, b);
  }

  /** The confirmation line is accepted when, lower-cased (and not trimmed), it is "y" or "yes".
      On acceptance the pair is appended to the loaded examples and handed to
      `save_json_cmd_examples`, which rebinds its argument to an empty list before copying it,
      so the file is rewritten empty; with the clipboard enabled the command goes to the
      clipboard. */
  method ConfirmRun(file: ExampleFile, inputText: string, cmdText: string, toClipboard: bool,
                    answer: string)
    returns (accepted: bool, clipboard: Option<string>)
    modifies file
    ensures accepted <==> SpellsYes(answer)
    ensures file.contents == if accepted then [] else old(file.contents)
    ensures clipboard == if accepted && toClipboard then Some(cmdText) else None
  {
    LowerIsYes(answer);
    if Lower(answer) in {"y", "yes"} {
      var examples := file.contents;
      examples := examples + [(inputText, cmdText)];
      var rebound: seq<Example> := [];
      file.contents := rebound;
      clipboard := if toClipboard then Some(cmdText) else None;
      accepted := true;
    } else {
      clipboard := None;
      accepted := false;
    }
  }

  // ---------------------------------------------------------------------------------------------
  // cmdline_main: the resolution decision
  // ---------------------------------------------------------------------------------------------

  /** The decision of `cmdline_main`: a cache hit keeps origin "cache"; more than one non-empty
      answer-bank answer yields the first with origin "code grepper"; otherwise a disabled
      generative model raises, and an enabled one gives the extracted answer with origin "bloom".
      `rawAnswers` are the answer texts the answer bank returns and `bloomOutput` the generated
      text for the prompt built from `examples`. */
  function Resolve(opts: Options, examples: seq<Example>, rawAnswers: seq<string>,
                   bloomOutput: string): (r: Result<Resolved>)
    ensures !opts.disableCache && Lookup(examples, opts.search).Some?
            ==> r == Ok(Resolved(Lookup(examples, opts.search).value, Cache))
    ensures r.Ok? && r.value.origin == CodeGrepper
            ==> !opts.disableCodeGrepper && |GrepperAnswers(rawAnswers)| > AnswerBankThreshold
                && r.value.command == GrepperAnswers(rawAnswers)[0]
                && (opts.disableCache || Lookup(examples, opts.search).None?)
    ensures r.Ok? && r.value.origin == Bloom
            ==> !opts.disableBloom
                && (opts.disableCodeGrepper || |GrepperAnswers(rawAnswers)| <= AnswerBankThreshold)
                && ParseBloomOutput(bloomOutput, BloomPrompt(examples, opts.search), opts.search)
                   == Ok(r.value.command)
    ensures r == Err(NoSourceAvailable)
            <==> (opts.disableCache || Lookup(examples, opts.search).None?)
                 && (opts.disableCodeGrepper || |GrepperAnswers(rawAnswers)| <= AnswerBankThreshold)
                 && opts.disableBloom
    ensures r.Ok? && r.value.origin == Cache
            ==> !opts.disableCache && Lookup(examples, opts.search) == Some(r.value.command)
    ensures (opts.disableCache || Lookup(examples, opts.search).None?)
            && !opts.disableCodeGrepper && |GrepperAnswers(rawAnswers)| > AnswerBankThreshold
            ==> r == Ok(Resolved(GrepperAnswers(rawAnswers)[0], CodeGrepper))
    ensures (opts.disableCache || Lookup(examples, opts.search).None?)
            && (opts.disableCodeGrepper || |GrepperAnswers(rawAnswers)| <= AnswerBankThreshold)
            && !opts.disableBloom
            ==> var extracted := ParseBloomOutput(bloomOutput, BloomPrompt(examples, opts.search), opts.search);
                (extracted.Ok? ==> r == Ok(Resolved(extracted.value, Bloom)))
                && (extracted.Err? ==> r == Err(extracted.failure))
  {
    var cached := if opts.disableCache then None else Lookup(examples, opts.search);
    if cached.Some? then Ok(Resolved(cached.value, Cache))
    else
      var cmds := if opts.disableCodeGrepper then [] else GrepperAnswers(rawAnswers);
      if |cmds| > AnswerBankThreshold then Ok(Resolved(cmds[0], CodeGrepper))
      else if opts.disableBloom then Err(NoSourceAvailable)
      else
        match ParseBloomOutput(bloomOutput, BloomPrompt(examples, opts.search), opts.search)
        case Ok(c) => Ok(Resolved(c, Bloom))
        case Err(e) => Err(e)
  }

  /** The prompt always starts with the header, so the split on it never raises. */
  lemma NeverEmptySeparator(opts: Options, examples: seq<Example>, rawAnswers: seq<string>, bloomOutput: string)
    ensures Resolve(opts, examples, rawAnswers, bloomOutput) != Err(EmptySeparator)
  {
    PromptStartsWithHeader(examples, opts.search);
  }

  /** Answers that are all empty count as none. */
  lemma EmptyAnswersIgnored(opts: Options, examples: seq<Example>, rawAnswers: seq<string>, bloomOutput: string)
    requires forall k :: 0 <= k < |rawAnswers| ==> rawAnswers[k] == ""
    ensures Resolve(opts, examples, rawAnswers, bloomOutput) == Resolve(opts, examples, [], bloomOutput)
  {
    NonEmptyHead(rawAnswers);
  }

  // ---------------------------------------------------------------------------------------------
  // End-to-end extractions
  // ---------------------------------------------------------------------------------------------

  /** A line made of clean tokens (the first alphanumeric) comes back unchanged. */
  lemma CleanLine(ws: seq<string>)
    requires |ws| > 0 && forall w :: w in ws ==> w != "" && SpaceFree(w)
    requires forall c :: c in ws[0] ==> IsAlnum(c)
    ensures CorrectAnswerLine(Join(ws, " ")) == Ok(Join(ws, " "))
  {
    WordsJoin(ws);
    NonEmptyKeepsNonEmpty(ws);
    assert ws[0 := KeepAlnum(ws[0])] == ws;
  }

  /** Generated text that echoes the prompt and whose first non-empty line after it is a clean
      command yields that command. */
  lemma EchoedClean(prompt: string, tail: string, search: string, k: nat, ws: seq<string>)
    requires prompt != "" && !Occurs(tail, prompt)
    requires FirstNonEmptyAt(Lines(tail), k) && Lines(tail)[k] == Join(ws, " ")
    requires |ws| > 0 && forall w :: w in ws ==> w != "" && SpaceFree(w)
    requires forall c :: c in ws[0] ==> IsAlnum(c)
    ensures ParseBloomOutput(prompt + tail, prompt, search) == Ok(Join(ws, " "))
  {
    EchoedPrompt(prompt, tail, search);
    CleanLine(ws);
  }

  /** With no cache hit and the answer bank off, generated text that echoes the prompt and whose
      first non-empty line after it is a clean command resolves to that command, from the
      generative model. */
  lemma EchoedEndToEnd(opts: Options, examples: seq<Example>, rawAnswers: seq<string>,
                       tail: string, k: nat, ws: seq<string>)
    requires opts.disableCache || Lookup(examples, opts.search).None?
    requires opts.disableCodeGrepper && !opts.disableBloom
    requires !Occurs(tail, BloomPrompt(examples, opts.search))
    requires FirstNonEmptyAt(Lines(tail), k) && Lines(tail)[k] == Join(ws, " ")
    requires |ws| > 0 && forall w :: w in ws ==> w != "" && SpaceFree(w)
    requires forall c :: c in ws[0] ==> IsAlnum(c)
    ensures Resolve(opts, examples, rawAnswers, BloomPrompt(examples, opts.search) + tail)
         == Ok(Resolved(Join(ws, " "), Bloom))
  {
    var prompt := BloomPrompt(examples, opts.search);
    PromptStartsWithHeader(examples, opts.search);
    EchoedClean(prompt, tail, opts.search, k, ws);
  }

  /** When the prompt is not echoed but the generated text still holds the line `"# " + search`,
      every other line differing in length from the search phrase by more than two, the answer
      is the first non-empty line after the marked one. */
  lemma RealignedEndToEnd(output: string, prompt: string, search: string, i: nat, k: nat, ws: seq<string>)
    requires prompt != "" && !Occurs(output, prompt)
    requires i < |Lines(output)| && Lines(output)[i] == "# " + search
    requires forall j :: 0 <= j < |Lines(output)| && j != i ==>
      |Lines(output)[j]| > |search| + 2 || |Lines(output)[j]| + 2 < |search|
    requires FirstNonEmptyAt(Lines(output)[i + 1..], k) && Lines(output)[i + 1..][k] == Join(ws, " ")
    requires |ws| > 0 && forall w :: w in ws ==> w != "" && SpaceFree(w)
    requires forall c :: c in ws[0] ==> IsAlnum(c)
    ensures ParseBloomOutput(output, prompt, search) == Ok(Join(ws, " "))
  {
    SplitSinglePiece(output, prompt);
    JoinSplit(output, prompt);
    assert Split(output, prompt) == [output];
    MarkedLineAnchors(output, search, i);
    CleanLine(ws);
  }
}
