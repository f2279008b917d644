/** The Rust command finder, src/main.rs: edit distance, prompt assembly, answer extraction,
    cache lookup and learning, argument scanning and the resolution decision of `main`. */
module RustFinder {
  import opened Common
  import opened Text
  import opened Levenshtein
  import opened Realign
  import opened ExampleStore

  // ---------------------------------------------------------------------------------------------
  // levenshtein_distance: the full (len1 + 1) x (len2 + 1) table, filled column by column
  // ---------------------------------------------------------------------------------------------

  /** When the characters agree, the inner loop copies the diagonal neighbour into
      `d[i + 1][j + 1]`. */
  lemma EqualCell(s1: string, s2: string, i: nat, j: nat)
    requires i < |s1| && j < |s2| && s1[i] == s2[j]
    ensures EditDistance(s1[..i + 1], s2[..j + 1]) == EditDistance(s1[..i], s2[..j])
  {
    var a, b := s1[..i + 1], s2[..j + 1];
    assert a[..|a| - 1] == s1[..i] && b[..|b| - 1] == s2[..j];
    EqualLast(a, b);
  }

  /** When the characters differ, the inner loop stores the cheapest of deleting, inserting and
      substituting one character. */
  lemma UnequalCell(s1: string, s2: string, i: nat, j: nat, above: nat, left: nat, diagonal: nat)
    requires i < |s1| && j < |s2| && s1[i] != s2[j]
    requires above == EditDistance(s1[..i], s2[..j + 1])
    requires left == EditDistance(s1[..i + 1], s2[..j])
    requires diagonal == EditDistance(s1[..i], s2[..j])
    ensures Min(Min(above + 1, left + 1), diagonal + 1) == EditDistance(s1[..i + 1], s2[..j + 1])
  {
    Step(s1, s2, i, j);
  }

  /** Columns `0 .. j - 1` of the table hold the distances between prefixes. */
  ghost predicate ColumnsDone(d: array2<nat>, s1: string, s2: string, j: nat)
    reads d
    requires d.Length0 == |s1| + 1 && d.Length1 == |s2| + 1 && j <= |s2| + 1
  {
    forall ii, jj {:trigger d[ii, jj]} :: 0 <= ii <= |s1| && 0 <= jj < j ==> d[ii, jj] == EditDistance(s1[..ii], s2[..jj])
  }

  /** The body of the inner loop for cell `d[i][j]`: the diagonal neighbour when the characters
      agree, otherwise one more than the cheapest of the three neighbours. With the columns before
      `j` complete and column `j` filled above row `i`, it is the distance between the prefixes. */
  method CellValue(d: array2<nat>, s1: string, s2: string, i: nat, j: nat) returns (cell: nat)
    requires d.Length0 == |s1| + 1 && d.Length1 == |s2| + 1 && 1 <= i <= |s1| && 1 <= j <= |s2|
    requires ColumnsDone(d, s1, s2, j)
    requires forall ii {:trigger d[ii, j]} :: 0 <= ii < i ==> d[ii, j] == EditDistance(s1[..ii], s2[..j])
    ensures cell == EditDistance(s1[..i], s2[..j])
  {
    ghost var i', j' := i - 1, j - 1;
    var above, left, diagonal := d[i - 1, j], d[i, j - 1], d[i - 1, j - 1];
    assert above == EditDistance(s1[..i'], s2[..j' + 1]);
    assert left == EditDistance(s1[..i' + 1], s2[..j']);
    assert diagonal == EditDistance(s1[..i'], s2[..j']);
    if s1[i - 1] == s2[j - 1] {
      cell := diagonal;
      EqualCell(s1, s2, i', j');
    } else {
      cell := Min(Min(above + 1, left + 1), diagonal + 1);
      UnequalCell(s1, s2, i', j', above, left, diagonal);
    }
  }

  /** The inner loop of `levenshtein_distance`: fills column `j` from row 1 down, the columns
      before it being complete and row 0 holding `j`. */
  method FillColumn(d: array2<nat>, s1: string, s2: string, j: nat)
    requires d.Length0 == |s1| + 1 && d.Length1 == |s2| + 1 && 1 <= j <= |s2|
    requires ColumnsDone(d, s1, s2, j) && d[0, j] == j
    modifies d
    ensures ColumnsDone(d, s1, s2, j + 1)
    ensures forall jj :: j < jj <= |s2| ==> d[0, jj] == old(d[0, jj])
  {
    assert d[0, j] == EditDistance(s1[..0], s2[..j]);
    for i := 1 to |s1| + 1
      invariant ColumnsDone(d, s1, s2, j)
      invariant forall jj :: j < jj <= |s2| ==> d[0, jj] == old(d[0, jj])
      invariant forall ii {:trigger d[ii, j]} :: 0 <= ii < i ==> d[ii, j] == EditDistance(s1[..ii], s2[..j])
    {
      var cell := CellValue(d, s1, s2, i, j);
      d[i, j] := cell;
    }
  }

  /** `levenshtein_distance`: column 0 holds `i`, row 0 holds `j`, and every other cell is filled
      column by column; the result is the bottom-right cell. */
  method LevenshteinDistance(s1: string, s2: string) returns (dist: nat)
    ensures dist == EditDistance(s1, s2)
  {
    var len1, len2 := |s1|, |s2|;
    var d := new nat[len1 + 1, len2 + 1];
    for i := 0 to len1 + 1
      invariant forall ii :: 0 <= ii < i ==> d[ii, 0] == ii
    {
      d[i, 0] := i;
    }
    for j := 0 to len2 + 1
      invariant forall ii :: 0 <= ii <= len1 ==> d[ii, 0] == ii
      invariant forall jj :: 0 <= jj < j ==> d[0, jj] == jj
    {
      d[0, j] := j;
    }
    assert ColumnsDone(d, s1, s2, 1) by {
      assert forall ii :: 0 <= ii <= len1 ==> d[ii, 0] == EditDistance(s1[..ii], s2[..0]);
    }
    for j := 1 to len2 + 1
      invariant ColumnsDone(d, s1, s2, j)
      invariant forall jj :: j <= jj <= len2 ==> d[0, jj] == jj
    {
      FillColumn(d, s1, s2, j);
    }
    dist := d[len1, len2];
    assert s1[..len1] == s1 && s2[..len2] == s2;
  }

  // ---------------------------------------------------------------------------------------------
  // form_query_base and the prompt of run_bloom_query
  // ---------------------------------------------------------------------------------------------

  /** The few-shot lines: `"# " + query` then `"> " + command` for every example, in order. */
  function QueryBase(examples: seq<Example>): (lines: seq<string>)
    ensures |lines| == 2 * |examples|
    ensures forall k :: 0 <= k < |examples| ==>
      lines[2 * k] == "# " + examples[k].0 && lines[2 * k + 1] == "> " + examples[k].1
  {
    if examples == [] then []
    else
      var n := |examples| - 1;
      assert forall k :: 0 <= k < n ==> examples[..n][k] == examples[k];
      QueryBase(examples[..n]) + ["# " + examples[n].0, "> " + examples[n].1]
  }

  method FormQueryBase(examples: seq<Example>) returns (lines: seq<string>)
    ensures lines == QueryBase(examples)
  {
    lines := [];
    for k := 0 to |examples|
      invariant lines == QueryBase(examples[..k])
    {
      assert examples[..k + 1][..k] == examples[..k];
      lines := lines + ["# " + examples[k].0];
      lines := lines + ["> " + examples[k].1];
    }
    assert examples[..|examples|] == examples;
  }

  /** The prompt: the few-shot lines and then the raw search text, joined by newlines. */
  function BloomPrompt(examples: seq<Example>, text: string): string
  {
    Join(QueryBase(examples) + [text], "\n")
  }

  /** The prompt assembly of `run_bloom_query`. */
  method RunBloomPrompt(examples: seq<Example>, text: string) returns (prompt: string)
    ensures prompt == BloomPrompt(examples, text)
  {
    var lines := FormQueryBase(examples);
    lines := lines + [text];
    prompt := Join(lines, "\n");
  }

  predicate SingleLineExamples(examples: seq<Example>)
  {
    forall k :: 0 <= k < |examples| ==> '\n' !in examples[k].0 && '\n' !in examples[k].1
  }

  lemma {:induction false} QueryBaseSingleLines(examples: seq<Example>)
    requires SingleLineExamples(examples)
    ensures forall p :: p in QueryBase(examples) ==> '\n' !in p
  {
    if examples != [] {
      var n := |examples| - 1;
      assert SingleLineExamples(examples[..n]) by {
        forall k | 0 <= k < n ensures '\n' !in examples[..n][k].0 && '\n' !in examples[..n][k].1 {
          assert examples[..n][k] == examples[k];
        }
      }
      QueryBaseSingleLines(examples[..n]);
      assert '\n' !in "# " + examples[n].0 && '\n' !in "> " + examples[n].1;
    }
  }

  /** When no example and not the search text spans several lines, the lines of the prompt are
      exactly the few-shot lines followed by the search text. */
  lemma PromptLines(examples: seq<Example>, text: string)
    requires SingleLineExamples(examples) && '\n' !in text
    ensures Lines(BloomPrompt(examples, text)) == QueryBase(examples) + [text]
    ensures |Lines(BloomPrompt(examples, text))| == 2 * |examples| + 1
  {
    QueryBaseSingleLines(examples);
    SplitJoin(QueryBase(examples) + [text], '\n');
  }

  // ---------------------------------------------------------------------------------------------
  // correct_answer_line and parse_bloom_response
  // ---------------------------------------------------------------------------------------------

  /** Split the line on single spaces, keep only the alphanumeric characters of the first piece
      and join the pieces again with single spaces. */
  function CorrectAnswerLine(line: string): string
  {
    var comps := Split(line, " ");
    Join(comps[0 := KeepAlnum(comps[0])], " ")
  }

  /** Only the first space-separated token changes, and it loses exactly its non-alphanumeric
      characters; the number of tokens and every other token are kept. */
  lemma CorrectAnswerLineTokens(line: string)
    ensures var toks := Split(line, " ");
            var out := Split(CorrectAnswerLine(line), " ");
            |out| == |toks| && out[0] == KeepAlnum(toks[0])
            && forall k :: 1 <= k < |toks| ==> out[k] == toks[k]
  {
    var comps := Split(line, " ");
    var corrected := comps[0 := KeepAlnum(comps[0])];
    SplitPiecesFree(line, ' ');
    forall p | p in corrected ensures ' ' !in p {
      var k :| 0 <= k < |corrected| && corrected[k] == p;
      if k > 0 {
        assert comps[k] in comps;
      }
    }
    SplitJoin(corrected, ' ');
  }

  /** A one-token line without any alphanumeric character, such as "$", is cleaned to the empty
      string, so the extractor can resolve to an empty command. */
  lemma SymbolLineCleansToEmpty(line: string)
    requires ' ' !in line && forall c :: c in line ==> !IsAlnum(c)
    ensures CorrectAnswerLine(line) == ""
  {
    SplitWithoutSeparator(line, ' ');
    assert Split(line, " ") == [line];
  }

  /** Rust `str::split(&str)`, including the empty pattern, which matches at every character
      boundary: splitting "ab" on the empty pattern gives "", "a", "b" and "". */
  function SplitOn(s: string, pattern: string): (parts: seq<string>)
    ensures |parts| >= 1
    ensures pattern == "" ==> |parts| == |s| + 2
  {
    if pattern == "" then [""] + seq(|s|, k requires 0 <= k < |s| => [s[k]]) + [""]
    else Split(s, pattern)
  }

  /** `parse_bloom_response(resp_text, query_text, cmd_text)`: `prompt` is the text sent to the
      model and `search` the search phrase. No candidate lines panic; all-empty candidates panic
      when the first is taken; otherwise the first non-empty candidate is corrected. */
  function ParseBloomResponse(resp: string, prompt: string, search: string): (r: Result<string>)
    ensures var lines := AnswerLines(SplitOn(resp, prompt), search);
            (|lines| == 0 ==> r == Err(NoBloomCandidates))
            && (|lines| > 0 && (forall k :: !FirstNonEmptyAt(lines, k)) ==> r == Err(NoNonEmptyLine))
            && (r.Ok? <==> exists k :: FirstNonEmptyAt(lines, k))
            && (forall k :: FirstNonEmptyAt(lines, k) ==> r == Ok(CorrectAnswerLine(lines[k])))
  {
    var lines := AnswerLines(SplitOn(resp, prompt), search);
    NonEmptyHead(lines);
    if |lines| == 0 then Err(NoBloomCandidates)
    else
      var nonEmpty := NonEmpty(lines);
      if |nonEmpty| == 0 then Err(NoNonEmptyLine)
      else Ok(CorrectAnswerLine(nonEmpty[0]))
  }

  /** An empty prompt never yields an answer: the split has `|resp| + 2` pieces, which is two only
      for an empty response, whose second piece has no non-empty line. */
  lemma EmptyPromptNeverAnswers(resp: string, search: string)
    ensures ParseBloomResponse(resp, "", search).Err?
  {
    var parts := SplitOn(resp, "");
    if |parts| == 2 {
      assert parts[1] == "";
      assert Lines("") == [""];
    }
  }

  /** When the generated text begins with the prompt and the prompt does not recur, the answer
      is the corrected first non-empty line of what follows it. */
  lemma EchoedPrompt(prompt: string, tail: string, search: string)
    requires prompt != "" && !Occurs(tail, prompt)
    ensures var lines := Lines(tail);
            var r := ParseBloomResponse(prompt + tail, prompt, search);
            (r.Ok? <==> exists k :: FirstNonEmptyAt(lines, k))
            && (forall k :: FirstNonEmptyAt(lines, k) ==> r == Ok(CorrectAnswerLine(lines[k])))
  {
    SplitAfterSeparator(prompt, tail);
    SplitSinglePiece(tail, prompt);
    JoinSplit(tail, prompt);
    assert SplitOn(prompt + tail, prompt) == ["", tail];
  }

  /** When the prompt does not occur in the generated text, the candidates are the lines after
      the first line closest to the search phrase. */
  lemma NotEchoed(resp: string, prompt: string, search: string)
    requires prompt != "" && !Occurs(resp, prompt)
    ensures exists a :: IsAnchor(Lines(resp), search, a)
                     && AnswerLines(SplitOn(resp, prompt), search) == Lines(resp)[a + 1..]
  {
    SplitSinglePiece(resp, prompt);
    JoinSplit(resp, prompt);
    var parts := SplitOn(resp, prompt);
    assert parts == [resp];
    var r := AnswerLines(parts, search);
    assert exists a :: IsAnchor(Lines(parts[0]), search, a) && r == Lines(parts[0])[a + 1..];
    var a :| IsAnchor(Lines(parts[0]), search, a) && r == Lines(parts[0])[a + 1..];
    assert IsAnchor(Lines(resp), search, a);
  }

  // ---------------------------------------------------------------------------------------------
  // confirm_run_of_bloom_query
  // ---------------------------------------------------------------------------------------------

  /** The confirmation line read from standard input is accepted when, trimmed and lower-cased,
      it is "y" or "yes". On acceptance the pair (search, command) is appended to the stored
      examples and, with the clipboard enabled, the command is handed to the clipboard. */
  method ConfirmRun(file: ExampleFile, inputText: string, cmdText: string, toClipboard: bool,
                    answer: string)
    returns (accepted: bool, clipboard: Option<string>)
    modifies file
    ensures accepted <==> SpellsYes(Trim(answer))
    ensures file.contents == if accepted then old(file.contents) + [(inputText, cmdText)]
                             else old(file.contents)
    ensures clipboard == if accepted && toClipboard then Some(cmdText) else None
  {
    LowerIsYes(Trim(answer));
    if Lower(Trim(answer)) in {"y", "yes"} {
      var examples := file.contents;
      examples := examples + [(inputText, cmdText)];
      file.contents := examples;
      clipboard := if toClipboard then Some(cmdText) else None;
      accepted := true;
    } else {
      clipboard := None;
      accepted := false;
    }
  }

  // ---------------------------------------------------------------------------------------------
  // main: the argument loop and the resolution decision
  // ---------------------------------------------------------------------------------------------

  predicate IsFlag(arg: string)
  {
    arg in {"--debug", "--disable-cache", "--disable-codegrepper", "--disable-bloom", "--disable-clipboard"}
  }

  /** The search phrase left by scanning `args`: the last argument that is not a switch, or the
      empty string when every argument is one. */
  function LastNonFlag(args: seq<string>): string
  {
    if args == [] then ""
    else if IsFlag(args[|args| - 1]) then LastNonFlag(args[..|args| - 1])
    else args[|args| - 1]
  }

  /** The scanned phrase is empty when every argument is a switch, and otherwise it is the
      non-switch argument after which only switches follow. */
  lemma {:induction false} LastNonFlagIsLast(args: seq<string>)
    ensures (forall k :: 0 <= k < |args| ==> IsFlag(args[k])) ==> LastNonFlag(args) == ""
    ensures forall k :: (0 <= k < |args| && !IsFlag(args[k])
                         && forall j :: k < j < |args| ==> IsFlag(args[j])) ==> LastNonFlag(args) == args[k]
  {
    if args != [] {
      var n := |args| - 1;
      var init := args[..n];
      LastNonFlagIsLast(init);
      assert forall k :: 0 <= k < n ==> init[k] == args[k];
    }
  }

  /** The effect of one argument on the switches and the search phrase. */
  function ApplyArg(o: Options, arg: string): Options
  {
    if arg == "--debug" then o.(debug := true)
    else if arg == "--disable-cache" then o.(disableCache := true)
    else if arg == "--disable-codegrepper" then o.(disableCodeGrepper := true)
    else if arg == "--disable-bloom" then o.(disableBloom := true)
    else if arg == "--disable-clipboard" then o.(disableClipboard := true)
    else o.(search := arg)
  }

  /** The options after the arguments have been applied from left to right. */
  function Scan(args: seq<string>): Options
  {
    if args == [] then Options("", false, false, false, false, false)
    else ApplyArg(Scan(args[..|args| - 1]), args[|args| - 1])
  }

  /** One argument turns on the switch it names, or else becomes the phrase. */
  lemma ApplyArgMeaning(o: Options, arg: string)
    ensures ApplyArg(o, arg).debug == (o.debug || arg == "--debug")
    ensures ApplyArg(o, arg).disableCache == (o.disableCache || arg == "--disable-cache")
    ensures ApplyArg(o, arg).disableCodeGrepper == (o.disableCodeGrepper || arg == "--disable-codegrepper")
    ensures ApplyArg(o, arg).disableBloom == (o.disableBloom || arg == "--disable-bloom")
    ensures ApplyArg(o, arg).disableClipboard == (o.disableClipboard || arg == "--disable-clipboard")
    ensures ApplyArg(o, arg).search == if IsFlag(arg) then o.search else arg
  {
    if arg == "--debug" {
      assert |arg| == 7;
    } else if arg == "--disable-cache" {
      assert |arg| == 15 && arg[10] == 'c';
    } else if arg == "--disable-codegrepper" {
      assert |arg| == 21;
    } else if arg == "--disable-bloom" {
      assert |arg| == 15 && arg[10] == 'b';
    } else if arg == "--disable-clipboard" {
      assert |arg| == 19;
    }
  }

  /** Each switch is on exactly when it was given, and the phrase is the last non-switch. */
  lemma {:induction false} ScanMeaning(args: seq<string>)
    ensures Scan(args).debug <==> "--debug" in args
    ensures Scan(args).disableCache <==> "--disable-cache" in args
    ensures Scan(args).disableCodeGrepper <==> "--disable-codegrepper" in args
    ensures Scan(args).disableBloom <==> "--disable-bloom" in args
    ensures Scan(args).disableClipboard <==> "--disable-clipboard" in args
    ensures Scan(args).search == LastNonFlag(args)
  {
    if args != [] {
      var n := |args| - 1;
      var init, last := args[..n], args[n];
      ScanMeaning(init);
      ApplyArgMeaning(Scan(init), last);
      assert args == init + [last];
      assert forall x :: x in args <==> x in init || x == last;
    }
  }

  /** Every argument, the program path `args[0]` included, either sets its switch or replaces
      the search phrase, so the last non-switch argument wins. */
  method ParseArgs(args: seq<string>) returns (opts: Options)
    ensures opts == Scan(args)
    ensures opts.debug <==> "--debug" in args
    ensures opts.disableCache <==> "--disable-cache" in args
    ensures opts.disableCodeGrepper <==> "--disable-codegrepper" in args
    ensures opts.disableBloom <==> "--disable-bloom" in args
    ensures opts.disableClipboard <==> "--disable-clipboard" in args
    ensures (forall k :: 0 <= k < |args| ==> IsFlag(args[k])) ==> opts.search == ""
    ensures forall k :: (0 <= k < |args| && !IsFlag(args[k])
                         && forall j :: k < j < |args| ==> IsFlag(args[j])) ==> opts.search == args[k]
  {
    var search := "";
    var debug, disableCache, disableCodeGrepper, disableBloom, disableClipboard := false, false, false, false, false;
    for i := 0 to |args|
      invariant Options(search, debug, disableCache, disableCodeGrepper, disableBloom, disableClipboard)
                == Scan(args[..i])
    {
      var arg := args[i];
      assert args[..i + 1][..i] == args[..i];
      if arg == "--debug" {
        debug := true;
      } else if arg == "--disable-cache" {
        disableCache := true;
      } else if arg == "--disable-codegrepper" {
        disableCodeGrepper := true;
      } else if arg == "--disable-bloom" {
        disableBloom := true;
      } else if arg == "--disable-clipboard" {
        disableClipboard := true;
      } else {
        search := arg;
      }
    }
    assert args[..|args|] == args;
    opts := Options(search, debug, disableCache, disableCodeGrepper, disableBloom, disableClipboard);
    ScanMeaning(args);
    LastNonFlagIsLast(args);
  }

  /** The decision of `main` once the arguments are scanned: an empty search phrase panics; a
      cache hit is kept with origin "cache"; more than one answer-bank answer yields the first
      with origin "code grepper"; otherwise a disabled generative model is a failure, and an
      enabled one gives the extracted answer with origin "bloom". `grepperAnswers` is what the
      answer bank returns (the Rust client keeps empty answers) and `bloomOutput` the generated
      text for the prompt built from `examples`. */
  function Resolve(opts: Options, examples: seq<Example>, grepperAnswers: seq<string>,
                   bloomOutput: string): (r: Result<Resolved>)
    ensures opts.search == "" ==> r == Err(NoSearchTerm)
    ensures opts.search != "" && !opts.disableCache && Lookup(examples, opts.search).Some?
            ==> r == Ok(Resolved(Lookup(examples, opts.search).value, Cache))
    ensures r.Ok? && r.value.origin == CodeGrepper
            ==> !opts.disableCodeGrepper && |grepperAnswers| > AnswerBankThreshold
                && r.value.command == grepperAnswers[0]
                && (opts.disableCache || Lookup(examples, opts.search).None?)
    ensures r.Ok? && r.value.origin == Bloom
            ==> !opts.disableBloom
                && (opts.disableCodeGrepper || |grepperAnswers| <= AnswerBankThreshold)
                && ParseBloomResponse(bloomOutput, BloomPrompt(examples, opts.search), opts.search)
                   == Ok(r.value.command)
    ensures r == Err(NoSourceAvailable)
            <==> opts.search != "" && (opts.disableCache || Lookup(examples, opts.search).None?)
                 && (opts.disableCodeGrepper || |grepperAnswers| <= AnswerBankThreshold)
                 && opts.disableBloom
    ensures r.Ok? && r.value.origin == Cache
            ==> opts.search != "" && !opts.disableCache && Lookup(examples, opts.search) == Some(r.value.command)
    ensures opts.search != "" && (opts.disableCache || Lookup(examples, opts.search).None?)
            && !opts.disableCodeGrepper && |grepperAnswers| > AnswerBankThreshold
            ==> r == Ok(Resolved(grepperAnswers[0], CodeGrepper))
    ensures opts.search != "" && (opts.disableCache || Lookup(examples, opts.search).None?)
            && (opts.disableCodeGrepper || |grepperAnswers| <= AnswerBankThreshold) && !opts.disableBloom
            ==> var extracted := ParseBloomResponse(bloomOutput, BloomPrompt(examples, opts.search), opts.search);
                (extracted.Ok? ==> r == Ok(Resolved(extracted.value, Bloom)))
                && (extracted.Err? ==> r == Err(extracted.failure))
  {
    if opts.search == "" then Err(NoSearchTerm)
    else
      var cached := if opts.disableCache then None else Lookup(examples, opts.search);
      if cached.Some? then Ok(Resolved(cached.value, Cache))
      else
        var cmds := if opts.disableCodeGrepper then [] else grepperAnswers;
        if |cmds| > AnswerBankThreshold then Ok(Resolved(cmds[0], CodeGrepper))
        else if opts.disableBloom then Err(NoSourceAvailable)
        else
          match ParseBloomResponse(bloomOutput, BloomPrompt(examples, opts.search), opts.search)
          case Ok(c) => Ok(Resolved(c, Bloom))
          case Err(e) => Err(e)
  }

  /** A single answer-bank answer is not trusted: the outcome is the same as with no answer. */
  lemma SingleAnswerFallsThrough(opts: Options, examples: seq<Example>, answer: string, bloomOutput: string)
    ensures Resolve(opts, examples, [answer], bloomOutput) == Resolve(opts, examples, [], bloomOutput)
  {
  }

  /** A line whose first token is already alphanumeric is left as it is. */
  lemma CorrectedListing()
    ensures CorrectAnswerLine("ls -la") == "ls -la"
  {
    assert Join(["ls", "-la"], " ") == "ls -la";
    SplitJoin(["ls", "-la"], ' ');
    assert KeepAlnum("ls") == "ls";
    assert Split("ls -la", " ")[0 := KeepAlnum("ls")] == ["ls", "-la"];
  }

  /** With no cache hit and no trusted answer-bank answer, generated text that echoes the prompt
      and continues with a tail in which it does not recur resolves, with origin "bloom", to the
      corrected first non-empty line of the tail. */
  lemma EchoedEndToEnd(opts: Options, examples: seq<Example>, grepperAnswers: seq<string>,
                       tail: string, k: nat)
    requires opts.search != "" && (opts.disableCache || Lookup(examples, opts.search).None?)
    requires opts.disableCodeGrepper || |grepperAnswers| <= AnswerBankThreshold
    requires !opts.disableBloom
    requires BloomPrompt(examples, opts.search) != ""
    requires !Occurs(tail, BloomPrompt(examples, opts.search))
    requires FirstNonEmptyAt(Lines(tail), k)
    ensures Resolve(opts, examples, grepperAnswers, BloomPrompt(examples, opts.search) + tail)
            == Ok(Resolved(CorrectAnswerLine(Lines(tail)[k]), Bloom))
  {
    EchoedPrompt(BloomPrompt(examples, opts.search), tail, opts.search);
  }
}
