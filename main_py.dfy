/** The older Python command finder, main.py. Its prompt builder and answer clean-up are the
    same code as in src/bash_command_finder.py (module PyFinder); what differs is the saved
    store (duplicates removed), the answer-bank parser (comment lines dropped, no empty-answer
    filter), the extractor (no candidate guard) and the decision (any answer is trusted). */
module MainPy {
  import opened Common
  import opened Text
  import opened Realign
  import opened ExampleStore
  import PyFinder

  // ---------------------------------------------------------------------------------------------
  // save_json_cmd_examples
  // ---------------------------------------------------------------------------------------------

  predicate NoDuplicates(xs: seq<Example>)
  {
    forall i, j :: 0 <= i < j < |xs| ==> xs[i] != xs[j]
  }

  /** The pairs passed through a set and back to a list: each distinct pair once. Python leaves the order to the set;
      this definition keeps first occurrences, and the callers below rely only on the contract. */
  function Dedup(xs: seq<Example>): (r: seq<Example>)
    ensures NoDuplicates(r)
    ensures forall e :: e in r <==> e in xs
    ensures |r| <= |xs|
  {
    if xs == [] then []
    else
      var n := |xs| - 1;
      assert xs == xs[..n] + [xs[n]];
      var r := Dedup(xs[..n]);
      if xs[n] in r then r else r + [xs[n]]
  }

  /** Whatever order the set gives, once the pair (q, c) has been saved a lookup of q hits, and
      hits a command stored for q; when no earlier example had query q, it hits c. */
  lemma RememberedAfterSave(saved: seq<Example>, examples: seq<Example>, q: string, c: string)
    requires forall e :: e in saved <==> e in examples + [(q, c)]
    ensures Lookup(saved, q).Some?
    ensures (q, Lookup(saved, q).value) in examples + [(q, c)]
    ensures (forall k :: 0 <= k < |examples| ==> examples[k].0 != q) ==> Lookup(saved, q) == Some(c)
  {
    assert (q, c) in examples + [(q, c)];
    var k :| 0 <= k < |saved| && saved[k] == (q, c);
    assert saved[k].0 == q;
    var v := Lookup(saved, q).value;
    var j :| 0 <= j < |saved| && saved[j] == (q, v);
    assert saved[j] in saved;
    if forall k :: 0 <= k < |examples| ==> examples[k].0 != q {
      assert (q, v) !in examples;
    }
  }

  // ---------------------------------------------------------------------------------------------
  // parse_code_grepper_answer and query_code_grepper
  // ---------------------------------------------------------------------------------------------

  /** The lines that do not start with '#', in order. */
  function Uncommented(lines: seq<string>): (r: seq<string>)
    requires "" !in lines
    ensures |r| <= |lines|
  {
    if lines == [] then []
    else
      (if lines[0][0] != '#' then [lines[0]] else []) + Uncommented(lines[1..])
  }

  /** Each line not starting with '#' is kept as often as it occurs, and no comment line is kept. */
  lemma {:induction false} UncommentedCounts(lines: seq<string>)
    requires "" !in lines
    ensures forall x :: multiset(Uncommented(lines))[x]
                        == if x != "" && x[0] != '#' then multiset(lines)[x] else 0
  {
    if lines != [] {
      UncommentedCons(lines[0], lines[1..]);
      UncommentedCounts(lines[1..]);
      assert lines == [lines[0]] + lines[1..];
    }
  }

  /** The kept lines are exactly the lines that do not start with '#'. */
  lemma UncommentedMembers(lines: seq<string>)
    requires "" !in lines
    ensures forall x :: x in Uncommented(lines) <==> x in lines && x != "" && x[0] != '#'
  {
    UncommentedCounts(lines);
  }

  /** One unfolding: the first line is kept unless it is a comment. */
  lemma UncommentedCons(x: string, rest: seq<string>)
    requires x != "" && "" !in rest
    ensures Uncommented([x] + rest) == (if x[0] != '#' then [x] else []) + Uncommented(rest)
  {
    assert ([x] + rest)[0] == x && ([x] + rest)[1..] == rest;
  }

  /** Stripping comment lines commutes with concatenation, so the kept lines stay in order. */
  lemma {:induction false} UncommentedAppend(a: seq<string>, b: seq<string>)
    requires "" !in a && "" !in b
    ensures Uncommented(a + b) == Uncommented(a) + Uncommented(b)
  {
    if a != [] {
      var tail := a[1..];
      assert a == [a[0]] + tail;
      assert a + b == [a[0]] + (tail + b);
      UncommentedAppend(tail, b);
      UncommentedCons(a[0], tail + b);
      UncommentedCons(a[0], tail);
      var h, ut, ub := if a[0][0] != '#' then [a[0]] else [], Uncommented(tail), Uncommented(b);
      assert Uncommented(a + b) == h + (ut + ub);
      assert h + (ut + ub) == (h + ut) + ub;
    } else {
      assert a + b == b;
    }
  }

  /** An answer without '#' is kept as it is. Otherwise it is split into lines, and an empty line
      fails when its first character is read; when none is empty the lines not starting with '#' are joined again. */
  function ParseCodeGrepperAnswer(answer: string): (r: Result<string>)
    ensures '#' !in answer ==> r == Ok(answer)
    ensures r.Err? <==> '#' in answer && "" in Lines(answer)
    ensures r.Err? ==> r == Err(BlankAnswerLine)
  {
    if '#' !in answer then Ok(answer)
    else
      var lines := Lines(answer);
      if "" in lines then Err(BlankAnswerLine)
      else Ok(Join(Uncommented(lines), "\n"))
  }

  /** When comment lines are stripped, the lines of the result are exactly the kept lines, and
      none of them starts with '#'; when every line is a comment the result is empty. */
  lemma UncommentedLines(answer: string)
    requires '#' in answer && ParseCodeGrepperAnswer(answer).Ok?
    ensures var kept := Uncommented(Lines(answer));
            var v := ParseCodeGrepperAnswer(answer).value;
            (kept == [] ==> v == "")
            && (kept != [] ==> Lines(v) == kept)
            && forall x :: x in kept ==> x != "" && x[0] != '#'
  {
    var lines := Lines(answer);
    var kept := Uncommented(lines);
    UncommentedMembers(lines);
    if kept != [] {
      SplitPiecesFree(answer, '\n');
      forall x | x in kept ensures '\n' !in x {
        assert x in lines;
      }
      SplitJoin(kept, '\n');
    }
  }

  /** `query_code_grepper`: every answer text is parsed; the first that fails raises. */
  function ParseAnswers(raw: seq<string>): (r: Result<seq<string>>)
    ensures r.Ok? <==> forall k :: 0 <= k < |raw| ==> ParseCodeGrepperAnswer(raw[k]).Ok?
    ensures r.Ok? ==> |r.value| == |raw|
                      && forall k :: 0 <= k < |raw| ==> r.value[k] == ParseCodeGrepperAnswer(raw[k]).value
    ensures r.Err? ==> r == Err(BlankAnswerLine)
  {
    if raw == [] then Ok([])
    else
      assert forall k :: 1 <= k < |raw| ==> raw[1..][k - 1] == raw[k];
      match ParseCodeGrepperAnswer(raw[0])
      case Err(e) => Err(e)
      case Ok(a) =>
        match ParseAnswers(raw[1..])
        case Err(e) => Err(e)
        case Ok(rest) => Ok([a] + rest)
  }

  // ---------------------------------------------------------------------------------------------
  // parse_bloom_output
  // ---------------------------------------------------------------------------------------------

  /** The extractor without the candidate guard: no non-empty candidate fails when the first is taken. */
  function ParseBloomOutput(output: string, prompt: string, search: string): (r: Result<string>)
    ensures prompt == "" ==> r == Err(EmptySeparator)
    ensures prompt != "" ==>
      var lines := AnswerLines(Split(output, prompt), search);
      (r == Err(NoNonEmptyLine) <==> forall k :: !FirstNonEmptyAt(lines, k))
      && (forall k :: FirstNonEmptyAt(lines, k) ==> r == PyFinder.CorrectAnswerLine(lines[k]))
  {
    if prompt == "" then Err(EmptySeparator)
    else
      var lines := AnswerLines(Split(output, prompt), search);
      NonEmptyHead(lines);
      var nonEmpty := NonEmpty(lines);
      if |nonEmpty| == 0 then Err(NoNonEmptyLine)
      else
        assert exists k :: FirstNonEmptyAt(lines, k);
        PyFinder.CorrectAnswerLine(nonEmpty[0])
  }

  /** The two Python extractors agree, except that where src/bash_command_finder.py reports that
      no candidate exists, main.py fails at the index instead. */
  lemma AgreesWithGuardedExtractor(output: string, prompt: string, search: string)
    ensures var guarded := PyFinder.ParseBloomOutput(output, prompt, search);
            var r := ParseBloomOutput(output, prompt, search);
            (guarded != Err(NoBloomCandidates) ==> r == guarded)
            && (guarded == Err(NoBloomCandidates) ==> r == Err(NoNonEmptyLine))
  {
    if prompt != "" {
      NonEmptyHead(AnswerLines(Split(output, prompt), search));
    }
  }

  // ---------------------------------------------------------------------------------------------
  // confirm_run_of_bloom_query
  // ---------------------------------------------------------------------------------------------

  /** The confirmation line is accepted when, lower-cased, it is "y" or "yes". On acceptance the
      pair is appended to the loaded examples and the store is rewritten with each distinct pair
      once, in an order the contract leaves open; with the clipboard enabled the command goes to
      the clipboard. */
  method ConfirmRun(file: ExampleFile, inputText: string, cmdText: string, toClipboard: bool,
                    answer: string)
    returns (accepted: bool, clipboard: Option<string>)
    modifies file
    ensures accepted <==> SpellsYes(answer)
    ensures accepted ==> NoDuplicates(file.contents)
                         && forall e :: e in file.contents <==> e in old(file.contents) + [(inputText, cmdText)]
    ensures !accepted ==> file.contents == old(file.contents)
    ensures clipboard == if accepted && toClipboard then Some(cmdText) else None
  {
    LowerIsYes(answer);
    if Lower(answer) in {"y", "yes"} {
      var examples := file.contents;
      examples := examples + [(inputText, cmdText)];
      file.contents := Dedup(examples);
      clipboard := if toClipboard then Some(cmdText) else None;
      accepted := true;
    } else {
      clipboard := None;
      accepted := false;
    }
  }

  // ---------------------------------------------------------------------------------------------
  // cmdline_main: the resolution decision
  // ---------------------------------------------------------------------------------------------

  /** The part of `cmdline_main` after a cache miss: every answer of the answer bank is parsed,
      the generative model is asked only when there are none, and the first answer is taken when
      there is at least one. */
  function AnswerBankThenModel(search: string, examples: seq<Example>, rawAnswers: seq<string>,
                               bloomOutput: string): (r: Result<Resolved>)
    ensures r.Ok? ==> r.value.origin != Cache
    ensures r.Ok? && r.value.origin == CodeGrepper
            ==> |rawAnswers| > 0 && ParseCodeGrepperAnswer(rawAnswers[0]) == Ok(r.value.command)
    ensures r.Ok? && r.value.origin == Bloom
            ==> rawAnswers == []
                && ParseBloomOutput(bloomOutput, PyFinder.BloomPrompt(examples, search), search)
                   == Ok(r.value.command)
    ensures |rawAnswers| > 0 && (forall k :: 0 <= k < |rawAnswers| ==> ParseCodeGrepperAnswer(rawAnswers[k]).Ok?)
            ==> r == Ok(Resolved(ParseCodeGrepperAnswer(rawAnswers[0]).value, CodeGrepper))
    ensures ParseAnswers(rawAnswers).Err? ==> r == Err(BlankAnswerLine)
    ensures rawAnswers == []
            ==> var extracted := ParseBloomOutput(bloomOutput, PyFinder.BloomPrompt(examples, search), search);
                (extracted.Ok? ==> r == Ok(Resolved(extracted.value, Bloom)))
                && (extracted.Err? ==> r == Err(extracted.failure))
    ensures r != Err(EmptySeparator)
  {
    PyFinder.PromptStartsWithHeader(examples, search);
    match ParseAnswers(rawAnswers)
    case Err(e) => Err(e)
    case Ok(cmds) =>
      if |cmds| == 0 then
        match ParseBloomOutput(bloomOutput, PyFinder.BloomPrompt(examples, search), search)
        case Ok(c) => Ok(Resolved(c, Bloom))
        case Err(e) => Err(e)
      else Ok(Resolved(cmds[0], CodeGrepper))
  }

  /** The decision of `cmdline_main`: with `useCache` a cache hit is kept; otherwise the answer
      bank and then the generative model decide. The origin is recorded here although main.py
      does not print it. */
  function Resolve(search: string, useCache: bool, examples: seq<Example>, rawAnswers: seq<string>,
                   bloomOutput: string): (r: Result<Resolved>)
    ensures useCache && Lookup(examples, search).Some?
            ==> r == Ok(Resolved(Lookup(examples, search).value, Cache))
    ensures r.Ok? && r.value.origin == Cache
            ==> useCache && Lookup(examples, search) == Some(r.value.command)
    ensures !useCache || Lookup(examples, search).None?
            ==> r == AnswerBankThenModel(search, examples, rawAnswers, bloomOutput)
    ensures r != Err(EmptySeparator)
  {
    var cached := if useCache then Lookup(examples, search) else None;
    if cached.Some? then Ok(Resolved(cached.value, Cache))
    else AnswerBankThenModel(search, examples, rawAnswers, bloomOutput)
  }

  /** Where the two Python versions part: with the cache off and a single plain answer, main.py
      takes the answer, while src/bash_command_finder.py does not take it from the answer bank. */
  lemma SingleAnswerTrusted(opts: Options, examples: seq<Example>, answer: string, bloomOutput: string)
    requires opts.disableCache && !opts.disableCodeGrepper
    requires answer != "" && '#' !in answer
    ensures Resolve(opts.search, false, examples, [answer], bloomOutput) == Ok(Resolved(answer, CodeGrepper))
    ensures var other := PyFinder.Resolve(opts, examples, [answer], bloomOutput);
            !(other.Ok? && other.value.origin == CodeGrepper)
  {
    NonEmptyKeepsNonEmpty([answer]);
  }
}
