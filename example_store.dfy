/** The persisted example store `cmd_examples.json`: an ordered list of (query, command) pairs,
    read and rewritten whole. It is both the cache and the few-shot corpus of the prompt. */
module ExampleStore {
  import opened Common

  /** The command of the first example whose query equals `query`, if any. */
  function Lookup(examples: seq<Example>, query: string): (r: Option<string>)
    ensures r.None? <==> forall k :: 0 <= k < |examples| ==> examples[k].0 != query
    ensures r.Some? ==> exists k :: 0 <= k < |examples| && examples[k] == (query, r.value)
                                 && forall j :: 0 <= j < k ==> examples[j].0 != query
  {
    if examples == [] then None
    else if examples[0].0 == query then
      assert examples[0] == (query, examples[0].1);
      Some(examples[0].1)
    else
      var r := Lookup(examples[1..], query);
      if r.Some? then
        var k :| 0 <= k < |examples[1..]| && examples[1..][k] == (query, r.value)
               && forall j :: 0 <= j < k ==> examples[1..][j].0 != query;
        assert examples[k + 1] == (query, r.value);
        r
      else
        assert forall k :: 1 <= k < |examples| ==> examples[k] == examples[1..][k - 1];
        r
  }

  /** Appending an example never changes an existing hit: lookups keep returning the first match,
      and the new pair is found only for a query that had none. */
  lemma {:induction false} LookupAfterAppend(examples: seq<Example>, e: Example, query: string)
    ensures Lookup(examples + [e], query)
         == if Lookup(examples, query).Some? then Lookup(examples, query)
            else if e.0 == query then Some(e.1) else None
  {
    if examples == [] {
      assert examples + [e] == [e];
    } else {
      assert (examples + [e])[0] == examples[0];
      assert (examples + [e])[1..] == examples[1..] + [e];
      LookupAfterAppend(examples[1..], e, query);
    }
  }

  /** The file `cmd_examples.json` as the list of pairs it holds. */
  class ExampleFile {
    var contents: seq<Example>

    constructor (initial: seq<Example>)
      ensures contents == initial
    {
      contents := initial;
    }

    /** `check_cache`: loads the examples and scans them in order, returning the command of the
        first one whose query equals `text` (identical in src/main.rs, src/bash_command_finder.py
        and main.py). */
    method CheckCache(text: string) returns (r: Option<string>)
      ensures r == Lookup(contents, text)
    {
      var examples := contents;
      var i := 0;
      while i < |examples|
        invariant 0 <= i <= |examples|
        invariant Lookup(examples, text) == Lookup(examples[i..], text)
      {
        if examples[i].0 == text {
          return Some(examples[i].1);
        }
        assert examples[i..][1..] == examples[i + 1..];
        i := i + 1;
      }
      return None;
    }
  }
}
