/** The part of the answer extractor that all three implementations share: after the generated
    text has been split on the prompt, choose the candidate answer lines. */
module Realign {
  import opened Text
  import opened Levenshtein

  /** The edit distance from each line to the query, position by position. */
  function Distances(lines: seq<string>, query: string): (ds: seq<nat>)
    ensures |ds| == |lines|
    ensures forall k :: 0 <= k < |lines| ==> ds[k] == EditDistance(lines[k], query)
  {
    seq(|lines|, k requires 0 <= k < |lines| => EditDistance(lines[k], query))
  }

  /** The index of the first smallest entry. The Rust minimum over the enumerated distances keeps
      the earlier of two equal elements, and the Python lookup of the minimum's first position
      does the same. */
  function FirstArgMin(ds: seq<nat>): (k: nat)
    requires |ds| > 0
    ensures k < |ds|
    ensures forall j :: 0 <= j < |ds| ==> ds[k] <= ds[j]
    ensures forall j :: 0 <= j < k ==> ds[k] < ds[j]
  {
    if |ds| == 1 then 0
    else
      var k := FirstArgMin(ds[..|ds| - 1]);
      if ds[|ds| - 1] < ds[k] then |ds| - 1 else k
  }

  /** Line `a` is the first of the lines closest to the query. */
  ghost predicate IsAnchor(lines: seq<string>, query: string, a: int)
  {
    0 <= a < |lines|
    && (forall j :: 0 <= j < |lines| ==> EditDistance(lines[a], query) <= EditDistance(lines[j], query))
    && (forall j :: 0 <= j < a ==> EditDistance(lines[a], query) < EditDistance(lines[j], query))
  }

  /** The candidate answer lines for the pieces of the generated text split on the prompt: the
      lines after the echoed prompt when there are two pieces; when the prompt was not echoed,
      the lines strictly after the first line closest to the query; none otherwise. */
  function AnswerLines(parts: seq<string>, query: string): (r: seq<string>)
    ensures |parts| == 2 ==> r == Lines(parts[1])
    ensures |parts| == 1 ==>
      exists a :: IsAnchor(Lines(parts[0]), query, a) && r == Lines(parts[0])[a + 1..]
    ensures |parts| != 1 && |parts| != 2 ==> r == []
  {
    if |parts| == 2 then Lines(parts[1])
    else if |parts| == 1 then
      var lines := Lines(parts[0]);
      var a := FirstArgMin(Distances(lines, query));
      assert IsAnchor(lines, query, a);
      lines[a + 1..]
    else []
  }

  /** A line strictly closer to the query than every other line is the only anchor. */
  lemma StrictlyClosest(lines: seq<string>, query: string, i: nat)
    requires i < |lines|
    requires forall j :: 0 <= j < |lines| && j != i ==>
      EditDistance(lines[i], query) < EditDistance(lines[j], query)
    ensures IsAnchor(lines, query, i)
    ensures forall a :: IsAnchor(lines, query, a) ==> a == i
  {
    forall a | IsAnchor(lines, query, a) ensures a == i {
      assert EditDistance(lines[a], query) <= EditDistance(lines[i], query);
    }
  }

  /** When the generated text was not echoed but still holds the line `"# " + query` that ends
      the prompt, and every other line differs in length from the query by more than two, that
      line is the anchor (at distance 2, the others at 3 or more) and the candidates are the
      lines after it. */
  lemma MarkedLineAnchors(text: string, query: string, i: nat)
    requires i < |Lines(text)| && Lines(text)[i] == "# " + query
    requires forall j :: 0 <= j < |Lines(text)| && j != i ==>
      |Lines(text)[j]| > |query| + 2 || |Lines(text)[j]| + 2 < |query|
    ensures IsAnchor(Lines(text), query, i)
    ensures AnswerLines([text], query) == Lines(text)[i + 1..]
  {
    var lines := Lines(text);
    DeletePrefix("# ", query);
    forall j | 0 <= j < |lines| && j != i ensures EditDistance(lines[j], query) > 2 {
      LengthGap(lines[j], query);
    }
    StrictlyClosest(lines, query, i);
    assert [text][0] == text;
  }
}
