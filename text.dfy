/** The string operations of Rust's `str` and Python's `str` that the command finder relies on:
    splitting on a separator, joining, whitespace tokenising, filtering characters, trimming and
    lower-casing. */
module Text {

  // ---------------------------------------------------------------------------------------------
  // Splitting on a literal separator and joining
  // ---------------------------------------------------------------------------------------------

  /** Splitting on a non-empty separator (Python `str.split`, Rust `str::split`):
      the pieces between the leftmost non-overlapping occurrences of `sep`. */
  function Split(s: string, sep: string): (parts: seq<string>)
    requires |sep| > 0
    ensures |parts| >= 1
    decreases |s|
  {
    if |s| < |sep| then [s]
    else if s[..|sep|] == sep then [""] + Split(s[|sep|..], sep)
    else
      var rest := Split(s[1..], sep);
      [[s[0]] + rest[0]] + rest[1..]
  }

  /** The pieces with the separator between each two neighbours (Python `str.join`, Rust
      `join` on a slice). */
  function Join(parts: seq<string>, sep: string): string
  {
    if |parts| == 0 then ""
    else if |parts| == 1 then parts[0]
    else parts[0] + sep + Join(parts[1..], sep)
  }

  /** The pieces between newline characters. */
  function Lines(s: string): seq<string>
  {
    Split(s, "\n")
  }

  predicate OccursAt(s: string, p: string, i: int)
  {
    0 <= i && i + |p| <= |s| && s[i..i + |p|] == p
  }

  predicate Occurs(s: string, p: string)
  {
    exists i :: 0 <= i <= |s| && OccursAt(s, p, i)
  }

  /** Prepending a character to the first piece prepends it to the join. */
  lemma JoinPrependFirst(c: char, rest: seq<string>, sep: string)
    requires |rest| >= 1
    ensures Join([[c] + rest[0]] + rest[1..], sep) == [c] + Join(rest, sep)
  {
    var parts := [[c] + rest[0]] + rest[1..];
    if |rest| > 1 {
      assert parts[1..] == rest[1..];
      assert Join(parts, sep) == ([c] + rest[0]) + sep + Join(rest[1..], sep);
      assert Join(rest, sep) == rest[0] + sep + Join(rest[1..], sep);
    }
  }

  /** A separator at the front becomes an empty first piece. */
  lemma SplitAtSeparator(s: string, sep: string)
    requires 0 < |sep| <= |s| && s[..|sep|] == sep
    ensures Split(s, sep) == [""] + Split(s[|sep|..], sep)
  {
  }

  /** A character at the front that does not start a separator joins the first piece. */
  lemma SplitAtCharacter(s: string, sep: string)
    requires 0 < |sep| <= |s| && s[..|sep|] != sep
    ensures var rest := Split(s[1..], sep);
            Split(s, sep) == [[s[0]] + rest[0]] + rest[1..]
  {
  }

  /** Joining after an empty first piece puts a separator in front. */
  lemma JoinPrependEmpty(rest: seq<string>, sep: string)
    requires |rest| >= 1
    ensures Join([""] + rest, sep) == sep + Join(rest, sep)
  {
    assert ([""] + rest)[1..] == rest;
  }

  /** Joining the pieces of a split with the separator gives the string back. */
  lemma {:induction false} JoinSplit(s: string, sep: string)
    requires |sep| > 0
    ensures Join(Split(s, sep), sep) == s
    decreases |s|
  {
    if |s| < |sep| {
    } else if s[..|sep|] == sep {
      var t := s[|sep|..];
      JoinSplit(t, sep);
      SplitAtSeparator(s, sep);
      JoinPrependEmpty(Split(t, sep), sep);
      assert sep + t == s;
    } else {
      JoinSplit(s[1..], sep);
      SplitAtCharacter(s, sep);
      JoinPrependFirst(s[0], Split(s[1..], sep), sep);
      assert [s[0]] + s[1..] == s;
    }
  }

  /** The split has a single piece exactly when the separator does not occur in the string. */
  lemma {:induction false} SplitSinglePiece(s: string, sep: string)
    requires |sep| > 0
    ensures |Split(s, sep)| == 1 <==> !Occurs(s, sep)
    decreases |s|
  {
    if |s| < |sep| {
    } else if s[..|sep|] == sep {
      assert OccursAt(s, sep, 0);
    } else {
      SplitSinglePiece(s[1..], sep);
      if Occurs(s, sep) {
        var i :| OccursAt(s, sep, i);
        assert OccursAt(s, sep, i);
        assert 0 <= i && i + |sep| <= |s|;
        assert i != 0 by { assert s[0..|sep|] == s[..|sep|]; }
        assert s[1..][i - 1..i - 1 + |sep|] == s[i..i + |sep|];
        assert OccursAt(s[1..], sep, i - 1);
      }
      if Occurs(s[1..], sep) {
        var i :| OccursAt(s[1..], sep, i);
        assert OccursAt(s[1..], sep, i);
        assert s[1..][i..i + |sep|] == s[i + 1..i + 1 + |sep|];
        assert OccursAt(s, sep, i + 1);
      }
    }
  }

  /** A string that begins with the separator splits into an empty first piece and the split of
      the rest. */
  lemma SplitAfterSeparator(sep: string, t: string)
    requires |sep| > 0
    ensures Split(sep + t, sep) == [""] + Split(t, sep)
  {
    assert (sep + t)[..|sep|] == sep;
    assert (sep + t)[|sep|..] == t;
  }

  /** No piece of a split on a one-character separator contains that character. */
  lemma {:induction false} SplitPiecesFree(s: string, c: char)
    ensures forall p :: p in Split(s, [c]) ==> c !in p
    decreases |s|
  {
    if |s| < 1 {
    } else if s[..1] == [c] {
      SplitPiecesFree(s[1..], c);
    } else {
      SplitPiecesFree(s[1..], c);
      var rest := Split(s[1..], [c]);
      assert s[0] != c by { assert s[..1] == [s[0]]; }
      assert rest[0] in rest;
      forall p | p in rest[1..] ensures c !in p {
        assert p in rest;
      }
    }
  }

  lemma {:induction false} SplitWithoutSeparator(x: string, c: char)
    requires c !in x
    ensures Split(x, [c]) == [x]
    decreases |x|
  {
    if |x| >= 1 {
      assert x[..1] == [x[0]];
      SplitWithoutSeparator(x[1..], c);
      assert [x[0]] + x[1..] == x;
    }
  }

  lemma {:induction false} SplitCons(x: string, c: char, r: string)
    requires c !in x
    ensures Split(x + [c] + r, [c]) == [x] + Split(r, [c])
    decreases |x|
  {
    var s := x + [c] + r;
    if |x| == 0 {
      assert s == [c] + r;
      assert s[..1] == [c];
      assert s[1..] == r;
    } else {
      assert s[..1] == [x[0]];
      assert s[1..] == x[1..] + [c] + r;
      SplitCons(x[1..], c, r);
      assert [x[0]] + x[1..] == x;
    }
  }

  /** For a one-character separator that none of the pieces contains, splitting undoes joining. */
  lemma {:induction false} SplitJoin(parts: seq<string>, c: char)
    requires |parts| >= 1
    requires forall p :: p in parts ==> c !in p
    ensures Split(Join(parts, [c]), [c]) == parts
    decreases |parts|
  {
    if |parts| == 1 {
      SplitWithoutSeparator(parts[0], c);
    } else {
      assert parts[0] in parts;
      forall p | p in parts[1..] ensures c !in p {
        assert p in parts;
      }
      SplitJoin(parts[1..], c);
      SplitCons(parts[0], c, Join(parts[1..], [c]));
      assert parts == [parts[0]] + parts[1..];
    }
  }

  /** The first part of a join is a prefix of the joined string. */
  lemma JoinStartsWithFirst(parts: seq<string>, sep: string)
    requires |parts| >= 1
    ensures parts[0] <= Join(parts, sep)
  {
  }

  // ---------------------------------------------------------------------------------------------
  // Dropping empty lines
  // ---------------------------------------------------------------------------------------------

  /** The lines that are not empty, in order; both the Python and the Rust extractors drop the
      empty candidate lines this way. */
  function NonEmpty(lines: seq<string>): (r: seq<string>)
    ensures |r| <= |lines|
    ensures forall x :: x in r ==> x != "" && x in lines
    ensures forall x :: x in lines && x != "" ==> x in r
  {
    if lines == [] then []
    else (if lines[0] == "" then [] else [lines[0]]) + NonEmpty(lines[1..])
  }

  /** Every non-empty line is kept as often as it occurs, and no empty line is kept. */
  lemma {:induction false} NonEmptyCounts(lines: seq<string>)
    ensures forall x :: multiset(NonEmpty(lines))[x] == if x == "" then 0 else multiset(lines)[x]
  {
    if lines != [] {
      NonEmptyCounts(lines[1..]);
      var h := if lines[0] == "" then [] else [lines[0]];
      assert NonEmpty(lines) == h + NonEmpty(lines[1..]);
      assert lines == [lines[0]] + lines[1..];
    }
  }

  predicate FirstNonEmptyAt(lines: seq<string>, k: int)
  {
    0 <= k < |lines| && lines[k] != "" && forall j :: 0 <= j < k ==> lines[j] == ""
  }

  /** The filtered list is non-empty exactly when some line is non-empty, and then its head is the
      first non-empty line. */
  lemma {:induction false} NonEmptyHead(lines: seq<string>)
    ensures NonEmpty(lines) != [] <==> exists k :: FirstNonEmptyAt(lines, k)
    ensures forall k :: FirstNonEmptyAt(lines, k) ==> NonEmpty(lines)[0] == lines[k]
  {
    if lines != [] {
      NonEmptyHead(lines[1..]);
      if lines[0] != "" {
        assert FirstNonEmptyAt(lines, 0);
      } else {
        forall k | FirstNonEmptyAt(lines[1..], k) ensures FirstNonEmptyAt(lines, k + 1) {
        }
        forall k | FirstNonEmptyAt(lines, k) ensures FirstNonEmptyAt(lines[1..], k - 1) {
        }
      }
    }
  }

  /** Filtering commutes with concatenation, so it keeps the order of the lines it keeps. */
  lemma {:induction false} NonEmptyAppend(a: seq<string>, b: seq<string>)
    ensures NonEmpty(a + b) == NonEmpty(a) + NonEmpty(b)
  {
    if a != [] {
      assert (a + b)[0] == a[0];
      assert (a + b)[1..] == a[1..] + b;
      NonEmptyAppend(a[1..], b);
      var h := if a[0] == "" then [] else [a[0]];
      assert NonEmpty(a + b) == h + NonEmpty(a[1..] + b);
      assert NonEmpty(a) == h + NonEmpty(a[1..]);
    } else {
      assert a + b == b;
    }
  }

  lemma {:induction false} NonEmptyKeepsNonEmpty(lines: seq<string>)
    requires forall x :: x in lines ==> x != ""
    ensures NonEmpty(lines) == lines
  {
    if lines != [] {
      assert lines[0] in lines;
      forall x | x in lines[1..] ensures x != "" {
        assert x in lines;
      }
      NonEmptyKeepsNonEmpty(lines[1..]);
      assert lines == [lines[0]] + lines[1..];
    }
  }

  // ---------------------------------------------------------------------------------------------
  // Character classes
  // ---------------------------------------------------------------------------------------------

  /** Rust `char::is_alphanumeric` and Python `str.isalnum`, restricted to ASCII letters and
      digits. */
  predicate IsAlnum(c: char)
  {
    ('a' <= c <= 'z') || ('A' <= c <= 'Z') || ('0' <= c <= '9')
  }

  /** Rust `char::is_whitespace`: the Unicode White_Space property. */
  predicate IsWhiteSpace(c: char)
  {
    var n := c as int;
    (9 <= n <= 13) || n == 32 || n == 0x85 || n == 0xA0 || n == 0x1680
    || (0x2000 <= n <= 0x200A) || n == 0x2028 || n == 0x2029 || n == 0x202F
    || n == 0x205F || n == 0x3000
  }

  /** Python `str.isspace` on one character: White_Space plus the separators U+001C..U+001F. */
  predicate IsPySpace(c: char)
  {
    IsWhiteSpace(c) || (0x1C <= c as int <= 0x1F)
  }

  /** The alphanumeric characters of `s`, in order; every other character is dropped. */
  function KeepAlnum(s: string): (r: string)
    ensures |r| <= |s|
    ensures forall c :: c in r <==> c in s && IsAlnum(c)
    ensures (forall c :: c in s ==> IsAlnum(c)) ==> r == s
    ensures (forall c :: c in s ==> !IsAlnum(c)) ==> r == []
  {
    if s == [] then []
    else
      assert forall c :: c in s[1..] ==> c in s;
      assert s == [s[0]] + s[1..];
      (if IsAlnum(s[0]) then [s[0]] else []) + KeepAlnum(s[1..])
  }
  /** Each alphanumeric character is kept as often as it occurs, and no other character is kept. */
  lemma {:induction false} KeepAlnumCounts(s: string)
    ensures forall c :: multiset(KeepAlnum(s))[c] == if IsAlnum(c) then multiset(s)[c] else 0
  {
    if s != [] {
      KeepAlnumCounts(s[1..]);
      assert s == [s[0]] + s[1..];
    }
  }

  /** Filtering commutes with concatenation, so the kept characters stay in their order. */
  lemma {:induction false} KeepAlnumAppend(a: string, b: string)
    ensures KeepAlnum(a + b) == KeepAlnum(a) + KeepAlnum(b)
  {
    if a != [] {
      var ab := a + b;
      assert ab[0] == a[0] && ab[1..] == a[1..] + b;
      KeepAlnumAppend(a[1..], b);
      var h := if IsAlnum(a[0]) then [a[0]] else [];
      assert KeepAlnum(ab) == h + KeepAlnum(a[1..] + b);
      assert KeepAlnum(a) == h + KeepAlnum(a[1..]);
    } else {
      assert a + b == b;
    }
  }


  // ---------------------------------------------------------------------------------------------
  // Python `str.split()` with no argument: tokens are the maximal runs of non-space characters
  // ---------------------------------------------------------------------------------------------

  predicate SpaceFree(w: string)
  {
    forall c :: c in w ==> !IsPySpace(c)
  }

  /** The longest prefix of `s` without a space. */
  function WordAt(s: string): (w: string)
    ensures |w| <= |s| && w == s[..|w|]
    ensures SpaceFree(w)
    ensures |w| == |s| || IsPySpace(s[|w|])
    ensures |s| > 0 && !IsPySpace(s[0]) ==> |w| > 0
  {
    if s == [] || IsPySpace(s[0]) then []
    else [s[0]] + WordAt(s[1..])
  }

  /** The whitespace-separated tokens of `s` (Python `str.split` with no argument). */
  function Words(s: string): (ws: seq<string>)
    ensures forall w :: w in ws ==> w != "" && SpaceFree(w)
    decreases |s|
  {
    if s == [] then []
    else if IsPySpace(s[0]) then Words(s[1..])
    else
      var w := WordAt(s);
      [w] + Words(s[|w|..])
  }

  lemma {:induction false} WordAtSpaceFree(x: string, r: string)
    requires SpaceFree(x)
    requires r == [] || IsPySpace(r[0])
    ensures WordAt(x + r) == x
    decreases |x|
  {
    if x != [] {
      assert x[0] in x;
      assert (x + r)[1..] == x[1..] + r;
      WordAtSpaceFree(x[1..], r);
      assert [x[0]] + x[1..] == x;
    } else {
      assert x + r == r;
    }
  }

  lemma WordsOfWord(x: string)
    requires SpaceFree(x)
    ensures Words(x) == if x == "" then [] else [x]
  {
    if x != "" {
      WordAtSpaceFree(x, []);
      assert x + [] == x;
      assert x[|x|..] == [];
      assert x[0] in x;
    }
  }

  lemma WordsAfterWord(x: string, r: string)
    requires SpaceFree(x)
    ensures Words(x + " " + r) == (if x == "" then [] else [x]) + Words(r)
  {
    var s := x + " " + r;
    if x == "" {
      assert s == " " + r;
      assert s[1..] == r;
    } else {
      assert s == x + (" " + r);
      WordAtSpaceFree(x, " " + r);
      assert x[0] in x;
      assert s[|x|..] == " " + r;
      assert (" " + r)[1..] == r;
    }
  }

  /** Any white-space character, not only ' ', separates tokens: the tokens of `x + [c] + r` are
      those of `x` followed by those of `r`. With `WordsOfWord` this fixes the tokens of every
      text as its maximal runs of non-space characters. */
  lemma {:induction false} WordsAtSpace(x: string, c: char, r: string)
    requires IsPySpace(c)
    ensures Words(x + [c] + r) == Words(x) + Words(r)
    decreases |x|
  {
    if x == [] {
      var s := x + [c] + r;
      assert s == [c] + r && s[1..] == r;
    } else if IsPySpace(x[0]) {
      WordsAtSpace(x[1..], c, r);
      WordsAtSpaceAfterSpace(x, c, r);
    } else if SpaceFree(x) {
      WordsAtSpaceAfterWord(x, c, r);
    } else {
      WordsAtSpace(x[|WordAt(x)|..], c, r);
      WordsAtSpaceWithinWords(x, c, r);
    }
  }

  /** The step of `WordsAtSpace` when `x` starts with a space. */
  lemma WordsAtSpaceAfterSpace(x: string, c: char, r: string)
    requires x != [] && IsPySpace(x[0])
    requires Words(x[1..] + [c] + r) == Words(x[1..]) + Words(r)
    ensures Words(x + [c] + r) == Words(x) + Words(r)
  {
    var u := x[1..] + [c] + r;
    assert [x[0]] + x[1..] == x;
    Associative([x[0]], x[1..], [c]);
    Associative([x[0]], x[1..] + [c], r);
    assert ([x[0]] + u)[1..] == u;
  }

  /** The step of `WordsAtSpace` when `x` is a single token. */
  lemma WordsAtSpaceAfterWord(x: string, c: char, r: string)
    requires IsPySpace(c) && x != [] && SpaceFree(x)
    ensures Words(x + [c] + r) == Words(x) + Words(r)
  {
    var t := [c] + r;
    assert x + [c] + r == x + t;
    WordsAfterToken(x, t);
    assert t[1..] == r;
    WordsOfWord(x);
  }

  /** The step of `WordsAtSpace` when a first token of `x` ends inside `x`. */
  lemma WordsAtSpaceWithinWords(x: string, c: char, r: string)
    requires x != [] && !IsPySpace(x[0]) && |WordAt(x)| < |x|
    requires var x' := x[|WordAt(x)|..]; Words(x' + [c] + r) == Words(x') + Words(r)
    ensures Words(x + [c] + r) == Words(x) + Words(r)
  {
    var w := WordAt(x);
    var x' := x[|w|..];
    assert x[..|w|] + x[|w|..] == x;
    WordsAfterToken(w, x');
    var t := [c] + r;
    Associative(w, x', t);
    Associative(x, [c], r);
    Associative(x', [c], r);
    WordsAfterToken(w, x' + t);
    Associative([w], Words(x'), Words(r));
  }

  /** Concatenation is associative. */
  lemma Associative<T>(a: seq<T>, b: seq<T>, c: seq<T>)
    ensures (a + b) + c == a + (b + c)
  {
  }

  /** A non-empty space-free token followed by a space, or by nothing, is the first token. */
  lemma WordsAfterToken(w: string, rest: string)
    requires w != [] && SpaceFree(w)
    requires rest == [] || IsPySpace(rest[0])
    ensures Words(w + rest) == [w] + Words(rest)
  {
    WordAtSpaceFree(w, rest);
    assert w[0] in w;
    assert (w + rest)[|w|..] == rest;
  }

  /** Two space-free tokens around any white-space character are the two tokens of the text. */
  lemma WordsAroundSpace(first: string, c: char, rest: string)
    requires IsPySpace(c)
    requires first != "" && SpaceFree(first) && rest != "" && SpaceFree(rest)
    ensures Words(first + [c] + rest) == [first, rest]
  {
    WordsAtSpace(first, c, rest);
    WordsOfWord(first);
    WordsOfWord(rest);
  }

  /** Tokenising a single-space join of space-free tokens gives back the non-empty tokens. */
  lemma {:induction false} WordsJoin(ws: seq<string>)
    requires forall w :: w in ws ==> SpaceFree(w)
    ensures Words(Join(ws, " ")) == NonEmpty(ws)
    decreases |ws|
  {
    if |ws| == 0 {
    } else if |ws| == 1 {
      assert ws[0] in ws;
      WordsOfWord(ws[0]);
    } else {
      assert ws[0] in ws;
      forall w | w in ws[1..] ensures SpaceFree(w) {
        assert w in ws;
      }
      WordsJoin(ws[1..]);
      WordsAfterWord(ws[0], Join(ws[1..], " "));
    }
  }

  /** `s.split()` is empty exactly when every character of `s` is a space. */
  lemma {:induction false} WordsNone(s: string)
    ensures Words(s) == [] <==> forall i :: 0 <= i < |s| ==> IsPySpace(s[i])
    decreases |s|
  {
    if s != [] && IsPySpace(s[0]) {
      WordsNone(s[1..]);
      assert forall i :: 1 <= i < |s| ==> s[i] == s[1..][i - 1];
    }
  }

  lemma AlnumSpaceFree(s: string)
    ensures SpaceFree(KeepAlnum(s))
  {
  }

  // ---------------------------------------------------------------------------------------------
  // Trimming and lower-casing
  // ---------------------------------------------------------------------------------------------

  function TrimStart(s: string): (r: string)
    ensures |r| <= |s| && r == s[|s| - |r|..]
    ensures forall k :: 0 <= k < |s| - |r| ==> IsWhiteSpace(s[k])
    ensures r == [] || !IsWhiteSpace(r[0])
  {
    if |s| > 0 && IsWhiteSpace(s[0]) then TrimStart(s[1..]) else s
  }

  function TrimEnd(s: string): (r: string)
    ensures |r| <= |s| && r == s[..|r|]
    ensures forall k :: |r| <= k < |s| ==> IsWhiteSpace(s[k])
    ensures r == [] || !IsWhiteSpace(r[|r| - 1])
  {
    if |s| > 0 && IsWhiteSpace(s[|s| - 1]) then TrimEnd(s[..|s| - 1]) else s
  }

  /** Rust `str::trim`: drops leading and trailing white space. */
  function Trim(s: string): string
  {
    TrimEnd(TrimStart(s))
  }

  /** Lower-casing of one character, for ASCII letters. */
  function LowerChar(c: char): (l: char)
    ensures 'A' <= c <= 'Z' ==> l as int == c as int + 32
    ensures !('A' <= c <= 'Z') ==> l == c
  {
    if 'A' <= c <= 'Z' then (c as int + 32) as char else c
  }

  /** Python `str.lower` and Rust `str::to_lowercase`, for ASCII letters. */
  function Lower(s: string): (r: string)
    ensures |r| == |s|
    ensures forall k :: 0 <= k < |s| ==> r[k] == LowerChar(s[k])
  {
    seq(|s|, k requires 0 <= k < |s| => LowerChar(s[k]))
  }

  /** `s` lower-cases to "y" or "yes", spelled out letter by letter. */
  predicate SpellsYes(s: string)
  {
    (|s| == 1 && s[0] in "yY")
    || (|s| == 3 && s[0] in "yY" && s[1] in "eE" && s[2] in "sS")
  }

  /** The lower-cased string is one of "y" and "yes" exactly when the string spells either in
      any mixture of cases. */
  lemma LowerIsYes(s: string)
    ensures Lower(s) in {"y", "yes"} <==> SpellsYes(s)
  {
    var l := Lower(s);
    if |s| == 1 {
      assert l == [LowerChar(s[0])];
    } else if |s| == 3 {
      assert l == [LowerChar(s[0]), LowerChar(s[1]), LowerChar(s[2])];
    }
  }
}
