/** The Levenshtein edit distance over characters (Unicode scalar values), as the reference that
    the table-filling and two-row implementations are proved against. */
module Levenshtein {

  function Min(a: nat, b: nat): nat
  {
    if a <= b then a else b
  }

  /** The cost of substituting `y` for `x`: 0 when they are equal, 1 otherwise. */
  function Cost(x: char, y: char): nat
  {
    if x == y then 0 else 1
  }

  /** The fewest single-character insertions, deletions and substitutions that turn `a` into `b`,
      defined on prefixes: the last characters are deleted, inserted or substituted. */
  function EditDistance(a: string, b: string): nat
    decreases |a| + |b|
  {
    if |a| == 0 then |b|
    else if |b| == 0 then |a|
    else
      var a', b' := a[..|a| - 1], b[..|b| - 1];
      Min(Min(EditDistance(a', b) + 1, EditDistance(a, b') + 1),
          EditDistance(a', b') + Cost(a[|a| - 1], b[|b| - 1]))
  }

  /** The recurrence as a table cell: the distance between the prefixes of length `i + 1` and
      `j + 1` from the three neighbouring cells. */
  lemma Step(a: string, b: string, i: nat, j: nat)
    requires i < |a| && j < |b|
    ensures EditDistance(a[..i + 1], b[..j + 1])
         == Min(Min(EditDistance(a[..i], b[..j + 1]) + 1, EditDistance(a[..i + 1], b[..j]) + 1),
                EditDistance(a[..i], b[..j]) + Cost(a[i], b[j]))
  {
    var x, y := a[..i + 1], b[..j + 1];
    assert x[..|x| - 1] == a[..i];
    assert y[..|y| - 1] == b[..j];
  }

  /** The distance is symmetric. */
  lemma {:induction false} Symmetric(a: string, b: string)
    ensures EditDistance(a, b) == EditDistance(b, a)
    decreases |a| + |b|
  {
    if |a| > 0 && |b| > 0 {
      var a', b' := a[..|a| - 1], b[..|b| - 1];
      Symmetric(a', b);
      Symmetric(a, b');
      Symmetric(a', b');
    }
  }

  /** A string is at distance 0 from itself. */
  lemma {:induction false} SelfDistance(a: string)
    ensures EditDistance(a, a) == 0
    decreases |a|
  {
    if |a| > 0 {
      SelfDistance(a[..|a| - 1]);
    }
  }

  /** Dropping the last character of the second string changes the distance by at most one
      upward. */
  lemma {:induction false} DropLastRight(a: string, b: string)
    requires |b| > 0
    ensures EditDistance(a, b[..|b| - 1]) <= EditDistance(a, b) + 1
    decreases |a|
  {
    if |a| > 0 {
      var a', b' := a[..|a| - 1], b[..|b| - 1];
      DropLastRight(a', b);
      assert EditDistance(a, b') <= EditDistance(a', b') + 1;
    }
  }

  /** Dropping the last character of the first string changes the distance by at most one
      upward. */
  lemma DropLastLeft(a: string, b: string)
    requires |a| > 0
    ensures EditDistance(a[..|a| - 1], b) <= EditDistance(a, b) + 1
  {
    Symmetric(a, b);
    Symmetric(a[..|a| - 1], b);
    DropLastRight(b, a);
  }

  /** Strings that end in the same character are as far apart as the strings without it. */
  lemma EqualLast(a: string, b: string)
    requires |a| > 0 && |b| > 0 && a[|a| - 1] == b[|b| - 1]
    ensures EditDistance(a, b) == EditDistance(a[..|a| - 1], b[..|b| - 1])
  {
    DropLastRight(a[..|a| - 1], b);
    DropLastLeft(a, b[..|b| - 1]);
  }

  /** The distance is at least the difference of the lengths. */
  lemma {:induction false} LengthGap(a: string, b: string)
    ensures EditDistance(a, b) >= |a| - |b|
    ensures EditDistance(a, b) >= |b| - |a|
    decreases |a| + |b|
  {
    if |a| > 0 && |b| > 0 {
      var a', b' := a[..|a| - 1], b[..|b| - 1];
      LengthGap(a', b);
      LengthGap(a, b');
      LengthGap(a', b');
    }
  }

  /** The triangle inequality: going from `a` to `c` by way of `b` is never shorter. */
  lemma {:induction false} Triangle(a: string, b: string, c: string)
    ensures EditDistance(a, c) <= EditDistance(a, b) + EditDistance(b, c)
    decreases |a| + |b| + |c|
  {
    if |a| == 0 {
      LengthGap(b, c);
    } else if |c| == 0 {
      LengthGap(a, b);
    } else if |b| == 0 {
      Triangle(a[..|a| - 1], b, c);
    } else {
      var a', b', c' := a[..|a| - 1], b[..|b| - 1], c[..|c| - 1];
      Triangle(a', b, c);
      Triangle(a, b, c');
      Triangle(a, b', c);
      Triangle(a, b', c');
      Triangle(a', b', c);
      Triangle(a', b', c');
      TriangleLastSteps(a, b, c);
    }
  }

  /** The distance is at most each of the three ways of finishing the edit: deleting the last
      character of `a`, inserting the last character of `b`, or substituting one for the other. */
  lemma LastStepBounds(a: string, b: string)
    requires |a| > 0 && |b| > 0
    ensures var a', b' := a[..|a| - 1], b[..|b| - 1];
      && EditDistance(a, b) <= EditDistance(a', b) + 1
      && EditDistance(a, b) <= EditDistance(a, b') + 1
      && EditDistance(a, b) <= EditDistance(a', b') + Cost(a[|a| - 1], b[|b| - 1])
  {
  }

  /** The distance is one of the three ways of finishing the edit. */
  lemma LastStepChoice(a: string, b: string)
    requires |a| > 0 && |b| > 0
    ensures var a', b' := a[..|a| - 1], b[..|b| - 1];
      || EditDistance(a, b) == EditDistance(a', b) + 1
      || EditDistance(a, b) == EditDistance(a, b') + 1
      || EditDistance(a, b) == EditDistance(a', b') + Cost(a[|a| - 1], b[|b| - 1])
  {
  }

  /** One step of `Triangle` for non-empty strings: the last steps of the two edits are combined
      case by case, each combination using one of the inequalities for shorter strings. */
  lemma TriangleLastSteps(a: string, b: string, c: string)
    requires |a| > 0 && |b| > 0 && |c| > 0
    requires var a', b', c' := a[..|a| - 1], b[..|b| - 1], c[..|c| - 1];
      && EditDistance(a', c) <= EditDistance(a', b) + EditDistance(b, c)
      && EditDistance(a, c') <= EditDistance(a, b) + EditDistance(b, c')
      && EditDistance(a, c) <= EditDistance(a, b') + EditDistance(b', c)
      && EditDistance(a, c') <= EditDistance(a, b') + EditDistance(b', c')
      && EditDistance(a', c) <= EditDistance(a', b') + EditDistance(b', c)
      && EditDistance(a', c') <= EditDistance(a', b') + EditDistance(b', c')
    ensures EditDistance(a, c) <= EditDistance(a, b) + EditDistance(b, c)
  {
    var a', b', c' := a[..|a| - 1], b[..|b| - 1], c[..|c| - 1];
    var x, y, z := a[|a| - 1], b[|b| - 1], c[|c| - 1];
    LastStepBounds(a, c);
    LastStepChoice(a, b);
    LastStepChoice(b, c);
    CombineLastSteps(EditDistance(a, c), EditDistance(a, b), EditDistance(b, c),
                     EditDistance(a', c), EditDistance(a, c'), EditDistance(a', c'), Cost(x, z),
                     EditDistance(a', b), EditDistance(a, b'), EditDistance(a', b'), Cost(x, y),
                     EditDistance(b', c), EditDistance(b, c'), EditDistance(b', c'), Cost(y, z));
  }

  /** The arithmetic of `TriangleLastSteps`: `p`, `q` and `r` are the deletion, insertion and
      substitution options of the distances `ac` from `a` to `c`, `ab` from `a` to `b` and `bc`
      from `b` to `c`. The requires are the bounds and choices of the last step, the six
      inequalities for shorter strings and the triangle inequality of `Cost`. */
  lemma CombineLastSteps(ac: nat, ab: nat, bc: nat,
                         p1: nat, p2: nat, p3: nat, cxz: nat, q1: nat, q2: nat, q3: nat, cxy: nat,
                         r1: nat, r2: nat, r3: nat, cyz: nat)
    requires cxz <= cxy + cyz
    requires ac <= p1 + 1 && ac <= p2 + 1 && ac <= p3 + cxz
    requires ab == q1 + 1 || ab == q2 + 1 || ab == q3 + cxy
    requires bc == r1 + 1 || bc == r2 + 1 || bc == r3 + cyz
    requires p1 <= q1 + bc && p2 <= ab + r2 && ac <= q2 + r1
    requires p2 <= q2 + r3 && p1 <= q3 + r1 && p3 <= q3 + r3
    ensures ac <= ab + bc
  {
  }

  /** Deleting a prefix costs its length. */
  lemma {:induction false} DeletePrefix(p: string, s: string)
    ensures EditDistance(p + s, s) == |p|
    decreases |s|
  {
    if |s| == 0 {
      assert p + s == p;
    } else {
      var ps := p + s;
      assert ps[|ps| - 1] == s[|s| - 1];
      EqualLast(ps, s);
      assert ps[..|ps| - 1] == p + s[..|s| - 1];
      DeletePrefix(p, s[..|s| - 1]);
    }
  }
}
