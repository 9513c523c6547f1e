/** The edit distance that the fuzzy search reports, and the dynamic-programming rows
    it computes one letter at a time. */
module Levenshtein {

  function Min(a: nat, b: nat): nat
  {
    if a <= b then a else b
  }

  /** Levenshtein distance from `s` to `t`: insertion, deletion and substitution each
      cost 1. It is defined on the last letters, the way the search extends its path. */
  function Lev(s: seq<char>, t: seq<char>): nat
    decreases |s| + |t|
  {
    if |s| == 0 then |t|
    else if |t| == 0 then |s|
    else
      var s', t' := s[..|s| - 1], t[..|t| - 1];
      Min(Min(Lev(s, t') + 1, Lev(s', t) + 1),
          Lev(s', t') + (if s[|s| - 1] == t[|t| - 1] then 0 else 1))
  }

  /** The row of the matrix for a path `p` against the query `q`: entry `j` is the
      distance from `p` to the first `j` letters of `q`. */
  ghost function Row(p: seq<char>, q: seq<char>): seq<nat>
  {
    seq(|q| + 1, j requires 0 <= j <= |q| => Lev(p, q[..j]))
  }

  /** The smallest entry of a non-empty row (`current_row.iter().min()`). */
  function MinOf(s: seq<nat>): (m: nat)
    requires |s| > 0
    ensures m in s
    ensures forall i :: 0 <= i < |s| ==> m <= s[i]
  {
    if |s| == 1 then s[0] else Min(s[0], MinOf(s[1..]))
  }

  /** The three ways to reach `Lev(p + [c], q[..j])`: inserting `q[j - 1]`, deleting
      `c`, or matching or replacing `c` by `q[j - 1]`; none of them is cheaper than
      the distance. */
  lemma {:induction false} LevStepUpper(p: seq<char>, c: char, q: seq<char>, j: nat)
    requires 1 <= j <= |q|
    ensures Lev(p + [c], q[..j]) <= Lev(p + [c], q[..j - 1]) + 1
    ensures Lev(p + [c], q[..j]) <= Lev(p, q[..j]) + 1
    ensures Lev(p + [c], q[..j]) <= Lev(p, q[..j - 1]) + (if q[j - 1] == c then 0 else 1)
  {
    assert (p + [c])[..|p|] == p;
    assert q[..j][..j - 1] == q[..j - 1];
  }

  /** ... and one of the three is the distance. */
  lemma {:induction false} LevStepAttained(p: seq<char>, c: char, q: seq<char>, j: nat)
    requires 1 <= j <= |q|
    ensures || Lev(p + [c], q[..j]) == Lev(p + [c], q[..j - 1]) + 1
            || Lev(p + [c], q[..j]) == Lev(p, q[..j]) + 1
            || Lev(p + [c], q[..j]) == Lev(p, q[..j - 1]) + (if q[j - 1] == c then 0 else 1)
  {
    assert (p + [c])[..|p|] == p;
    assert q[..j][..j - 1] == q[..j - 1];
  }

  /** A value that bounds three candidates from below and equals one of them is their
      minimum. */
  lemma MinOfThree(v: nat, a: nat, b: nat, c: nat)
    requires v <= a && v <= b && v <= c
    requires v == a || v == b || v == c
    ensures v == Min(Min(a, b), c)
  {
  }

  /** The first row, before any letter of the automaton is consumed, counts up from 0. */
  lemma StartRow(q: seq<char>)
    ensures Row([], q) == seq(|q| + 1, j => j)
  {
  }

  /** Entry `j` of a row, and its place above the row's minimum. */
  lemma RowEntry(p: seq<char>, q: seq<char>, j: nat)
    requires j <= |q|
    ensures Lev(p, q[..j]) >= MinOf(Row(p, q))
  {
    var row := Row(p, q);
    assert row[j] == Lev(p, q[..j]);
  }

  /** Every entry of the row after `c` is at least any lower bound `m` of the row
      before it. */
  lemma {:induction false} StepEntryBound(p: seq<char>, c: char, q: seq<char>, j: nat, m: nat)
    requires j <= |q|
    requires forall i :: 0 <= i <= |q| ==> Lev(p, q[..i]) >= m
    ensures Lev(p + [c], q[..j]) >= m
  {
    if j == 0 {
      assert q[..0] == [];
      assert Lev(p, q[..0]) >= m;
    } else {
      StepEntryBound(p, c, q, j - 1, m);
      assert Lev(p, q[..j]) >= m && Lev(p, q[..j - 1]) >= m;
      LevStepAttained(p, c, q, j);
    }
  }

  /** The pruning lemma: a row's minimum never decreases as the path grows. */
  lemma RowMinNondecreasing(p: seq<char>, c: char, q: seq<char>)
    ensures MinOf(Row(p + [c], q)) >= MinOf(Row(p, q))
  {
    var m := MinOf(Row(p, q));
    forall i | 0 <= i <= |q|
      ensures Lev(p, q[..i]) >= m
    {
      RowEntry(p, q, i);
    }
    var next := Row(p + [c], q);
    var j :| 0 <= j < |next| && next[j] == MinOf(next);
    StepEntryBound(p, c, q, j, m);
  }

  /** Hence no extension of a path can cost less than the minimum of the path's row:
      once that minimum exceeds the budget, the whole subtree can be skipped. */
  lemma {:induction false} ExtensionCostBound(p: seq<char>, w: seq<char>, q: seq<char>)
    ensures MinOf(Row(p + w, q)) >= MinOf(Row(p, q))
    ensures Lev(p + w, q) >= MinOf(Row(p, q))
    decreases |w|
  {
    if w == [] {
      assert p + w == p;
    } else {
      var w', c := w[..|w| - 1], w[|w| - 1];
      assert p + w == (p + w') + [c];
      ExtensionCostBound(p, w', q);
      RowMinNondecreasing(p + w', c, q);
    }
    var row := Row(p + w, q);
    assert q[..|q|] == q;
    assert row[|q|] == Lev(p + w, q);
  }

  /** A word is at distance 0 from itself. */
  lemma {:induction false} LevSelf(s: seq<char>)
    ensures Lev(s, s) == 0
  {
    if s != [] {
      LevSelf(s[..|s| - 1]);
    }
  }

  /** Distance 0 means equal words, and only then. */
  lemma {:induction false} LevZeroIffEqual(s: seq<char>, t: seq<char>)
    ensures Lev(s, t) == 0 <==> s == t
    decreases |s| + |t|
  {
    if s == t {
      LevSelf(s);
    }
    if |s| > 0 && |t| > 0 {
      var s', t' := s[..|s| - 1], t[..|t| - 1];
      LevZeroIffEqual(s', t');
      assert s == s' + [s[|s| - 1]] && t == t' + [t[|t| - 1]];
    }
  }

  /** The distance is at least the difference of the lengths. */
  lemma {:induction false} LevLengthBound(s: seq<char>, t: seq<char>)
    ensures Lev(s, t) >= |s| - |t| && Lev(s, t) >= |t| - |s|
    decreases |s| + |t|
  {
    if |s| > 0 && |t| > 0 {
      var s', t' := s[..|s| - 1], t[..|t| - 1];
      LevLengthBound(s, t');
      LevLengthBound(s', t);
      LevLengthBound(s', t');
    }
  }

  /** Dropping the last letters of a word costs one deletion each. */
  lemma {:induction false} LevDropSuffix(s: seq<char>, k: nat)
    requires k <= |s|
    ensures Lev(s, s[..k]) == |s| - k
    decreases |s| - k
  {
    LevLengthBound(s, s[..k]);
    if k == |s| {
      assert s[..k] == s;
      LevSelf(s);
    } else if k > 0 {
      var s' := s[..|s| - 1];
      assert s'[..k] == s[..k];
      LevDropSuffix(s', k);
    }
  }

  /** The distance from a word to a one-letter query: every letter but one occurrence
      of `x` is deleted, or, if `x` does not occur, one letter is replaced by it. */
  lemma {:induction false} LevSingleLetter(s: seq<char>, x: char)
    requires |s| >= 1
    ensures Lev(s, [x]) == if x in s then |s| - 1 else |s|
  {
    var s' := s[..|s| - 1];
    assert s == s' + [s[|s| - 1]];
    assert [x][..0] == [];
    if |s| > 1 {
      LevSingleLetter(s', x);
    }
  }
}
