/** The finished index (`PackedDawg`): exact lookup by walking the transition map from
    the root, and the bounded Levenshtein search that walks it depth first. */
module Dawg {
  import opened Levenshtein

  datatype Option<T> = None | Some(value: T)

  type Edges = map<(nat, char), nat>

  /** A search result: a stored word and its distance from the query. */
  type Match = (seq<char>, nat)

  /** `nodes[n]` says whether node `n` ends a word; node 0 is the root; `edges` maps a
      node and a letter to the node the transition leads to. */
  datatype PackedDawg = PackedDawg(nodes: seq<bool>, edges: Edges)

  /** Every transition leads from a node to a node allocated after it, inside the arena. */
  ghost predicate EdgesUpward(nodes: seq<bool>, edges: Edges)
  {
    forall key :: key in edges ==> key.0 < edges[key] < |nodes|
  }

  /** What every index built by the builder satisfies. */
  ghost predicate Valid(d: PackedDawg)
  {
    |d.nodes| >= 1 && EdgesUpward(d.nodes, d.edges)
  }

  /** The node reached from the root by consuming the letters of `w` one by one, or
      `None` as soon as a step has no transition. */
  function Reach(edges: Edges, w: seq<char>): Option<nat>
  {
    if w == [] then Some(0)
    else
      match Reach(edges, w[..|w| - 1])
      case None => None
      case Some(n) => if (n, w[|w| - 1]) in edges then Some(edges[(n, w[|w| - 1])]) else None
  }

  /** `w` is stored: walking it succeeds and ends on a node flagged as a word end. */
  ghost predicate Accepts(d: PackedDawg, w: seq<char>)
  {
    var r := Reach(d.edges, w);
    r.Some? && r.value < |d.nodes| && d.nodes[r.value]
  }

  /** In a valid index every walk ends inside the arena. */
  lemma {:induction false} ReachInBounds(d: PackedDawg, w: seq<char>)
    requires Valid(d)
    ensures Reach(d.edges, w).Some? ==> Reach(d.edges, w).value < |d.nodes|
  {
  }

  /** Once a walk has failed, every longer walk through the same letters fails too. */
  lemma {:induction false} ReachNoneExtends(edges: Edges, v: seq<char>, u: seq<char>)
    requires v <= u && Reach(edges, v) == None
    ensures Reach(edges, u) == None
    decreases |u|
  {
    if |u| > |v| {
      var u' := u[..|u| - 1];
      assert v <= u';
      ReachNoneExtends(edges, v, u');
    } else {
      assert u == v;
    }
  }

  /** A walk that succeeds passes through every prefix of its word. */
  lemma ReachPrefix(edges: Edges, w: seq<char>, i: nat)
    requires i <= |w| && Reach(edges, w).Some?
    ensures Reach(edges, w[..i]).Some?
  {
    if Reach(edges, w[..i]) == None {
      ReachNoneExtends(edges, w[..i], w);
    }
  }

  /** One step of a walk. */
  lemma ReachStep(edges: Edges, p: seq<char>, x: char)
    ensures Reach(edges, p + [x])
         == match Reach(edges, p)
            case None => None
            case Some(n) => if (n, x) in edges then Some(edges[(n, x)]) else None
  {
    assert (p + [x])[..|p|] == p;
  }

  /** PackedDawg::lookup: the node reached by the whole word, `None` when some letter
      has no transition. */
  method Lookup(d: PackedDawg, word: seq<char>) returns (r: Option<nat>)
    ensures r == Reach(d.edges, word)
    ensures Valid(d) && r.Some? ==> r.value < |d.nodes|
  {
    var nodeId := 0;
    for i := 0 to |word|
      invariant Reach(d.edges, word[..i]) == Some(nodeId)
    {
      var letter := word[i];
      assert word[..i + 1] == word[..i] + [letter];
      ReachStep(d.edges, word[..i], letter);
      if (nodeId, letter) in d.edges {
        nodeId := d.edges[(nodeId, letter)];
      } else {
        ReachNoneExtends(d.edges, word[..i + 1], word);
        return None;
      }
    }
    assert word[..|word|] == word;
    r := Some(nodeId);
    if Valid(d) {
      ReachInBounds(d, word);
    }
  }

  /** PackedDawg::has_word: false when the walk fails, otherwise the end node's flag. */
  method HasWord(d: PackedDawg, word: seq<char>) returns (b: bool)
    requires Valid(d)
    ensures b == Accepts(d, word)
  {
    var r := Lookup(d, word);
    b := match r
      case Some(nodeId) => d.nodes[nodeId]
      case None => false;
  }

  /** The search probes the letters 'a' to 'z' only. */
  ghost predicate AllLetters(u: seq<char>)
  {
    forall i :: 0 <= i < |u| ==> 'a' <= u[i] <= 'z'
  }

  lemma AllLettersSnoc(u: seq<char>, x: char)
    requires AllLetters(u) && 'a' <= x <= 'z'
    ensures AllLetters(u + [x])
  {
  }

  /** `u` is what `search(q, c)` must report: a non-empty stored word over 'a'..'z'
      within distance `c` of `q`. */
  ghost predicate Reportable(d: PackedDawg, q: seq<char>, c: nat, u: seq<char>)
  {
    |u| > 0 && AllLetters(u) && Accepts(d, u) && Lev(u, q) <= c
  }

  /** Every entry of `found` extends `p`, must be reported, and carries its distance. */
  ghost predicate Found(d: PackedDawg, q: seq<char>, c: nat, p: seq<char>, found: seq<Match>)
  {
    forall i :: 0 <= i < |found| ==>
      p <= found[i].0 && Reportable(d, q, c, found[i].0) && found[i].1 == Lev(found[i].0, q)
  }

  /** No word is reported twice. */
  ghost predicate NoRepeats(found: seq<Match>)
  {
    forall i, j :: 0 <= i < j < |found| ==> found[i].0 != found[j].0
  }

  /** Every word that must be reported and extends `p` is in `found`. */
  ghost predicate Covers(d: PackedDawg, q: seq<char>, c: nat, p: seq<char>, found: seq<Match>)
  {
    forall u :: Reportable(d, q, c, u) && p <= u ==> (u, Lev(u, q)) in found
  }

  /** The state of the loop over the letters below `bound` at the node reached by `p`:
      what was found so far is exactly `p` itself (when reported) and the words whose
      letter after `p` is below `bound`. */
  ghost predicate LettersDone(d: PackedDawg, q: seq<char>, c: nat, p: seq<char>, found: seq<Match>, bound: int)
  {
    && Found(d, q, c, p, found)
    && NoRepeats(found)
    && (forall i :: 0 <= i < |found| ==>
          |found[i].0| == |p| || (|p| < |found[i].0| && found[i].0[|p|] as int < bound))
    && (forall u :: Reportable(d, q, c, u) && p <= u && (|u| == |p| || u[|p|] as int < bound) ==>
          (u, Lev(u, q)) in found)
  }

  lemma PrefixSnoc(p: seq<char>, x: char, u: seq<char>)
    requires p <= u && |p| < |u| && u[|p|] == x
    ensures p + [x] <= u
  {
    assert u[..|p| + 1] == u[..|p|] + [x];
  }

  /** The covering half of ChildStep: a word to report below `p` whose next letter is
      at most `x` is either below an earlier letter or below `p + [x]`. */
  lemma ChildCovers(d: PackedDawg, q: seq<char>, c: nat, p: seq<char>, node: nat, x: char,
                    found: seq<Match>, child: seq<Match>)
    requires Reach(d.edges, p) == Some(node)
    requires LettersDone(d, q, c, p, found, x as int)
    requires (node, x) in d.edges ==> Covers(d, q, c, p + [x], child)
    ensures forall u :: Reportable(d, q, c, u) && p <= u && (|u| == |p| || u[|p|] as int < x as int + 1) ==>
              (u, Lev(u, q)) in found + child
  {
    forall u | Reportable(d, q, c, u) && p <= u && (|u| == |p| || u[|p|] as int < x as int + 1)
      ensures (u, Lev(u, q)) in found + child
    {
      if |u| > |p| && u[|p|] == x {
        PrefixSnoc(p, x, u);
        ReachStep(d.edges, p, x);
        if (node, x) !in d.edges {
          ReachNoneExtends(d.edges, p + [x], u);
          assert false;
        }
        assert (u, Lev(u, q)) in child;
      } else {
        assert (u, Lev(u, q)) in found;
      }
    }
  }

  /** Probing letter `x` at the node of `p` (and, when it has a transition, searching
      the child below it) extends what was found to the letters up to `x`. */
  lemma ChildStep(d: PackedDawg, q: seq<char>, c: nat, p: seq<char>, node: nat, x: char,
                  found: seq<Match>, child: seq<Match>)
    requires Reach(d.edges, p) == Some(node)
    requires LettersDone(d, q, c, p, found, x as int)
    requires (node, x) in d.edges ==>
               Found(d, q, c, p + [x], child) && NoRepeats(child) && Covers(d, q, c, p + [x], child)
    requires (node, x) !in d.edges ==> child == []
    ensures LettersDone(d, q, c, p, found + child, x as int + 1)
  {
    var all := found + child;
    forall i | 0 <= i < |child|
      ensures p <= child[i].0 && |p| < |child[i].0| && child[i].0[|p|] == x
    {
      assert (p + [x]) <= child[i].0;
      assert child[i].0[|p|] == (p + [x])[|p|];
    }
    forall i | 0 <= i < |all|
      ensures p <= all[i].0 && Reportable(d, q, c, all[i].0) && all[i].1 == Lev(all[i].0, q)
      ensures |all[i].0| == |p| || (|p| < |all[i].0| && all[i].0[|p|] as int < x as int + 1)
    {
      if i >= |found| {
        assert all[i] == child[i - |found|];
      }
    }
    forall i, j | 0 <= i < j < |all|
      ensures all[i].0 != all[j].0
    {
      if j >= |found| && i < |found| {
        assert all[j] == child[j - |found|];
      } else if i >= |found| {
        assert all[i] == child[i - |found|] && all[j] == child[j - |found|];
      }
    }
    ChildCovers(d, q, c, p, node, x, found, child);
  }

  /** Before any letter is probed, what was found at the node of `p` is `p` itself,
      exactly when it must be reported. */
  lemma SelfReport(d: PackedDawg, q: seq<char>, c: nat, p: seq<char>, node: nat, found: seq<Match>)
    requires Reach(d.edges, p) == Some(node) && node < |d.nodes|
    requires |p| > 0 && AllLetters(p)
    requires found == if Lev(p, q) <= c && d.nodes[node] then [(p, Lev(p, q))] else []
    ensures LettersDone(d, q, c, p, found, 'a' as int)
  {
    forall u | Reportable(d, q, c, u) && p <= u
      ensures (|u| == |p| || u[|p|] as int < 'a' as int) ==> (u, Lev(u, q)) in found
    {
      if |u| > |p| {
        assert 'a' <= u[|p|];
      } else {
        assert u == p;
      }
    }
  }

  /** After the last letter every word below `p` is covered. */
  lemma LettersAllDone(d: PackedDawg, q: seq<char>, c: nat, p: seq<char>, found: seq<Match>)
    requires LettersDone(d, q, c, p, found, 'z' as int + 1)
    ensures Found(d, q, c, p, found) && NoRepeats(found) && Covers(d, q, c, p, found)
  {
    forall u | Reportable(d, q, c, u) && p <= u
      ensures (u, Lev(u, q)) in found
    {
      if |u| > |p| {
        assert 'a' <= u[|p|] <= 'z';
      }
    }
  }

  /** When the minimum of the row at `p` exceeds the budget, nothing below `p` is
      reportable: the prune at the node discards no result. */
  lemma PrunedSubtree(d: PackedDawg, q: seq<char>, c: nat, p: seq<char>, found: seq<Match>)
    requires MinOf(Row(p, q)) > c
    ensures Covers(d, q, c, p, found)
  {
    forall u | p <= u
      ensures Lev(u, q) > c
    {
      assert p + u[|p|..] == u;
      ExtensionCostBound(p, u[|p|..], q);
    }
  }

  /** What a call appends to a vector that already had `mid` appended after `base`. */
  lemma SplitAfter<T>(base: seq<T>, mid: seq<T>, all: seq<T>)
    requires |base| <= |mid| <= |all| && all[..|mid|] == mid
    ensures all[|base|..] == mid[|base|..] + all[|mid|..]
  {
  }

  /** ChildStep, stated on the shared results vector: `base` is the vector before the
      loop, `before` before probing `x`, `after` after it. */
  lemma LetterProbed(d: PackedDawg, q: seq<char>, c: nat, p: seq<char>, node: nat, x: char,
                     base: seq<Match>, before: seq<Match>, after: seq<Match>)
    requires Reach(d.edges, p) == Some(node)
    requires |base| <= |before| && before[..|base|] == base
    requires LettersDone(d, q, c, p, before[|base|..], x as int)
    requires (node, x) in d.edges ==>
               && |before| <= |after| && after[..|before|] == before
               && Found(d, q, c, p + [x], after[|before|..]) && NoRepeats(after[|before|..])
               && Covers(d, q, c, p + [x], after[|before|..])
    requires (node, x) !in d.edges ==> after == before
    ensures |base| <= |after| && after[..|base|] == base
    ensures LettersDone(d, q, c, p, after[|base|..], x as int + 1)
  {
    SplitAfter(base, before, after);
    ChildStep(d, q, c, p, node, x, before[|base|..], after[|before|..]);
  }

  /** `r` holds the first entries of the row of `p` against `q`. */
  ghost predicate RowPrefix(r: seq<nat>, p: seq<char>, q: seq<char>)
  {
    |r| <= |q| + 1 && forall j :: 0 <= j < |r| ==> r[j] == Lev(p, q[..j])
  }

  lemma RowPrefixSnoc(r: seq<nat>, p: seq<char>, q: seq<char>, v: nat)
    requires RowPrefix(r, p, q) && |r| <= |q|
    requires v == Lev(p, q[..|r|])
    ensures RowPrefix(r + [v], p, q)
  {
  }

  lemma RowPrefixFull(r: seq<nat>, p: seq<char>, q: seq<char>)
    requires RowPrefix(r, p, q) && |r| == |q| + 1
    ensures r == Row(p, q)
  {
  }

  /** The row computation of search_recursive: from the row of `path` to the row of
      `path + [letter]`, one column at a time. */
  method NextRow(previousRow: seq<nat>, letter: char, searchWord: seq<char>, ghost path: seq<char>)
    returns (currentRow: seq<nat>)
    requires previousRow == Row(path, searchWord)
    ensures currentRow == Row(path + [letter], searchWord)
  {
    assert searchWord[..0] == [];
    currentRow := [previousRow[0] + 1];
    for column := 1 to |searchWord| + 1
      invariant |currentRow| == column
      invariant RowPrefix(currentRow, path + [letter], searchWord)
    {
      var insertCost := currentRow[column - 1] + 1;
      var deleteCost := previousRow[column] + 1;
      var replaceCost := if searchWord[column - 1] != letter
        then previousRow[column - 1] + 1
        else previousRow[column - 1];
      assert insertCost == Lev(path + [letter], searchWord[..column - 1]) + 1;
      assert deleteCost == Lev(path, searchWord[..column]) + 1;
      assert replaceCost == Lev(path, searchWord[..column - 1]) + (if searchWord[column - 1] == letter then 0 else 1);
      LevStepUpper(path, letter, searchWord, column);
      LevStepAttained(path, letter, searchWord, column);
      MinOfThree(Lev(path + [letter], searchWord[..column]), insertCost, deleteCost, replaceCost);
      var cost := Min(Min(insertCost, deleteCost), replaceCost);
      RowPrefixSnoc(currentRow, path + [letter], searchWord, cost);
      currentRow := currentRow + [cost];
    }
    RowPrefixFull(currentRow, path + [letter], searchWord);
  }

  /** PackedDawg::search_recursive: enters `nodeIndex` by `letter`, reports the path
      when the node ends a word within budget, and descends into every child unless
      the row's minimum exceeds the budget. Appends to `results`. */
  method SearchRecursive(d: PackedDawg, nodeIndex: nat, letter: char, searchWord: seq<char>,
                         dawgWord: seq<char>, previousRow: seq<nat>, results: seq<Match>, maxCost: nat)
    returns (results': seq<Match>)
    requires Valid(d) && nodeIndex < |d.nodes|
    requires Reach(d.edges, dawgWord + [letter]) == Some(nodeIndex)
    requires AllLetters(dawgWord + [letter])
    requires previousRow == Row(dawgWord, searchWord)
    ensures |results| <= |results'| && results'[..|results|] == results
    ensures Found(d, searchWord, maxCost, dawgWord + [letter], results'[|results|..])
    ensures NoRepeats(results'[|results|..])
    ensures Covers(d, searchWord, maxCost, dawgWord + [letter], results'[|results|..])
    decreases |d.nodes| - nodeIndex
  {
    var word := dawgWord + [letter];
    var currentRow := NextRow(previousRow, letter, searchWord, dawgWord);
    assert searchWord[..|searchWord|] == searchWord;
    var last := currentRow[|currentRow| - 1];
    assert last == Lev(word, searchWord);
    results' := results;
    if last <= maxCost && d.nodes[nodeIndex] {
      results' := results' + [(word, last)];
    }
    ghost var q, c := searchWord, maxCost;
    SelfReport(d, q, c, word, nodeIndex, results'[|results|..]);
    if MinOf(currentRow) <= maxCost {
      var code := 'a' as int;
      while code <= 'z' as int
        invariant 'a' as int <= code <= 'z' as int + 1
        invariant |results| <= |results'| && results'[..|results|] == results
        invariant LettersDone(d, q, c, word, results'[|results|..], code)
      {
        var next := code as char;
        ghost var before := results';
        if (nodeIndex, next) in d.edges {
          var child := d.edges[(nodeIndex, next)];
          ReachStep(d.edges, word, next);
          AllLettersSnoc(word, next);
          results' := SearchRecursive(d, child, next, searchWord, word, currentRow, results', maxCost);
        }
        LetterProbed(d, q, c, word, nodeIndex, next, results, before, results');
        code := code + 1;
      }
      LettersAllDone(d, q, c, word, results'[|results|..]);
    } else {
      PrunedSubtree(d, q, c, word, results'[|results|..]);
    }
  }

  /** PackedDawg::search: every stored non-empty word over 'a'..'z' within distance
      `maxCost` of the query, once each, with its distance. The root is never
      reported. */
  method Search(d: PackedDawg, word: seq<char>, maxCost: nat) returns (results: seq<Match>)
    requires Valid(d)
    ensures forall i :: 0 <= i < |results| ==>
      Reportable(d, word, maxCost, results[i].0) && results[i].1 == Lev(results[i].0, word)
    ensures forall i :: 0 <= i < |results| ==> results[i].1 <= maxCost
    ensures forall u :: Reportable(d, word, maxCost, u) ==> (u, Lev(u, word)) in results
    ensures NoRepeats(results)
  {
    results := [];
    var startingRow := seq(|word| + 1, i => i);
    StartRow(word);
    assert LettersDone(d, word, maxCost, [], results, 'a' as int);
    var code := 'a' as int;
    while code <= 'z' as int
      invariant 'a' as int <= code <= 'z' as int + 1
      invariant LettersDone(d, word, maxCost, [], results, code)
    {
      var letter := code as char;
      ghost var before := results;
      if (0, letter) in d.edges {
        var next := d.edges[(0, letter)];
        ReachStep(d.edges, [], letter);
        assert [] + [letter] == [letter];
        AllLettersSnoc([], letter);
        results := SearchRecursive(d, next, letter, word, [], startingRow, results, maxCost);
      }
      LetterProbed(d, word, maxCost, [], 0, letter, [], before, results);
      code := code + 1;
    }
    LettersAllDone(d, word, maxCost, [], results);
  }

  /** A larger budget keeps every match of a smaller one: whatever `search(q, c)`
      returns, `search(q, c')` with `c <= c'` returns too. */
  lemma SearchMonotone(d: PackedDawg, q: seq<char>, c: nat, c': nat, small: seq<Match>, large: seq<Match>)
    requires c <= c'
    requires forall i :: 0 <= i < |small| ==>
      Reportable(d, q, c, small[i].0) && small[i].1 == Lev(small[i].0, q)
    requires forall u :: Reportable(d, q, c', u) ==> (u, Lev(u, q)) in large
    ensures forall m :: m in small ==> m in large
  {
    forall m | m in small
      ensures m in large
    {
      var i :| 0 <= i < |small| && small[i] == m;
      assert Reportable(d, q, c', m.0);
    }
  }
}
