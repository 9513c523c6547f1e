/** The builder that turns a word list into the packed index: a stack of the
    transitions along the previous word that are still "unchecked", cut back to the
    common prefix before each new word grows its own branch. */
module DawgBuilder {
  import opened Dawg
  import opened Utilities

  /** An entry of the unchecked stack: parent node, letter, child node. */
  type Transition = (nat, char, nat)

  /** Lexicographic order on words (a proper prefix comes first), the order in which
      the builder expects its input. */
  ghost predicate LexLe(a: seq<char>, b: seq<char>)
  {
    if a == [] then true
    else if b == [] then false
    else if a[0] != b[0] then a[0] < b[0]
    else LexLe(a[1..], b[1..])
  }

  ghost predicate Sorted(words: seq<seq<char>>)
  {
    forall i :: 0 < i < |words| ==> LexLe(words[i - 1], words[i])
  }

  /** The word inserted last, or the empty word before any insertion. */
  ghost function LastWord(words: seq<seq<char>>): seq<char>
  {
    if words == [] then [] else words[|words| - 1]
  }

  lemma {:induction false} LexLeTrans(a: seq<char>, b: seq<char>, c: seq<char>)
    requires LexLe(a, b) && LexLe(b, c)
    ensures LexLe(a, c)
  {
    if a != [] && b != [] && c != [] && a[0] == b[0] && b[0] == c[0] {
      LexLeTrans(a[1..], b[1..], c[1..]);
    }
  }

  /** Every prefix of a word comes no later than the word. */
  lemma {:induction false} LexLePrefix(w: seq<char>, i: nat)
    requires i <= |w|
    ensures LexLe(w[..i], w)
  {
    if i > 0 {
      assert w[..i][1..] == w[1..][..i - 1];
      LexLePrefix(w[1..], i - 1);
    }
  }

  /** When `w` comes no earlier than `prev`, a prefix of `w` longer than their common
      prefix comes strictly after `prev`: no node made for `prev` carries it. */
  lemma {:induction false} PastCommonPrefix(prev: seq<char>, w: seq<char>, j: nat)
    requires LexLe(prev, w) && Lcp(w, prev) < j <= |w|
    ensures !LexLe(w[..j], prev)
  {
    if prev != [] && w[0] == prev[0] {
      assert w[..j][1..] == w[1..][..j - 1];
      PastCommonPrefix(prev[1..], w[1..], j - 1);
    }
  }

  /** Appending a word to a sorted list keeps it sorted exactly when the word comes no
      earlier than the last one. */
  lemma SortedSnoc(words: seq<seq<char>>, w: seq<char>)
    requires Sorted(words + [w])
    ensures Sorted(words) && LexLe(LastWord(words), w)
  {
    assert forall i :: 0 <= i < |words| ==> (words + [w])[i] == words[i];
    if words != [] {
      assert (words + [w])[|words|] == w;
    }
  }

  // ---------------------------------------------------------------------------
  // The shape of the arena: every node is labelled by the word that leads to it.

  /** `n` is entered from `parent[n]` by the last letter of its label. */
  ghost predicate ParentEdge(edges: Edges, labels: seq<seq<char>>, parent: seq<nat>, n: nat)
    requires n < |labels| && n < |parent|
  {
    && parent[n] < n && |labels[n]| > 0
    && (parent[n], labels[n][|labels[n]| - 1]) in edges
    && edges[(parent[n], labels[n][|labels[n]| - 1])] == n
  }

  /** The arena is a tree: each node has a label, the root's is empty, every transition
      appends its letter to its source's label, and every other node has the parent
      transition that enters it. */
  ghost predicate Labelled(nodes: seq<bool>, edges: Edges, labels: seq<seq<char>>, parent: seq<nat>)
  {
    && Dawg.Valid(PackedDawg(nodes, edges))
    && |labels| == |nodes| && |parent| == |nodes| && labels[0] == []
    && (forall key :: key in edges ==> labels[edges[key]] == labels[key.0] + [key.1])
    && (forall n :: 0 < n < |nodes| ==> ParentEdge(edges, labels, parent, n))
  }

  /** Walking a word ends on the node that carries it as its label. */
  lemma {:induction false} ReachGivesLabel(nodes: seq<bool>, edges: Edges, labels: seq<seq<char>>,
                                           parent: seq<nat>, w: seq<char>)
    requires Labelled(nodes, edges, labels, parent)
    ensures Reach(edges, w).Some? ==> Reach(edges, w).value < |nodes| && labels[Reach(edges, w).value] == w
  {
    if w != [] {
      var w', x := w[..|w| - 1], w[|w| - 1];
      ReachGivesLabel(nodes, edges, labels, parent, w');
      assert w == w' + [x];
    }
  }

  /** ... and every label can be walked to its node. */
  lemma {:induction false} LabelGivesReach(nodes: seq<bool>, edges: Edges, labels: seq<seq<char>>,
                                           parent: seq<nat>, n: nat)
    requires Labelled(nodes, edges, labels, parent) && n < |nodes|
    ensures Reach(edges, labels[n]) == Some(n)
    decreases n
  {
    if n > 0 {
      assert ParentEdge(edges, labels, parent, n);
      var m, x := parent[n], labels[n][|labels[n]| - 1];
      LabelGivesReach(nodes, edges, labels, parent, m);
      assert labels[n] == labels[m] + [x];
      ReachStep(edges, labels[m], x);
    }
  }

  /** Hence no two nodes carry the same label. */
  lemma LabelsDistinct(nodes: seq<bool>, edges: Edges, labels: seq<seq<char>>, parent: seq<nat>,
                       m: nat, n: nat)
    requires Labelled(nodes, edges, labels, parent) && m < |nodes| && n < |nodes|
    ensures labels[m] == labels[n] ==> m == n
  {
    LabelGivesReach(nodes, edges, labels, parent, m);
    LabelGivesReach(nodes, edges, labels, parent, n);
  }

  /** Adding a node below `m` by a letter that no label yet ends with keeps the tree
      shape, and the transition is new. */
  lemma GrowLabelled(nodes: seq<bool>, edges: Edges, labels: seq<seq<char>>, parent: seq<nat>,
                     m: nat, x: char)
    requires Labelled(nodes, edges, labels, parent) && m < |nodes|
    requires forall n :: 0 <= n < |nodes| ==> labels[n] != labels[m] + [x]
    ensures (m, x) !in edges
    ensures Labelled(nodes + [false], edges[(m, x) := |nodes|], labels + [labels[m] + [x]], parent + [m])
  {
    var nodes', edges', labels', parent' :=
      nodes + [false], edges[(m, x) := |nodes|], labels + [labels[m] + [x]], parent + [m];
    forall n | 0 < n < |nodes'|
      ensures ParentEdge(edges', labels', parent', n)
    {
      if n < |nodes| {
        assert ParentEdge(edges, labels, parent, n);
      }
    }
  }

  // ---------------------------------------------------------------------------
  // The builder's state when the words so far came in order.

  /** The index stores exactly `words`, every label comes no later than `prev`, and
      the stack holds the path of `prev`. */
  ghost predicate TrieShape(nodes: seq<bool>, edges: Edges, labels: seq<seq<char>>, parent: seq<nat>,
                            words: seq<seq<char>>, prev: seq<char>, stack: seq<Transition>)
  {
    && Labelled(nodes, edges, labels, parent)
    && (forall n :: 0 <= n < |nodes| ==> LexLe(labels[n], prev))
    && (forall n :: 0 <= n < |nodes| ==> (nodes[n] <==> labels[n] in words))
    && (forall w :: w in words ==> w in labels)
    && |stack| <= |prev|
    && (forall i :: 0 <= i < |stack| ==> stack[i].2 < |nodes| && labels[stack[i].2] == prev[..i + 1])
  }

  /** A tree-shaped arena accepts exactly the words it flags. */
  lemma TrieAccepts(nodes: seq<bool>, edges: Edges, labels: seq<seq<char>>, parent: seq<nat>,
                    words: seq<seq<char>>, prev: seq<char>, stack: seq<Transition>)
    requires TrieShape(nodes, edges, labels, parent, words, prev, stack)
    ensures forall w :: Accepts(PackedDawg(nodes, edges), w) <==> w in words
  {
    forall w
      ensures Accepts(PackedDawg(nodes, edges), w) <==> w in words
    {
      ReachGivesLabel(nodes, edges, labels, parent, w);
      if w in words {
        var n :| 0 <= n < |labels| && labels[n] == w;
        LabelGivesReach(nodes, edges, labels, parent, n);
      }
    }
  }

  /** The state of insert_word's loop after `i` letters of `word`: the node of
      `word[..i]` is `nodeId`, no node is labelled by a longer prefix yet, and the
      stack is the path of `word[..i]`. */
  ghost predicate Growing(nodes: seq<bool>, edges: Edges, labels: seq<seq<char>>, parent: seq<nat>,
                          words: seq<seq<char>>, word: seq<char>, i: nat,
                          stack: seq<Transition>, nodeId: nat)
  {
    && Labelled(nodes, edges, labels, parent)
    && i <= |word| && nodeId < |nodes| && labels[nodeId] == word[..i]
    && (forall n, j :: 0 <= n < |nodes| && i < j <= |word| ==> labels[n] != word[..j])
    && (forall n :: 0 <= n < |nodes| ==> LexLe(labels[n], word))
    && (forall n :: 0 <= n < |nodes| ==> (nodes[n] <==> labels[n] in words))
    && (forall w :: w in words ==> w in labels)
    && |stack| == i
    && (forall s :: 0 <= s < |stack| ==> stack[s].2 < |nodes| && labels[stack[s].2] == word[..s + 1])
  }

  /** The stack's top child, or the root when the stack is empty. */
  function Top(stack: seq<Transition>): nat
  {
    if |stack| == 0 then 0 else stack[|stack| - 1].2
  }

  /** Cutting the stack back to the common prefix with the next (later) word starts
      the loop at the node of that prefix. */
  lemma GrowingStart(nodes: seq<bool>, edges: Edges, labels: seq<seq<char>>, parent: seq<nat>,
                     words: seq<seq<char>>, prev: seq<char>, stack: seq<Transition>, word: seq<char>)
    requires TrieShape(nodes, edges, labels, parent, words, prev, stack) && |stack| == |prev|
    requires LexLe(prev, word)
    ensures Lcp(word, prev) <= |stack|
    ensures Growing(nodes, edges, labels, parent, words, word, Lcp(word, prev),
                    stack[..Lcp(word, prev)], Top(stack[..Lcp(word, prev)]))
  {
    var k := Lcp(word, prev);
    LcpCharacterised(word, prev, k);
    forall n, j | 0 <= n < |nodes| && k < j <= |word|
      ensures labels[n] != word[..j]
    {
      PastCommonPrefix(prev, word, j);
    }
    forall n | 0 <= n < |nodes|
      ensures LexLe(labels[n], word)
    {
      LexLeTrans(labels[n], prev, word);
    }
    forall s | 0 <= s < k
      ensures labels[stack[s].2] == word[..s + 1]
    {
      assert prev[..s + 1] == prev[..k][..s + 1];
      assert word[..s + 1] == word[..k][..s + 1];
    }
    if k > 0 {
      assert labels[stack[k - 1].2] == word[..k];
    }
  }

  /** One letter of insert_word's loop: a fresh node for `word[..i + 1]`, entered from
      `nodeId`. */
  lemma GrowingStep(nodes: seq<bool>, edges: Edges, labels: seq<seq<char>>, parent: seq<nat>,
                    words: seq<seq<char>>, word: seq<char>, i: nat, stack: seq<Transition>, nodeId: nat)
    requires Growing(nodes, edges, labels, parent, words, word, i, stack, nodeId) && i < |word|
    ensures (nodeId, word[i]) !in edges
    ensures Growing(nodes + [false], edges[(nodeId, word[i]) := |nodes|], labels + [word[..i + 1]],
                    parent + [nodeId], words, word, i + 1,
                    stack + [(nodeId, word[i], |nodes|)], |nodes|)
  {
    assert word[..i + 1] == labels[nodeId] + [word[i]];
    GrowLabelled(nodes, edges, labels, parent, nodeId, word[i]);
    LexLePrefix(word, i + 1);
    assert word[..i + 1] !in labels;
    var labels' := labels + [word[..i + 1]];
    forall w | w in words
      ensures w in labels'
    {
      var n :| 0 <= n < |labels| && labels[n] == w;
      assert labels'[n] == w;
    }
  }

  /** The loop has consumed the whole word: flagging its node makes the index store
      one word more, and the stack is the word's path. */
  lemma GrowingEnd(nodes: seq<bool>, edges: Edges, labels: seq<seq<char>>, parent: seq<nat>,
                   words: seq<seq<char>>, word: seq<char>, stack: seq<Transition>, nodeId: nat)
    requires Growing(nodes, edges, labels, parent, words, word, |word|, stack, nodeId)
    ensures TrieShape(nodes[nodeId := true], edges, labels, parent, words + [word], word, stack)
  {
    assert labels[nodeId] == word;
    var nodes' := nodes[nodeId := true];
    forall n | 0 <= n < |nodes|
      ensures nodes'[n] <==> labels[n] in words + [word]
    {
      LabelsDistinct(nodes, edges, labels, parent, n, nodeId);
    }
  }

  // ---------------------------------------------------------------------------
  // What insert_word adds: a chain of fresh nodes below the common prefix.

  /** The source of the `j`-th new transition: the prefix's node, then the new nodes
      `base`, `base + 1`, ... in turn. */
  ghost function Src(start: nat, base: nat, j: nat): nat
  {
    if j == 0 then start else base + j - 1
  }

  /** The transitions after adding the chain for `word[k..i]` below `start`, numbering
      the new nodes from `base`. */
  ghost function ChainEdges(edges: Edges, start: nat, base: nat, word: seq<char>, k: nat, i: nat): Edges
    requires k <= i <= |word|
    decreases i - k
  {
    if i == k then edges
    else ChainEdges(edges, start, base, word, k, i - 1)[(Src(start, base, i - 1 - k), word[i - 1]) := base + i - 1 - k]
  }

  /** The stack after pushing the entries of that chain onto `stack`. */
  ghost function ChainStack(stack: seq<Transition>, start: nat, base: nat, word: seq<char>, k: nat, i: nat): seq<Transition>
    requires k <= i <= |word|
    decreases i - k
  {
    if i == k then stack
    else ChainStack(stack, start, base, word, k, i - 1) + [(Src(start, base, i - 1 - k), word[i - 1], base + i - 1 - k)]
  }

  /** The node flags after `count` fresh nodes, none of them a word end. */
  ghost function Pad(nodes: seq<bool>, count: nat): (r: seq<bool>)
    ensures |r| == |nodes| + count
  {
    if count == 0 then nodes else Pad(nodes, count - 1) + [false]
  }

  /** Padding keeps the old flags and appends `count` unflagged nodes. */
  lemma {:induction false} PadShape(nodes: seq<bool>, count: nat)
    ensures Pad(nodes, count)[..|nodes|] == nodes
    ensures forall n :: |nodes| <= n < |nodes| + count ==> !Pad(nodes, count)[n]
  {
    if count > 0 {
      PadShape(nodes, count - 1);
      var p := Pad(nodes, count - 1);
      assert (p + [false])[..|nodes|] == p[..|nodes|];
    }
  }

  /** The flags after insert_word: exactly `count` nodes are appended; the only flag
      raised is that of the word's last node, the newest fresh node or, when nothing is
      fresh, the node of the shared prefix; no other flag changes. */
  lemma GrownFlags(nodes: seq<bool>, count: nat, start: nat)
    requires start < |nodes|
    ensures var r := Pad(nodes, count)[Src(start, |nodes|, count) := true];
            && |r| == |nodes| + count
            && r[Src(start, |nodes|, count)]
            && (count > 0 ==> Src(start, |nodes|, count) == |r| - 1)
            && (forall n :: 0 <= n < |nodes| && n != Src(start, |nodes|, count) ==> r[n] == nodes[n])
            && (forall n :: |nodes| <= n < |r| ==> (r[n] <==> n == |r| - 1))
  {
    PadShape(nodes, count);
    var p := Pad(nodes, count);
    forall n | 0 <= n < |nodes|
      ensures p[n] == nodes[n]
    {
      assert p[..|nodes|][n] == p[n];
    }
  }

  /** The entries the chain pushes: the `j`-th leaves `Src(start, base, j)` by the
      letter `word[k + j]` and enters the fresh node `base + j`. */
  lemma {:induction false} ChainStackShape(stack: seq<Transition>, start: nat, base: nat, word: seq<char>,
                                           k: nat, i: nat)
    requires k <= i <= |word|
    ensures var s := ChainStack(stack, start, base, word, k, i);
            && |s| == |stack| + i - k && s[..|stack|] == stack
            && forall j :: 0 <= j < i - k ==> s[|stack| + j] == (Src(start, base, j), word[k + j], base + j)
    decreases i - k
  {
    if i > k {
      ChainStackShape(stack, start, base, word, k, i - 1);
      var s := ChainStack(stack, start, base, word, k, i - 1);
      assert (s + [(Src(start, base, i - 1 - k), word[i - 1], base + i - 1 - k)])[..|stack|] == s[..|stack|];
    }
  }

  /** The word leading to each node of that chain. */
  ghost function ChainLabels(labels: seq<seq<char>>, word: seq<char>, k: nat, i: nat): seq<seq<char>>
    requires k <= i <= |word|
    decreases i - k
  {
    if i == k then labels else ChainLabels(labels, word, k, i - 1) + [word[..i]]
  }

  /** The node each node of that chain is entered from. */
  ghost function ChainParent(parent: seq<nat>, start: nat, base: nat, k: nat, i: nat): seq<nat>
    requires k <= i
    decreases i - k
  {
    if i == k then parent else ChainParent(parent, start, base, k, i - 1) + [Src(start, base, i - 1 - k)]
  }

  /** The children named in a stretch of the stack. */
  ghost function Children(stack: seq<Transition>): set<nat>
  {
    set i | 0 <= i < |stack| :: stack[i].2
  }

  /** Every entry of the stack is a transition of the index, and the children grow
      strictly from the bottom of the stack to its top. */
  ghost predicate StackLinked(stack: seq<Transition>, edges: Edges)
  {
    && (forall i :: 0 <= i < |stack| ==>
          (stack[i].0, stack[i].1) in edges && edges[(stack[i].0, stack[i].1)] == stack[i].2)
    && (forall i, j :: 0 <= i < j < |stack| ==> stack[i].2 < stack[j].2)
  }

  /** The stack spells a prefix of `word` from the root: entry `i` leaves the child of
      entry `i - 1` (the root for `i == 0`) by the letter `word[i]`. */
  ghost predicate Spells(stack: seq<Transition>, word: seq<char>)
  {
    && |stack| <= |word|
    && (forall i :: 0 <= i < |stack| ==> stack[i].1 == word[i])
    && (|stack| > 0 ==> stack[0].0 == 0)
    && (forall i :: 0 < i < |stack| ==> stack[i].0 == stack[i - 1].2)
  }

  /** Cut back to the prefix that `prev` shares with `word`, the stack spells `word`. */
  lemma SpellsShared(stack: seq<Transition>, prev: seq<char>, word: seq<char>, k: nat)
    requires Spells(stack, prev) && k <= |stack| && k <= |word| && prev[..k] == word[..k]
    ensures Spells(stack[..k], word)
  {
    var cut := stack[..k];
    forall i | 0 <= i < k
      ensures cut[i].1 == word[i]
    {
      assert prev[..k][i] == word[..k][i];
    }
  }

  /** The stack's top is a node of the arena. */
  lemma TopInBounds(nodes: seq<bool>, edges: Edges, stack: seq<Transition>)
    requires Dawg.Valid(PackedDawg(nodes, edges)) && StackLinked(stack, edges)
    ensures Top(stack) < |nodes|
  {
    if stack != [] {
      var e := stack[|stack| - 1];
      assert (e.0, e.1) in edges;
    }
  }

  /** A transition out of the stack's top to a fresh node keeps the stack linked and the
      arena valid, whatever the order of the words. */
  lemma LinkedGrow(nodes: seq<bool>, edges: Edges, stack: seq<Transition>, x: char)
    requires Dawg.Valid(PackedDawg(nodes, edges)) && StackLinked(stack, edges)
    ensures Top(stack) < |nodes|
    ensures Dawg.Valid(PackedDawg(nodes + [false], edges[(Top(stack), x) := |nodes|]))
    ensures StackLinked(stack + [(Top(stack), x, |nodes|)], edges[(Top(stack), x) := |nodes|])
  {
    var top := Top(stack);
    forall i | 0 <= i < |stack|
      ensures stack[i].0 < top && stack[i].2 < |nodes|
    {
      assert stack[i].0 < stack[i].2;
    }
  }

  lemma LinkedPrefix(stack: seq<Transition>, edges: Edges, k: nat)
    requires StackLinked(stack, edges) && k <= |stack|
    ensures StackLinked(stack[..k], edges)
  {
  }

  lemma ChildrenSplit(stack: seq<Transition>, r: nat)
    requires 0 < r <= |stack|
    ensures Children(stack[r - 1..]) == {stack[r - 1].2} + Children(stack[r..])
  {
    var s, t := stack[r - 1..], stack[r..];
    forall c | c in Children(s)
      ensures c in {stack[r - 1].2} + Children(t)
    {
      var i :| 0 <= i < |s| && s[i].2 == c;
      if i > 0 {
        assert t[i - 1] == s[i];
      }
    }
    forall c | c in Children(t)
      ensures c in Children(s)
    {
      var i :| 0 <= i < |t| && t[i].2 == c;
      assert s[i + 1] == t[i];
    }
    assert s[0] == stack[r - 1];
  }

  /** No child on the stack is in the minimized set, and every minimized node is
      below `n`: the stack's children are exactly the nodes not yet popped. */
  ghost predicate FreshFrontier(stack: seq<Transition>, minimized: set<nat>, n: nat)
  {
    && (forall m :: m in minimized ==> m < n)
    && (forall i :: 0 <= i < |stack| ==> stack[i].2 !in minimized)
  }

  /** Under that invariant the minimized set and the stack's children are disjoint,
      so the redirect branch of minimize never runs. */
  lemma FrontierDisjoint(stack: seq<Transition>, minimized: set<nat>, n: nat)
    requires FreshFrontier(stack, minimized, n)
    ensures Children(stack) !! minimized
  {
  }

  /** Popping the stack down to `k` entries moves the popped children into the
      minimized set; no remaining child is among them, since the children strictly
      increase, and all of them are nodes of the arena. */
  lemma PopFresh(nodes: seq<bool>, edges: Edges, stack: seq<Transition>, minimized: set<nat>, k: nat)
    requires Dawg.Valid(PackedDawg(nodes, edges)) && StackLinked(stack, edges)
    requires FreshFrontier(stack, minimized, |nodes|) && k <= |stack|
    ensures FreshFrontier(stack[..k], minimized + Children(stack[k..]), |nodes|)
  {
    var popped := stack[k..];
    forall m | m in Children(popped)
      ensures m < |nodes| && forall i :: 0 <= i < k ==> stack[i].2 != m
    {
      var j :| 0 <= j < |popped| && popped[j].2 == m;
      var e := stack[k + j];
      assert (e.0, e.1) in edges;
    }
  }

  /** Growing the chain of fresh nodes, numbered from `n`, keeps the invariant with
      the arena's new size. */
  lemma GrowFresh(stack: seq<Transition>, minimized: set<nat>, n: nat, start: nat, word: seq<char>, k: nat)
    requires FreshFrontier(stack, minimized, n) && |stack| == k <= |word|
    ensures FreshFrontier(ChainStack(stack, start, n, word, k, |word|), minimized, n + |word| - k)
  {
    var grown := ChainStack(stack, start, n, word, k, |word|);
    ChainStackShape(stack, start, n, word, k, |word|);
    forall i | 0 <= i < |grown|
      ensures grown[i].2 !in minimized
    {
      if i < k {
        assert grown[..k][i] == stack[i];
      } else {
        var j := i - k;
        assert grown[k + j] == (Src(start, n, j), word[k + j], n + j);
      }
    }
  }

  /** Writing a transition that is already there leaves the map as it was. */
  lemma RewriteSame(edges: Edges, key: (nat, char))
    requires key in edges
    ensures edges[key := edges[key]] == edges
  {
  }

  // ---------------------------------------------------------------------------
  // The builder's invariant, and the three stages of insert_word.

  /** The stack is the path of the previous word and its entries are transitions of the
      index; when the words came in order, the index is the tree of their prefixes and
      stores exactly them. */
  ghost predicate BuilderInvariant(previousWord: seq<char>, nodes: seq<bool>, edges: Edges,
                                   stack: seq<Transition>, words: seq<seq<char>>,
                                   labels: seq<seq<char>>, parent: seq<nat>)
  {
    && Dawg.Valid(PackedDawg(nodes, edges))
    && StackLinked(stack, edges)
    && |stack| == |previousWord| && Spells(stack, previousWord)
    && previousWord == LastWord(words)
    && (Sorted(words) ==> TrieShape(nodes, edges, labels, parent, words, previousWord, stack))
  }

  /** The state of insert_word's loop after `i` letters: the stack ends at `nodeId`, and
      when the words are in order the chain so far is the path of `word[..i]`. */
  ghost predicate LoopState(nodes: seq<bool>, edges: Edges, stack: seq<Transition>, nodeId: nat,
                            labels: seq<seq<char>>, parent: seq<nat>, words: seq<seq<char>>,
                            word: seq<char>, i: nat, sorted: bool)
  {
    && Dawg.Valid(PackedDawg(nodes, edges)) && StackLinked(stack, edges)
    && |stack| == i && nodeId == Top(stack) && Spells(stack, word)
    && (sorted ==> Growing(nodes, edges, labels, parent, words, word, i, stack, nodeId))
  }

  /** Before the loop: the stack cut back to the common prefix `k`. */
  lemma InsertStart(previousWord: seq<char>, nodes: seq<bool>, edges: Edges, stack: seq<Transition>,
                    words: seq<seq<char>>, labels: seq<seq<char>>, parent: seq<nat>,
                    word: seq<char>, k: nat)
    requires BuilderInvariant(previousWord, nodes, edges, stack, words, labels, parent)
    requires k == Lcp(word, previousWord)
    ensures k <= |stack| && k <= |word|
    ensures LoopState(nodes, edges, stack[..k], Top(stack[..k]), labels, parent, words, word, k,
                      Sorted(words + [word]))
  {
    LcpCharacterised(word, previousWord, k);
    LinkedPrefix(stack, edges, k);
    SpellsShared(stack, previousWord, word, k);
    if Sorted(words + [word]) {
      SortedSnoc(words, word);
      GrowingStart(nodes, edges, labels, parent, words, previousWord, stack, word);
    }
  }

  /** One iteration of the loop. */
  lemma InsertStep(nodes: seq<bool>, edges: Edges, stack: seq<Transition>, nodeId: nat,
                   labels: seq<seq<char>>, parent: seq<nat>, words: seq<seq<char>>,
                   word: seq<char>, i: nat, sorted: bool)
    requires LoopState(nodes, edges, stack, nodeId, labels, parent, words, word, i, sorted)
    requires i < |word|
    ensures nodeId < |nodes|
    ensures LoopState(nodes + [false], edges[(nodeId, word[i]) := |nodes|],
                      stack + [(nodeId, word[i], |nodes|)], |nodes|,
                      labels + [word[..i + 1]], parent + [nodeId], words, word, i + 1, sorted)
  {
    LinkedGrow(nodes, edges, stack, word[i]);
    if sorted {
      GrowingStep(nodes, edges, labels, parent, words, word, i, stack, nodeId);
    }
  }

  /** After the loop: flagging the last node restores the builder's invariant with
      `word` as the previous word, and in order the index stores one word more. */
  lemma InsertEnd(nodes: seq<bool>, nodeId: nat, flagged: seq<bool>, edges: Edges, stack: seq<Transition>,
                  labels: seq<seq<char>>, parent: seq<nat>, words: seq<seq<char>>, word: seq<char>,
                  words': seq<seq<char>>)
    requires LoopState(nodes, edges, stack, nodeId, labels, parent, words, word, |word|, Sorted(words'))
    requires nodeId < |nodes| && flagged == nodes[nodeId := true] && words' == words + [word]
    ensures BuilderInvariant(word, flagged, edges, stack, words', labels, parent)
    ensures Sorted(words') ==> forall w :: Accepts(PackedDawg(flagged, edges), w) <==> w in words'
  {
    if Sorted(words') {
      GrowingEnd(nodes, edges, labels, parent, words, word, stack, nodeId);
      TrieAccepts(flagged, edges, labels, parent, words', word, stack);
    }
  }

  /** The loop after `i - k` iterations, started at the common prefix `k`: the state
      `nodes'`, ..., `parent'` is the chain for `word[k..i]`. */
  lemma {:induction false} ChainState(nodes: seq<bool>, edges: Edges, stack: seq<Transition>,
                                      labels: seq<seq<char>>, parent: seq<nat>, words: seq<seq<char>>,
                                      word: seq<char>, k: nat, i: nat, sorted: bool,
                                      nodes': seq<bool>, edges': Edges, stack': seq<Transition>, nodeId': nat,
                                      labels': seq<seq<char>>, parent': seq<nat>)
    requires k <= i <= |word|
    requires LoopState(nodes, edges, stack, Top(stack), labels, parent, words, word, k, sorted)
    requires var start, base := Top(stack), |nodes|;
             && nodes' == Pad(nodes, i - k)
             && edges' == ChainEdges(edges, start, base, word, k, i)
             && stack' == ChainStack(stack, start, base, word, k, i)
             && nodeId' == Src(start, base, i - k)
             && labels' == ChainLabels(labels, word, k, i)
             && parent' == ChainParent(parent, start, base, k, i)
    ensures LoopState(nodes', edges', stack', nodeId', labels', parent', words, word, i, sorted)
    decreases i - k
  {
    if i > k {
      var start, base := Top(stack), |nodes|;
      var nodes1, edges1, stack1 := Pad(nodes, i - 1 - k), ChainEdges(edges, start, base, word, k, i - 1),
                                    ChainStack(stack, start, base, word, k, i - 1);
      var nodeId1, labels1, parent1 := Src(start, base, i - 1 - k), ChainLabels(labels, word, k, i - 1),
                                       ChainParent(parent, start, base, k, i - 1);
      ChainSnoc(nodes, edges, stack, labels, parent, word, k, i);
      ChainState(nodes, edges, stack, labels, parent, words, word, k, i - 1, sorted,
                 nodes1, edges1, stack1, nodeId1, labels1, parent1);
      InsertStep(nodes1, edges1, stack1, nodeId1, labels1, parent1, words, word, i - 1, sorted);
    }
  }

  /** The chain for `word[k..i]` is the chain for `word[k..i - 1]` and one step more. */
  lemma ChainSnoc(nodes: seq<bool>, edges: Edges, stack: seq<Transition>,
                  labels: seq<seq<char>>, parent: seq<nat>, word: seq<char>, k: nat, i: nat)
    requires k < i <= |word|
    ensures var start, base := Top(stack), |nodes|;
            var nodes1, nodeId1 := Pad(nodes, i - 1 - k), Src(start, base, i - 1 - k);
            && Pad(nodes, i - k) == nodes1 + [false]
            && ChainEdges(edges, start, base, word, k, i)
               == ChainEdges(edges, start, base, word, k, i - 1)[(nodeId1, word[i - 1]) := |nodes1|]
            && ChainStack(stack, start, base, word, k, i)
               == ChainStack(stack, start, base, word, k, i - 1) + [(nodeId1, word[i - 1], |nodes1|)]
            && Src(start, base, i - k) == |nodes1|
            && ChainLabels(labels, word, k, i) == ChainLabels(labels, word, k, i - 1) + [word[..i]]
            && ChainParent(parent, start, base, k, i) == ChainParent(parent, start, base, k, i - 1) + [nodeId1]
  {
  }

  /** All of insert_word at once: from the invariant with `previousWord` to the invariant
      with `word`, the new state being the chain of fresh nodes below the common
      prefix `k`; in order, the index stores one word more. */
  lemma InsertPreserves(previousWord: seq<char>, nodes: seq<bool>, edges: Edges, stack: seq<Transition>,
                        words: seq<seq<char>>, labels: seq<seq<char>>, parent: seq<nat>,
                        word: seq<char>, k: nat,
                        nodes': seq<bool>, edges': Edges, stack': seq<Transition>,
                        words': seq<seq<char>>, labels': seq<seq<char>>, parent': seq<nat>)
    requires BuilderInvariant(previousWord, nodes, edges, stack, words, labels, parent)
    requires k == Lcp(word, previousWord) && k <= |word| && k <= |stack|
    requires var start, base := Top(stack[..k]), |nodes|;
             && nodes' == Pad(nodes, |word| - k)[Src(start, base, |word| - k) := true]
             && edges' == ChainEdges(edges, start, base, word, k, |word|)
             && stack' == ChainStack(stack[..k], start, base, word, k, |word|)
             && words' == words + [word]
             && labels' == ChainLabels(labels, word, k, |word|)
             && parent' == ChainParent(parent, start, base, k, |word|)
    ensures BuilderInvariant(word, nodes', edges', stack', words', labels', parent')
    ensures Sorted(words') ==> forall w :: Accepts(PackedDawg(nodes', edges'), w) <==> w in words'
  {
    var sorted := Sorted(words + [word]);
    InsertStart(previousWord, nodes, edges, stack, words, labels, parent, word, k);
    var start, base := Top(stack[..k]), |nodes|;
    var nodes1, edges1, stack1 := Pad(nodes, |word| - k), ChainEdges(edges, start, base, word, k, |word|),
                                  ChainStack(stack[..k], start, base, word, k, |word|);
    var nodeId1 := Src(start, base, |word| - k);
    var labels1, parent1 := ChainLabels(labels, word, k, |word|), ChainParent(parent, start, base, k, |word|);
    ChainState(nodes, edges, stack[..k], labels, parent, words, word, k, |word|, sorted,
               nodes1, edges1, stack1, nodeId1, labels1, parent1);
    InsertEnd(nodes1, nodeId1, nodes', edges', stack', labels', parent', words, word, words');
  }

  /** The ghost record the builder keeps beside its state: the words inserted so far,
      in order, the word leading to each node, and the node each was entered from. */
  datatype History = History(words: seq<seq<char>>, labels: seq<seq<char>>, parent: seq<nat>)

  /** The builder's invariant on its fields: the invariant of its arena, stack and
      words, and the stack's children not yet minimized. */
  ghost predicate BuilderState(previousWord: seq<char>, nodes: seq<bool>, minimized: set<nat>, edges: Edges,
                               stack: seq<Transition>, history: History)
  {
    && BuilderInvariant(previousWord, nodes, edges, stack, history.words, history.labels, history.parent)
    && FreshFrontier(stack, minimized, |nodes|)
  }

  /** insert_word on the builder's whole state, the new state given as parameters. */
  lemma InsertKeepsState(previousWord: seq<char>, nodes: seq<bool>, minimized: set<nat>, edges: Edges,
                         stack: seq<Transition>, history: History, word: seq<char>, k: nat,
                         nodes': seq<bool>, minimized': set<nat>, edges': Edges, stack': seq<Transition>,
                         history': History)
    requires BuilderState(previousWord, nodes, minimized, edges, stack, history)
    requires k == Lcp(word, previousWord) && k <= |word| && k <= |stack|
    requires var start, base := Top(stack[..k]), |nodes|;
             && nodes' == Pad(nodes, |word| - k)[Src(start, base, |word| - k) := true]
             && edges' == ChainEdges(edges, start, base, word, k, |word|)
             && stack' == ChainStack(stack[..k], start, base, word, k, |word|)
             && minimized' == minimized + Children(stack[k..])
             && history' == History(history.words + [word], ChainLabels(history.labels, word, k, |word|),
                                    ChainParent(history.parent, start, base, k, |word|))
    ensures BuilderState(word, nodes', minimized', edges', stack', history')
    ensures Sorted(history'.words) ==> forall w :: Accepts(PackedDawg(nodes', edges'), w) <==> w in history'.words
  {
    InsertPreserves(previousWord, nodes, edges, stack, history.words, history.labels, history.parent,
                    word, k, nodes', edges', stack', history'.words, history'.labels, history'.parent);
    PopFresh(nodes, edges, stack, minimized, k);
    GrowFresh(stack[..k], minimized + Children(stack[k..]), |nodes|, Top(stack[..k]), word, k);
  }

  class PackedDawgBuilder {
    var previousWord: seq<char>
    var nodes: seq<bool>
    var minimizedNodes: set<nat>
    var uncheckedNodes: seq<Transition>
    var edges: Edges
    ghost var history: History

    ghost predicate Valid()
      reads this
    {
      BuilderState(previousWord, nodes, minimizedNodes, edges, uncheckedNodes, history)
    }

    /** The empty builder of from_words: the root alone. */
    constructor ()
      ensures Valid()
      ensures history.words == [] && previousWord == [] && nodes == [false] && edges == map[]
      ensures uncheckedNodes == [] && minimizedNodes == {}
    {
      previousWord := [];
      nodes := [false];
      minimizedNodes := {};
      uncheckedNodes := [];
      edges := map[];
      history := History([], [[]], [0]);
    }

    /** PackedDawgBuilder::minimize: pops the stack down to `downTo` entries. A popped
        child already in `minimizedNodes` has its transition written again (the entry
        is a transition of the index, so the map does not change); any other popped
        child is added to `minimizedNodes`. Under `Valid()` the first case never
        arises (`FrontierDisjoint`). */
    method Minimize(downTo: nat)
      requires StackLinked(uncheckedNodes, edges)
      modifies this
      ensures downTo <= old(|uncheckedNodes|) ==>
                && uncheckedNodes == old(uncheckedNodes)[..downTo]
                && minimizedNodes == old(minimizedNodes) + Children(old(uncheckedNodes)[downTo..])
      ensures downTo > old(|uncheckedNodes|) ==>
                uncheckedNodes == old(uncheckedNodes) && minimizedNodes == old(minimizedNodes)
      ensures StackLinked(uncheckedNodes, edges)
      ensures nodes == old(nodes) && edges == old(edges) && previousWord == old(previousWord)
      ensures history == old(history)
    {
      ghost var popped, minimized0, edges0 := uncheckedNodes, minimizedNodes, edges;
      var stack: seq<Transition>, minimized: set<nat>, transitions: Edges := uncheckedNodes, minimizedNodes, edges;
      var remaining := |stack|;
      while remaining > downTo
        invariant remaining == |stack| <= |popped|
        invariant remaining >= downTo || remaining == |popped|
        invariant stack == popped[..remaining]
        invariant minimized == minimized0 + Children(popped[remaining..])
        invariant transitions == edges0
        modifies {}
      {
        var (parentId, letter, childId) := stack[|stack| - 1];
        ChildrenSplit(popped, remaining);
        assert popped[remaining - 1] == stack[|stack| - 1];
        stack := stack[..|stack| - 1];
        if childId in minimized {
          RewriteSame(transitions, (parentId, letter));
          transitions := transitions[(parentId, letter) := childId];
        } else {
          minimized := minimized + {childId};
        }
        remaining := remaining - 1;
      }
      if remaining == |popped| {
        assert popped[remaining..] == [];
      }
      LinkedPrefix(popped, edges0, remaining);
      uncheckedNodes, minimizedNodes, edges := stack, minimized, transitions;
    }

    /** The second half of insert_word, once the stack is cut back to the common
        prefix `k`: one fresh node per letter of `word[k..]`, each entered from the one
        before starting at the stack's top, the last flagged as a word end. */
    method GrowBranch(word: seq<char>, k: nat)
      requires k <= |word| && Top(uncheckedNodes) < |nodes|
      modifies this
      ensures var start, base := Top(old(uncheckedNodes)), old(|nodes|);
              && nodes == Pad(old(nodes), |word| - k)[Src(start, base, |word| - k) := true]
              && edges == ChainEdges(old(edges), start, base, word, k, |word|)
              && uncheckedNodes == ChainStack(old(uncheckedNodes), start, base, word, k, |word|)
      ensures previousWord == word && minimizedNodes == old(minimizedNodes)
      ensures history == old(history)
    {
      var nodeId: nat := if |uncheckedNodes| == 0 then 0 else uncheckedNodes[|uncheckedNodes| - 1].2;
      var arena: seq<bool>, transitions: Edges, stack: seq<Transition> := nodes, edges, uncheckedNodes;
      for i := k to |word|
        invariant arena == Pad(nodes, i - k)
        invariant transitions == ChainEdges(edges, Top(uncheckedNodes), |nodes|, word, k, i)
        invariant stack == ChainStack(uncheckedNodes, Top(uncheckedNodes), |nodes|, word, k, i)
        invariant nodeId == Src(Top(uncheckedNodes), |nodes|, i - k)
        modifies {}
      {
        var letter := word[i];
        var nextNodeId: nat := |arena|;
        arena := arena + [false];
        transitions := transitions[(nodeId, letter) := nextNodeId];
        stack := stack + [(nodeId, letter, nextNodeId)];
        nodeId := nextNodeId;
      }
      nodes, edges, uncheckedNodes := arena[nodeId := true], transitions, stack;
      previousWord := word;
    }

    /** PackedDawgBuilder::insert_word: cuts the stack back to the common prefix with
        the previous word, then grows the branch for the rest of `word`. */
    method InsertWord(word: seq<char>)
      requires Valid()
      modifies this
      ensures Valid()
      ensures history.words == old(history.words) + [word] && previousWord == word
      ensures Lcp(word, old(previousWord)) <= |word| && Lcp(word, old(previousWord)) <= old(|uncheckedNodes|)
      ensures var k := Lcp(word, old(previousWord));
              var start := Top(old(uncheckedNodes)[..k]);
              var base := old(|nodes|);
              && nodes == Pad(old(nodes), |word| - k)[Src(start, base, |word| - k) := true]
              && edges == ChainEdges(old(edges), start, base, word, k, |word|)
              && uncheckedNodes == ChainStack(old(uncheckedNodes)[..k], start, base, word, k, |word|)
              && minimizedNodes == old(minimizedNodes) + Children(old(uncheckedNodes)[k..])
      ensures Sorted(history.words) ==> forall w :: Accepts(PackedDawg(nodes, edges), w) <==> w in history.words
    {
      var commonPrefix := CommonPrefix(word, previousWord);
      LcpCharacterised(word, previousWord, commonPrefix);
      ghost var start, base := Top(uncheckedNodes[..commonPrefix]), |nodes|;
      ghost var nodes' := Pad(nodes, |word| - commonPrefix)[Src(start, base, |word| - commonPrefix) := true];
      ghost var edges' := ChainEdges(edges, start, base, word, commonPrefix, |word|);
      ghost var stack' := ChainStack(uncheckedNodes[..commonPrefix], start, base, word, commonPrefix, |word|);
      ghost var labels' := ChainLabels(history.labels, word, commonPrefix, |word|);
      ghost var parent' := ChainParent(history.parent, start, base, commonPrefix, |word|);
      ghost var minimized' := minimizedNodes + Children(uncheckedNodes[commonPrefix..]);
      ghost var history' := History(history.words + [word], labels', parent');
      InsertKeepsState(previousWord, nodes, minimizedNodes, edges, uncheckedNodes, history, word, commonPrefix,
                       nodes', minimized', edges', stack', history');
      LinkedPrefix(uncheckedNodes, edges, commonPrefix);
      TopInBounds(nodes, edges, uncheckedNodes[..commonPrefix]);
      history := History(history.words + [word], labels', parent');
      Minimize(commonPrefix);
      assert uncheckedNodes == old(uncheckedNodes)[..commonPrefix] && nodes == old(nodes) && edges == old(edges);
      GrowBranch(word, commonPrefix);
      assert nodes == nodes' && edges == edges' && uncheckedNodes == stack' && minimizedNodes == minimized';
    }

    /** PackedDawgBuilder::finish: empties the stack and hands over the arena. */
    method Finish() returns (d: PackedDawg)
      requires Valid()
      modifies this
      ensures d == PackedDawg(nodes, edges)
      ensures nodes == old(nodes) && edges == old(edges) && history.words == old(history.words)
      ensures uncheckedNodes == [] && minimizedNodes == old(minimizedNodes) + Children(old(uncheckedNodes))
      ensures Dawg.Valid(d)
      ensures Sorted(history.words) ==> forall w :: Accepts(d, w) <==> w in history.words
    {
      if Sorted(history.words) {
        TrieAccepts(nodes, edges, history.labels, history.parent, history.words, previousWord, uncheckedNodes);
      }
      Minimize(0);
      assert old(uncheckedNodes)[0..] == old(uncheckedNodes);
      d := PackedDawg(nodes, edges);
    }
  }

  lemma TakeSnoc(words: seq<seq<char>>, i: nat)
    requires i < |words|
    ensures words[..i + 1] == words[..i] + [words[i]]
  {
  }

  /** PackedDawg::from_words: inserts the words one by one and finishes. When the list
      is sorted the index stores exactly its words, and every prefix of a stored word
      can be walked. */
  method FromWords(words: seq<seq<char>>) returns (d: PackedDawg)
    ensures Dawg.Valid(d)
    ensures Sorted(words) ==> forall w :: Accepts(d, w) <==> w in words
    ensures Sorted(words) ==> forall w, i :: w in words && 0 <= i <= |w| ==> Reach(d.edges, w[..i]).Some?
  {
    var builder := new PackedDawgBuilder();
    for i := 0 to |words|
      invariant fresh(builder)
      invariant builder.Valid() && builder.history.words == words[..i]
    {
      builder.InsertWord(words[i]);
      TakeSnoc(words, i);
    }
    assert words[..|words|] == words;
    d := builder.Finish();
    if Sorted(words) {
      forall w, i | w in words && 0 <= i <= |w|
        ensures Reach(d.edges, w[..i]).Some?
      {
        ReachPrefix(d.edges, w, i);
      }
    }
  }
}
