/** The library's own scenarios, over the dictionary apple, banana, cherry: every
    word is found, every prefix can be walked, and the fuzzy searches return the
    expected matches. */
module DawgScenarios {
  import opened Levenshtein
  import opened Dawg
  import opened DawgBuilder

  const Dictionary: seq<seq<char>> := ["apple", "banana", "cherry"]

  lemma DictionarySorted()
    ensures Sorted(Dictionary)
  {
    assert LexLe("apple", "banana");
    assert LexLe("banana", "cherry");
  }

  /** The index built from the dictionary stores exactly its three words. */
  method Build() returns (d: PackedDawg)
    ensures Dawg.Valid(d)
    ensures forall w :: Accepts(d, w) <==> w == "apple" || w == "banana" || w == "cherry"
    ensures forall w, i :: w in Dictionary && 0 <= i <= |w| ==> Reach(d.edges, w[..i]).Some?
  {
    DictionarySorted();
    d := FromWords(Dictionary);
  }

  /** The three words are reportable by a search over 'a'..'z'. */
  lemma WordsOverLetters()
    ensures AllLetters("apple") && AllLetters("banana") && AllLetters("cherry")
  {
  }

  /** The first two entries of a result list without repeated words are different
      words. */
  lemma FirstTwoDiffer(results: seq<Match>)
    ensures NoRepeats(results) && |results| >= 2 ==> results[0].0 != results[1].0
  {
  }

  /** A result list without repeated words, all of whose entries are `m`, is `[m]`. */
  lemma SingleResult(results: seq<Match>, m: Match)
    requires NoRepeats(results) && m in results
    requires forall i :: 0 <= i < |results| ==> results[i] == m
    ensures results == [m]
  {
    FirstTwoDiffer(results);
    assert |results| <= 1;
  }

  /** Every word is found, and so is no proper prefix of one (src/lib.rs's has_word
      test, plus the prefixes that are not stored). */
  method StoredWords() returns (apple: bool, banana: bool, cherry: bool, app: bool)
    ensures apple && banana && cherry && !app
  {
    var d := Build();
    apple := HasWord(d, "apple");
    banana := HasWord(d, "banana");
    cherry := HasWord(d, "cherry");
    app := HasWord(d, "app");
  }

  /** Every prefix of a stored word, the empty one included, can be walked. */
  method PrefixLookups() returns (r: seq<Option<nat>>)
    ensures |r| == 4 && forall i :: 0 <= i < |r| ==> r[i].Some?
  {
    var d := Build();
    assert "apple"[..0] == [] && "apple"[..3] == "app" && "banana"[..4] == "bana" && "cherry"[..5] == "cherr";
    var empty := Lookup(d, []);
    var app := Lookup(d, "app");
    var bana := Lookup(d, "bana");
    var cherr := Lookup(d, "cherr");
    r := [empty, app, bana, cherr];
  }

  /** search("cherry", 0): the word itself and nothing else. */
  method ExactSearch() returns (results: seq<Match>)
    ensures results == [("cherry", 0)]
  {
    var d := Build();
    results := Search(d, "cherry", 0);
    LevSelf("cherry");
    WordsOverLetters();
    assert Reportable(d, "cherry", 0, "cherry");
    forall i | 0 <= i < |results|
      ensures results[i] == ("cherry", 0)
    {
      LevZeroIffEqual(results[i].0, "cherry");
    }
    SingleResult(results, ("cherry", 0));
  }

  /** The distances from the three words to the queries "appl" and "app": apple is
      one and two deletions away, the other two words are longer by at least two and
      three letters. */
  lemma PrefixDistances()
    ensures Lev("apple", "appl") == 1 && Lev("banana", "appl") >= 2 && Lev("cherry", "appl") >= 2
    ensures Lev("apple", "app") == 2 && Lev("banana", "app") >= 3 && Lev("cherry", "app") >= 3
  {
    assert "apple"[..4] == "appl" && "apple"[..3] == "app";
    LevDropSuffix("apple", 4);
    LevDropSuffix("apple", 3);
    LevLengthBound("banana", "appl");
    LevLengthBound("cherry", "appl");
    LevLengthBound("banana", "app");
    LevLengthBound("cherry", "app");
  }

  /** search("appl", 1): apple, one deletion away; banana and cherry are too long. */
  method OneEditSearch() returns (results: seq<Match>)
    ensures results == [("apple", 1)]
  {
    var d := Build();
    results := Search(d, "appl", 1);
    PrefixDistances();
    WordsOverLetters();
    assert Reportable(d, "appl", 1, "apple");
    forall i | 0 <= i < |results|
      ensures results[i] == ("apple", 1)
    {
      var w := results[i].0;
      assert Reportable(d, "appl", 1, w);
      assert w == "apple" || w == "banana" || w == "cherry";
    }
    SingleResult(results, ("apple", 1));
  }

  /** search("app", 2): apple, two deletions away. */
  method TwoEditSearch() returns (results: seq<Match>)
    ensures results == [("apple", 2)]
  {
    var d := Build();
    results := Search(d, "app", 2);
    PrefixDistances();
    WordsOverLetters();
    assert Reportable(d, "app", 2, "apple");
    forall i | 0 <= i < |results|
      ensures results[i] == ("apple", 2)
    {
      var w := results[i].0;
      assert Reportable(d, "app", 2, w);
      assert w == "apple" || w == "banana" || w == "cherry";
    }
    SingleResult(results, ("apple", 2));
  }

  /** The distances from the three words to the one-letter query "a". */
  lemma OneLetterDistances()
    ensures Lev("apple", "a") == 4 && Lev("banana", "a") == 5 && Lev("cherry", "a") == 6
  {
    LevSingleLetter("apple", 'a');
    LevSingleLetter("banana", 'a');
    LevSingleLetter("cherry", 'a');
    assert 'a' !in "cherry";
  }

  /** search("a", 6): all three words, once each; ordered by distance they are
      apple (4), banana (5), cherry (6). */
  method WideSearch() returns (results: seq<Match>)
    ensures |results| == 3
    ensures forall m :: m in results <==> m == ("apple", 4) || m == ("banana", 5) || m == ("cherry", 6)
  {
    var d := Build();
    results := Search(d, "a", 6);
    OneLetterDistances();
    WordsOverLetters();
    assert Reportable(d, "a", 6, "apple");
    assert Reportable(d, "a", 6, "banana");
    assert Reportable(d, "a", 6, "cherry");
    ThreeResults(results, ("apple", 4), ("banana", 5), ("cherry", 6));
  }

  /** A result list without repeated words that holds three matches with distinct
      words, and nothing else, holds each of them once. */
  lemma ThreeResults(results: seq<Match>, a: Match, b: Match, c: Match)
    requires a.0 != b.0 && b.0 != c.0 && a.0 != c.0
    requires NoRepeats(results) && a in results && b in results && c in results
    requires forall i :: 0 <= i < |results| ==> results[i] == a || results[i] == b || results[i] == c
    ensures |results| == 3
  {
    var i :| 0 <= i < |results| && results[i] == a;
    var j :| 0 <= j < |results| && results[j] == b;
    var k :| 0 <= k < |results| && results[k] == c;
    assert |results| >= 3;
    FirstFourRepeat(results, a, b, c);
  }

  /** Four entries drawn from three matches repeat one. */
  lemma FirstFourRepeat(results: seq<Match>, a: Match, b: Match, c: Match)
    ensures ((forall i :: 0 <= i < |results| ==> results[i] == a || results[i] == b || results[i] == c) &&
             |results| >= 4) ==> !NoRepeats(results)
  {
    if |results| >= 4 && forall i :: 0 <= i < |results| ==> results[i] == a || results[i] == b || results[i] == c {
      var x0, x1, x2, x3 := results[0], results[1], results[2], results[3];
      assert x0 == a || x0 == b || x0 == c;
      assert x1 == a || x1 == b || x1 == c;
      assert x2 == a || x2 == b || x2 == c;
      assert x3 == a || x3 == b || x3 == c;
    }
  }
}
