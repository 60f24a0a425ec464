/** The solver state of main.cpp: the candidates that can still be the secret, and a second
    list of words worth guessing, scored against letter counts taken from the candidates. */
module TwoPool {
  import opened Types
  import opened Admission
  import opened Popularity

  /** The letters of a word, over its whole length. */
  function Letters(w: Word): set<char> {
    set i | 0 <= i < |w| :: w[i]
  }

  /** The letters of every word of a list. */
  function LettersOfAll(ws: seq<Word>): set<char> {
    if ws == [] then {} else LettersOfAll(ws[..|ws| - 1]) + Letters(ws[|ws| - 1])
  }

  /** Number of positions of w holding a letter of the set. */
  function MemberCount(w: Word, charSet: set<char>): nat {
    if w == [] then 0
    else MemberCount(w[..|w| - 1], charSet) + (if w[|w| - 1] in charSet then 1 else 0)
  }

  /** What `guessableWord` accepts: at least two positions hold a letter of the set. */
  predicate Guessable(w: Word, charSet: set<char>) {
    MemberCount(w, charSet) >= 2
  }

  /** `guessableWord`, stopping as soon as the second hit is seen. */
  method GuessableWord(w: Word, charSet: set<char>) returns (b: bool)
    ensures b == Guessable(w, charSet)
  {
    var count := 0;
    for i := 0 to |w|
      invariant count == MemberCount(w[..i], charSet) && count < 2
    {
      assert w[..i + 1][..i] == w[..i];
      if w[i] in charSet {
        count := count + 1;
      }
      if count >= 2 {
        assert MemberCount(w[..i + 1], charSet) >= 2;
        MemberCountPrefix(w, i + 1, charSet);
        return true;
      }
    }
    assert w[..|w|] == w;
    return false;
  }

  /** Hits in a prefix are hits in the word. */
  lemma {:induction false} MemberCountPrefix(w: Word, n: nat, charSet: set<char>)
    requires n <= |w|
    ensures MemberCount(w[..n], charSet) <= MemberCount(w, charSet)
    decreases |w|
  {
    if n < |w| {
      assert w[..|w| - 1][..n] == w[..n];
      MemberCountPrefix(w[..|w| - 1], n, charSet);
    } else {
      assert w[..n] == w;
    }
  }

  /** A word is guessable exactly when two distinct positions hold letters of the set. */
  lemma {:induction false} GuessableIffTwoPositions(w: Word, charSet: set<char>)
    ensures Guessable(w, charSet) <==>
      exists i, j :: 0 <= i < j < |w| && w[i] in charSet && w[j] in charSet
    decreases |w|
  {
    if w != [] {
      var init := w[..|w| - 1];
      GuessableIffTwoPositions(init, charSet);
      MemberCountOne(init, charSet);
      if Guessable(w, charSet) && !Guessable(init, charSet) {
        var i :| 0 <= i < |init| && init[i] in charSet;
        assert w[i] in charSet && w[|w| - 1] in charSet;
      }
      if exists i, j :: 0 <= i < j < |w| && w[i] in charSet && w[j] in charSet {
        var i, j :| 0 <= i < j < |w| && w[i] in charSet && w[j] in charSet;
        if j < |w| - 1 {
          assert init[i] in charSet && init[j] in charSet;
        } else {
          assert init[i] in charSet;
        }
      }
    }
  }

  /** One hit is a position holding a letter of the set. */
  lemma {:induction false} MemberCountOne(w: Word, charSet: set<char>)
    ensures MemberCount(w, charSet) >= 1 <==> exists i :: 0 <= i < |w| && w[i] in charSet
    decreases |w|
  {
    if w != [] {
      var init := w[..|w| - 1];
      MemberCountOne(init, charSet);
      if exists i :: 0 <= i < |w| && w[i] in charSet {
        var i :| 0 <= i < |w| && w[i] in charSet;
        if i < |w| - 1 {
          assert init[i] in charSet;
        }
      }
      if exists i :: 0 <= i < |init| && init[i] in charSet {
        var i :| 0 <= i < |init| && init[i] in charSet;
        assert w[i] in charSet;
      }
    }
  }

  /** A larger set never gives fewer hits. */
  lemma {:induction false} MemberCountMonotone(w: Word, small: set<char>, large: set<char>)
    requires small <= large
    ensures MemberCount(w, small) <= MemberCount(w, large)
    decreases |w|
  {
    if w != [] {
      MemberCountMonotone(w[..|w| - 1], small, large);
    }
  }

  /** The second loop of `ween`: a word is kept when guessable against the set, and a kept
      word's letters join the set before the next word is examined. */
  function Pruned(ws: seq<Word>, charSet: set<char>): (r: seq<Word>)
    ensures forall w :: w in r ==> w in ws
    decreases |ws|
  {
    if ws == [] then []
    else if Guessable(ws[0], charSet) then [ws[0]] + Pruned(ws[1..], charSet + Letters(ws[0]))
    else Pruned(ws[1..], charSet)
  }

  /** Lower bound: a word guessable against the starting set is kept. */
  lemma {:induction false} PrunedKeepsGuessable(ws: seq<Word>, charSet: set<char>, w: Word)
    requires w in ws && Guessable(w, charSet)
    ensures w in Pruned(ws, charSet)
    decreases |ws|
  {
    if ws[0] != w {
      assert w in ws[1..];
      if Guessable(ws[0], charSet) {
        MemberCountMonotone(w, charSet, charSet + Letters(ws[0]));
        PrunedKeepsGuessable(ws[1..], charSet + Letters(ws[0]), w);
      } else {
        PrunedKeepsGuessable(ws[1..], charSet, w);
      }
    }
  }

  /** Upper bound: a kept word is guessable against the starting set plus every letter of the
      list. */
  lemma {:induction false} PrunedMembersGuessable(ws: seq<Word>, charSet: set<char>, w: Word)
    requires w in Pruned(ws, charSet)
    ensures Guessable(w, charSet + LettersOfAll(ws))
    decreases |ws|
  {
    LettersOfAllFront(ws);
    if Guessable(ws[0], charSet) && w == ws[0] {
      MemberCountMonotone(w, charSet, charSet + LettersOfAll(ws));
    } else if Guessable(ws[0], charSet) {
      PrunedMembersGuessable(ws[1..], charSet + Letters(ws[0]), w);
      assert charSet + Letters(ws[0]) + LettersOfAll(ws[1..]) == charSet + LettersOfAll(ws);
    } else {
      PrunedMembersGuessable(ws[1..], charSet, w);
      MemberCountMonotone(w, charSet + LettersOfAll(ws[1..]), charSet + LettersOfAll(ws));
    }
  }

  /** The letters of a list, peeled from the front. */
  lemma {:induction false} LettersOfAllFront(ws: seq<Word>)
    requires ws != []
    ensures LettersOfAll(ws) == Letters(ws[0]) + LettersOfAll(ws[1..])
    decreases |ws|
  {
    if |ws| > 1 {
      var init := ws[..|ws| - 1];
      LettersOfAllFront(init);
      assert init[0] == ws[0] && init[1..] == ws[1..][..|ws[1..]| - 1];
    } else {
      assert ws[1..] == [];
    }
  }

  lemma {:induction false} PrunedIsSubsequence(ws: seq<Word>, charSet: set<char>)
    ensures IsSubsequence(Pruned(ws, charSet), ws)
    decreases |ws|
  {
    if ws != [] {
      if Guessable(ws[0], charSet) {
        PrunedIsSubsequence(ws[1..], charSet + Letters(ws[0]));
        var r := Pruned(ws, charSet);
        assert r[0] == ws[0] && r[1..] == Pruned(ws[1..], charSet + Letters(ws[0]));
      } else {
        PrunedIsSubsequence(ws[1..], charSet);
        SubsequenceCons(Pruned(ws[1..], charSet), ws[0], ws[1..]);
        assert [ws[0]] + ws[1..] == ws;
      }
    }
  }

  /** With no candidate letters nothing is guessable and the set never grows, so every word
      is dropped. */
  lemma {:induction false} PrunedByNothing(ws: seq<Word>)
    ensures Pruned(ws, {}) == []
    decreases |ws|
  {
    if ws != [] {
      assert MemberCount(ws[0], {}) == 0 by {
        MemberCountOne(ws[0], {});
      }
      PrunedByNothing(ws[1..]);
    }
  }

  /** The pass is order-dependent: a word examined before the word that would have made it
      guessable is dropped for good. */
  lemma PruningDependsOnOrder()
    ensures Pruned(["aqyzw", "abqqq"], {'a', 'b'}) == ["abqqq"]
    ensures Guessable("aqyzw", {'a', 'b', 'q'})
    ensures Pruned(["abqqq", "aqyzw"], {'a', 'b'}) == ["abqqq", "aqyzw"]
  {
    var first: Word := "aqyzw";
    var second: Word := "abqqq";
    assert !Guessable(first, {'a', 'b'}) by {
      GuessableIffTwoPositions(first, {'a', 'b'});
      assert forall i :: 1 <= i < 5 ==> first[i] !in {'a', 'b'};
    }
    assert MemberCount(second, {'a', 'b'}) >= 2 by {
      GuessableIffTwoPositions(second, {'a', 'b'});
      assert second[0] in {'a', 'b'} && second[1] in {'a', 'b'};
    }
    assert Letters(second) == {'a', 'b', 'q'} by {
      assert second[0] == 'a' && second[1] == 'b' && second[2] == 'q';
    }
    assert Guessable(first, {'a', 'b', 'q'}) by {
      GuessableIffTwoPositions(first, {'a', 'b', 'q'});
      assert first[0] in {'a', 'b', 'q'} && first[1] in {'a', 'b', 'q'};
    }
    assert ["aqyzw", "abqqq"][1..] == [second];
    assert ["abqqq", "aqyzw"][1..] == [first];
    assert {'a', 'b'} + Letters(second) == {'a', 'b', 'q'};
  }

  /** Keeping the word at i adds its letters to those of the prefix. */
  lemma LettersOfAllSnoc(ws: seq<Word>, i: nat, letters: set<char>)
    requires i < |ws| && letters == LettersOfAll(ws[..i])
    ensures letters + Letters(ws[i]) == LettersOfAll(ws[..i + 1])
  {
    assert ws[..i + 1][..i] == ws[..i];
  }

  /** Erasing the word at i leaves the letters of the prefix before i as they were. */
  lemma LettersOfAllErase(ws: seq<Word>, i: nat, letters: set<char>)
    requires i < |ws| && letters == LettersOfAll(ws[..i])
    ensures letters == LettersOfAll((ws[..i] + ws[i + 1..])[..i])
  {
    assert (ws[..i] + ws[i + 1..])[..i] == ws[..i];
  }

  class Knowledge {
    var words: seq<Word>
    var totalWords: seq<Word>
    var popularity: map<char, int>
    var positionPopularity: map<char, seq<int>>

    /** Every word of both lists has the five positions the engine reads. */
    predicate Valid()
      reads this
    {
      AllIndexable(words) && AllIndexable(totalWords)
    }

    /** The letter counts describe the current candidates. */
    predicate Tallied()
      reads this
      requires Valid()
    {
      (forall c :: Get(popularity, c) == Occurrences(words, c))
      && (forall c, i :: 0 <= i < 5 ==> At(positionPopularity, c, i) == AtPosition(words, c, i))
    }

    constructor()
      ensures words == [] && totalWords == [] && popularity == map[] && positionPopularity == map[]
    {
      words, totalWords, popularity, positionPopularity := [], [], map[], map[];
    }

    /** The copy `iterationCount` receives, its parameter being passed by value. */
    constructor Copy(other: Knowledge)
      ensures words == other.words && totalWords == other.totalWords
      ensures popularity == other.popularity && positionPopularity == other.positionPopularity
    {
      words, totalWords := other.words, other.totalWords;
      popularity, positionPopularity := other.popularity, other.positionPopularity;
    }

    /** `load`: both lists become the dictionary's words. */
    method Load(ws: seq<Word>)
      modifies this
      ensures words == ws && totalWords == ws
      ensures popularity == old(popularity) && positionPopularity == old(positionPopularity)
    {
      words := ws;
      totalWords := ws;
    }

    /** `wordCount`: the number of remaining candidates. */
    method WordCount() returns (n: nat)
      ensures n == |words|
    {
      n := |words|;
    }

    /** `ween`: unless one candidate is left, filters the candidates as Knowledge.h does, then
        keeps the guessable words, seeding the letter set with the letters of the surviving
        candidates. */
    method Ween(guess: Word, res: Result)
      requires Valid() && Indexable(guess)
      modifies this
      ensures Valid()
      ensures words == Weened(old(words), guess, res)
      ensures |old(words)| == 1 ==> totalWords == old(totalWords)
      ensures |old(words)| != 1 ==> totalWords == Pruned(old(totalWords), LettersOfAll(words))
      ensures popularity == old(popularity) && positionPopularity == old(positionPopularity)
    {
      if |words| == 1 {
        return;
      }
      var charSet := WeenCandidates(guess, res);
      PruneGuesses(charSet);
    }

    /** The first loop of `ween`; returns the letters of the kept candidates. */
    method WeenCandidates(guess: Word, res: Result) returns (charSet: set<char>)
      requires Valid() && Indexable(guess)
      modifies this
      ensures Valid()
      ensures words == Surviving(old(words), guess, res)
      ensures charSet == LettersOfAll(words)
      ensures totalWords == old(totalWords)
      ensures popularity == old(popularity) && positionPopularity == old(positionPopularity)
    {
      charSet := {};
      ghost var orig := words;
      var i := 0;
      ghost var k := 0;
      ScannedStart(orig, guess, res);
      while i < |words|
        invariant Scanned(words, i, orig, k, guess, res)
        invariant charSet == LettersOfAll(words[..i])
        invariant totalWords == old(totalWords)
        invariant popularity == old(popularity) && positionPopularity == old(positionPopularity)
        decreases |words| - i
      {
        ScannedAt(words, i, orig, k, guess, res);
        var word := words[i];
        var wordKept := KeepWord(word, guess, res);
        if !wordKept || word == guess {
          ScannedErase(words, i, orig, k, guess, res);
          LettersOfAllErase(words, i, charSet);
          words := words[..i] + words[i + 1..];
        } else {
          ScannedSkip(words, i, orig, k, guess, res);
          LettersOfAllSnoc(words, i, charSet);
          charSet := charSet + Letters(word);
          i := i + 1;
        }
        k := k + 1;
      }
      ScannedDone(words, i, orig, k, guess, res);
    }

    /** The second loop of `ween`. */
    method PruneGuesses(charSet0: set<char>)
      requires Valid()
      modifies this
      ensures Valid()
      ensures totalWords == Pruned(old(totalWords), charSet0)
      ensures words == old(words)
      ensures popularity == old(popularity) && positionPopularity == old(positionPopularity)
    {
      var charSet := charSet0;
      var i := 0;
      ghost var k := 0;
      while i < |totalWords|
        invariant 0 <= i <= |totalWords| && 0 <= k <= |old(totalWords)|
        invariant totalWords[i..] == old(totalWords)[k..]
        invariant totalWords[..i] + Pruned(old(totalWords)[k..], charSet) == Pruned(old(totalWords), charSet0)
        invariant forall w :: w in totalWords ==> w in old(totalWords)
        invariant words == old(words)
        invariant popularity == old(popularity) && positionPopularity == old(positionPopularity)
        decreases |totalWords| - i
      {
        var word := totalWords[i];
        var wordToGuess := GuessableWord(word, charSet);
        ghost var rest := old(totalWords)[k..];
        assert rest[0] == word && rest[1..] == old(totalWords)[k + 1..];
        if !wordToGuess {
          assert Pruned(rest, charSet) == Pruned(rest[1..], charSet);
          totalWords := totalWords[..i] + totalWords[i + 1..];
        } else {
          assert Pruned(rest, charSet) == [word] + Pruned(rest[1..], charSet + Letters(word));
          assert totalWords[..i + 1] == totalWords[..i] + [word];
          charSet := charSet + Letters(word);
          i := i + 1;
        }
        k := k + 1;
      }
      assert old(totalWords)[k..] == [];
      assert totalWords[..i] == totalWords;
      forall j | 0 <= j < |totalWords| ensures Indexable(totalWords[j]) {
        assert totalWords[j] in old(totalWords);
      }
    }

    /** `updatePopularity`: the counts are taken over the candidates only. */
    method UpdatePopularity()
      requires Valid()
      modifies this
      ensures words == old(words) && totalWords == old(totalWords)
      ensures Tallied()
      ensures forall c :: c in positionPopularity ==> |positionPopularity[c]| == 5
    {
      popularity, positionPopularity := Tally(words);
    }

    /** `generateGuess`: the first guessable word with the highest positive score, a letter's
        first occurrence weighing its full total; "" when none scores above 0. */
    method GenerateGuess(res: Result) returns (guess: Word)
      requires Valid()
      ensures IsChoice(totalWords, guess, popularity, positionPopularity, Full)
      ensures guess == [] || (guess in totalWords && Indexable(guess))
    {
      guess := PickGuess(totalWords, popularity, positionPopularity, Full);
    }
  }
}
