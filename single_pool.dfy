/** The solver state of Knowledge.h: one list of candidate words, which is both filtered
    after each feedback and scored to pick the next guess. */
module SinglePool {
  import opened Types
  import opened Admission
  import opened Popularity

  class Knowledge {
    var words: seq<Word>
    var popularity: map<char, int>
    var positionPopularity: map<char, seq<int>>

    /** Every candidate has the five positions the engine reads. */
    predicate Valid()
      reads this
    {
      AllIndexable(words)
    }

    /** The letter counts describe the current candidates. */
    predicate Tallied()
      reads this
      requires Valid()
    {
      (forall c :: Get(popularity, c) == Occurrences(words, c))
      && (forall c, i :: 0 <= i < 5 ==> At(positionPopularity, c, i) == AtPosition(words, c, i))
    }

    constructor()
      ensures words == [] && popularity == map[] && positionPopularity == map[]
    {
      words, popularity, positionPopularity := [], map[], map[];
    }

    /** `load`: the candidates become a copy of the given list. */
    method Load(ws: seq<Word>)
      modifies this
      ensures words == ws
      ensures popularity == old(popularity) && positionPopularity == old(positionPopularity)
    {
      words := ws;
    }

    /** `wordCount`. */
    method WordCount() returns (n: nat)
      ensures n == |words|
    {
      n := |words|;
    }

    /** `ween`: erases, in place and in order, every candidate the feedback rules out and the
        guess itself, unless a single candidate is left. */
    method Ween(guess: Word, res: Result)
      requires Valid() && Indexable(guess)
      modifies this
      ensures Valid()
      ensures words == Weened(old(words), guess, res)
      ensures popularity == old(popularity) && positionPopularity == old(positionPopularity)
    {
      if |words| == 1 {
        return;
      }
      ghost var orig := words;
      var i := 0;
      ghost var k := 0;
      ScannedStart(orig, guess, res);
      while i < |words|
        invariant Scanned(words, i, orig, k, guess, res)
        invariant popularity == old(popularity) && positionPopularity == old(positionPopularity)
        decreases |words| - i
      {
        ScannedAt(words, i, orig, k, guess, res);
        var word := words[i];
        var wordKept := KeepWord(word, guess, res);
        if !wordKept || word == guess {
          ScannedErase(words, i, orig, k, guess, res);
          words := words[..i] + words[i + 1..];
        } else {
          ScannedSkip(words, i, orig, k, guess, res);
          i := i + 1;
        }
        k := k + 1;
      }
      ScannedDone(words, i, orig, k, guess, res);
    }

    /** `updatePopularity`: recounts, over the candidates, each letter's occurrences and its
        occurrences at each position. */
    method UpdatePopularity()
      requires Valid()
      modifies this
      ensures words == old(words)
      ensures Tallied()
      ensures forall c :: c in positionPopularity ==> |positionPopularity[c]| == 5
    {
      popularity, positionPopularity := Tally(words);
    }

    /** `generateGuess`: the first candidate with the highest positive score, the first
        occurrence of a letter counting its total less the number of candidates when the total
        exceeds it; "" when no candidate scores above 0. The feedback argument is not used. */
    method GenerateGuess(res: Result) returns (guess: Word)
      requires Valid()
      ensures IsChoice(words, guess, popularity, positionPopularity, Reduced(|words|))
      ensures Tallied() && words != [] ==> guess != [] && guess in words
    {
      guess := PickGuess(words, popularity, positionPopularity, Reduced(|words|));
      if Tallied() && words != [] {
        TalliedChoiceIsCandidate(words, guess, popularity, positionPopularity, Reduced(|words|));
      }
    }
  }
}
