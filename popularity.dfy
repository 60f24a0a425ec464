/** Letter popularity over the candidate list (`updatePopularity`), the per-word score
    (`generateWordScore`) and the choice of the next guess (`generateGuess`). The two
    `Knowledge` variants run the same loops; they differ only in which list is scored and
    in the weighting of a letter's first occurrence. */
module Popularity {
  import opened Types

  /** `std::map<char, int>` read through `operator[]`: a missing letter reads as 0. */
  function Get(pop: map<char, int>, c: char): int {
    if c in pop then pop[c] else 0
  }

  /** `std::map<char, std::array<int, 5>>` read the same way. */
  function At(pp: map<char, seq<int>>, c: char, i: nat): int {
    if c in pp && i < |pp[c]| then pp[c][i] else 0
  }

  /** Number of positions below n of w that hold c. */
  function CountIn(w: Word, c: char, n: nat): nat
    requires n <= |w|
  {
    if n == 0 then 0 else CountIn(w, c, n - 1) + (if w[n - 1] == c then 1 else 0)
  }

  /** Occurrences of c at positions 0..4 over all words. */
  function Occurrences(ws: seq<Word>, c: char): nat
    requires AllIndexable(ws)
  {
    if ws == [] then 0
    else Occurrences(ws[..|ws| - 1], c) + CountIn(ws[|ws| - 1], c, 5)
  }

  /** Number of words holding c at position i. */
  function AtPosition(ws: seq<Word>, c: char, i: nat): nat
    requires AllIndexable(ws) && i < 5
  {
    if ws == [] then 0
    else AtPosition(ws[..|ws| - 1], c, i) + (if ws[|ws| - 1][i] == c then 1 else 0)
  }

  /** The counting loops of `updatePopularity`, starting from cleared maps. */
  method Tally(words: seq<Word>) returns (pop: map<char, int>, pp: map<char, seq<int>>)
    requires AllIndexable(words)
    ensures forall c :: Get(pop, c) == Occurrences(words, c)
    ensures forall c, i :: 0 <= i < 5 ==> At(pp, c, i) == AtPosition(words, c, i)
    ensures forall c :: c in pp ==> |pp[c]| == 5
  {
    pop, pp := map[], map[];
    for k := 0 to |words|
      invariant forall c :: Get(pop, c) == Occurrences(words[..k], c)
      invariant forall c, i :: 0 <= i < 5 ==> At(pp, c, i) == AtPosition(words[..k], c, i)
      invariant forall c :: c in pp ==> |pp[c]| == 5
    {
      TallyStep(words, k);
      pop, pp := CountWord(pop, pp, words[k]);
    }
    assert words[..|words|] == words;
  }

  /** The inner loop of `updatePopularity`: one word's letters added to the counts. */
  method CountWord(pop0: map<char, int>, pp0: map<char, seq<int>>, word: Word)
    returns (pop: map<char, int>, pp: map<char, seq<int>>)
    requires Indexable(word)
    requires forall c :: c in pp0 ==> |pp0[c]| == 5
    ensures forall c :: Get(pop, c) == Get(pop0, c) + CountIn(word, c, 5)
    ensures forall c, p :: 0 <= p < 5 ==> At(pp, c, p) == At(pp0, c, p) + (if word[p] == c then 1 else 0)
    ensures forall c :: c in pp ==> |pp[c]| == 5
  {
    pop, pp := pop0, pp0;
    for i := 0 to 5
      invariant forall c :: Get(pop, c) == Get(pop0, c) + CountIn(word, c, i)
      invariant forall c, p :: 0 <= p < 5 ==>
        At(pp, c, p) == At(pp0, c, p) + (if p < i && word[p] == c then 1 else 0)
      invariant forall c :: c in pp ==> |pp[c]| == 5
    {
      var c := word[i];
      pop := pop[c := Get(pop, c) + 1];
      var row := if c in pp then pp[c] else [0, 0, 0, 0, 0];
      pp := pp[c := row[i := row[i] + 1]];
    }
  }

  /** Adding word k to the counted prefix. */
  lemma TallyStep(words: seq<Word>, k: nat)
    requires AllIndexable(words) && k < |words|
    ensures forall c :: Occurrences(words[..k + 1], c) == Occurrences(words[..k], c) + CountIn(words[k], c, 5)
    ensures forall c, p :: 0 <= p < 5 ==>
      AtPosition(words[..k + 1], c, p) == AtPosition(words[..k], c, p) + (if words[k][p] == c then 1 else 0)
  {
    assert words[..k + 1][..k] == words[..k];
  }

  /** Summing the per-position counts of a letter gives its total count. */
  lemma {:induction false} PositionsSumToTotal(ws: seq<Word>, c: char)
    requires AllIndexable(ws)
    ensures AtPosition(ws, c, 0) + AtPosition(ws, c, 1) + AtPosition(ws, c, 2)
          + AtPosition(ws, c, 3) + AtPosition(ws, c, 4) == Occurrences(ws, c)
    decreases |ws|
  {
    if ws != [] {
      PositionsSumToTotal(ws[..|ws| - 1], c);
      CountInFive(ws[|ws| - 1], c);
    }
  }

  lemma CountInFive(w: Word, c: char)
    requires Indexable(w)
    ensures CountIn(w, c, 5) == (if w[0] == c then 1 else 0) + (if w[1] == c then 1 else 0)
      + (if w[2] == c then 1 else 0) + (if w[3] == c then 1 else 0) + (if w[4] == c then 1 else 0)
  {
    assert CountIn(w, c, 1) == (if w[0] == c then 1 else 0);
    assert CountIn(w, c, 2) == CountIn(w, c, 1) + (if w[1] == c then 1 else 0);
    assert CountIn(w, c, 4) == CountIn(w, c, 2) + (if w[2] == c then 1 else 0) + (if w[3] == c then 1 else 0);
  }

  /** Sum of the letter totals over the letters of an alphabet. */
  function SumOver(ws: seq<Word>, alphabet: seq<char>): int
    requires AllIndexable(ws)
  {
    if alphabet == [] then 0
    else SumOver(ws, alphabet[..|alphabet| - 1]) + Occurrences(ws, alphabet[|alphabet| - 1])
  }

  /** Sum over an alphabet of the counts of its letters among the first n positions of w. */
  function SumCounts(w: Word, alphabet: seq<char>, n: nat): int
    requires n <= |w|
  {
    if alphabet == [] then 0
    else SumCounts(w, alphabet[..|alphabet| - 1], n) + CountIn(w, alphabet[|alphabet| - 1], n)
  }

  /** How many entries of the alphabet equal x. */
  function Multiplicity(alphabet: seq<char>, x: char): nat {
    if alphabet == [] then 0
    else Multiplicity(alphabet[..|alphabet| - 1], x) + (if alphabet[|alphabet| - 1] == x then 1 else 0)
  }

  lemma {:induction false} MultiplicityDistinct(alphabet: seq<char>, x: char)
    requires Distinct(alphabet)
    requires x in alphabet
    ensures Multiplicity(alphabet, x) == 1
    decreases |alphabet|
  {
    var init := alphabet[..|alphabet| - 1];
    if alphabet[|alphabet| - 1] == x {
      MultiplicityAbsent(init, x);
    } else {
      assert x in init;
      MultiplicityDistinct(init, x);
    }
  }

  lemma {:induction false} MultiplicityAbsent(alphabet: seq<char>, x: char)
    requires x !in alphabet
    ensures Multiplicity(alphabet, x) == 0
    decreases |alphabet|
  {
    if alphabet != [] {
      MultiplicityAbsent(alphabet[..|alphabet| - 1], x);
    }
  }

  lemma {:induction false} SumCountsStep(w: Word, alphabet: seq<char>, n: nat)
    requires 0 < n <= |w|
    ensures SumCounts(w, alphabet, n) == SumCounts(w, alphabet, n - 1) + Multiplicity(alphabet, w[n - 1])
    decreases |alphabet|
  {
    if alphabet != [] {
      SumCountsStep(w, alphabet[..|alphabet| - 1], n);
    }
  }

  lemma {:induction false} SumCountsAll(w: Word, alphabet: seq<char>, n: nat)
    requires n <= 5 <= |w|
    requires Distinct(alphabet)
    requires forall i :: 0 <= i < 5 ==> w[i] in alphabet
    ensures SumCounts(w, alphabet, n) == n
    decreases n
  {
    if n == 0 {
      SumCountsZero(w, alphabet);
    } else {
      SumCountsAll(w, alphabet, n - 1);
      SumCountsStep(w, alphabet, n);
      MultiplicityDistinct(alphabet, w[n - 1]);
    }
  }

  lemma {:induction false} SumCountsZero(w: Word, alphabet: seq<char>)
    ensures SumCounts(w, alphabet, 0) == 0
    decreases |alphabet|
  {
    if alphabet != [] {
      SumCountsZero(w, alphabet[..|alphabet| - 1]);
    }
  }

  lemma {:induction false} SumOverStep(ws: seq<Word>, alphabet: seq<char>)
    requires AllIndexable(ws) && ws != []
    ensures SumOver(ws, alphabet) == SumOver(ws[..|ws| - 1], alphabet) + SumCounts(ws[|ws| - 1], alphabet, 5)
    decreases |alphabet|
  {
    if alphabet != [] {
      SumOverStep(ws, alphabet[..|alphabet| - 1]);
    }
  }

  lemma {:induction false} SumOverEmpty(alphabet: seq<char>)
    ensures SumOver([], alphabet) == 0
    decreases |alphabet|
  {
    if alphabet != [] {
      SumOverEmpty(alphabet[..|alphabet| - 1]);
    }
  }

  /** Over any alphabet listing each letter once and covering every letter of the candidates,
      the letter totals add up to five per candidate. */
  lemma {:induction false} TotalsSumToFivePerWord(ws: seq<Word>, alphabet: seq<char>)
    requires AllIndexable(ws)
    requires Distinct(alphabet)
    requires forall k, i :: 0 <= k < |ws| && 0 <= i < 5 ==> ws[k][i] in alphabet
    ensures SumOver(ws, alphabet) == 5 * |ws|
    decreases |ws|
  {
    if ws == [] {
      SumOverEmpty(alphabet);
    } else {
      var init := ws[..|ws| - 1];
      TotalsSumToFivePerWord(init, alphabet);
      SumOverStep(ws, alphabet);
      SumCountsAll(ws[|ws| - 1], alphabet, 5);
    }
  }

  /** How the first occurrence of a letter is weighted. */
  datatype Weighting =
    | Reduced(poolSize: int)  // Knowledge.h: a total above the pool size loses the pool size
    | Full                    // main.cpp: the full total

  function FirstWeight(p: int, wt: Weighting): int {
    match wt
    case Full => p
    case Reduced(n) => if p > n then p - n else p
  }

  /** The weight of position i: 1 for a letter seen earlier in the word, else its weighted total. */
  function Weight(word: Word, i: nat, pop: map<char, int>, wt: Weighting): int
    requires i < 5 <= |word|
  {
    if word[i] in word[..i] then 1 else FirstWeight(Get(pop, word[i]), wt)
  }

  function ScoreUpTo(word: Word, n: nat, pop: map<char, int>, pp: map<char, seq<int>>, wt: Weighting): int
    requires n <= 5 <= |word|
  {
    if n == 0 then 0
    else ScoreUpTo(word, n - 1, pop, pp, wt) + Weight(word, n - 1, pop, wt) * At(pp, word[n - 1], n - 1)
  }

  /** The score of a word: its weights times the position counts, summed over positions 0..4. */
  function Score(word: Word, pop: map<char, int>, pp: map<char, seq<int>>, wt: Weighting): int
    requires Indexable(word)
  {
    ScoreUpTo(word, 5, pop, pp, wt)
  }

  /** `generateWordScore`, keeping the letters seen so far in a set. */
  method WordScore(word: Word, pop: map<char, int>, pp: map<char, seq<int>>, wt: Weighting) returns (score: int)
    requires Indexable(word)
    ensures score == Score(word, pop, pp, wt)
  {
    score := 0;
    var chars: set<char> := {};
    for i := 0 to 5
      invariant chars == set k | 0 <= k < i :: word[k]
      invariant score == ScoreUpTo(word, i, pop, pp, wt)
    {
      var c := word[i];
      assert c in chars <==> c in word[..i];
      var charsWeightedPop := if c in chars then 1 else FirstWeight(Get(pop, c), wt);
      chars := chars + {c};
      score := score + charsWeightedPop * At(pp, c, i);
    }
  }

  /** Position k of the pool holds the first highest score, and that score is positive. */
  predicate FirstBest(pool: seq<Word>, k: nat, pop: map<char, int>, pp: map<char, seq<int>>, wt: Weighting)
    requires AllIndexable(pool) && k < |pool|
  {
    Score(pool[k], pop, pp, wt) > 0
    && (forall j :: 0 <= j < k ==> Score(pool[j], pop, pp, wt) < Score(pool[k], pop, pp, wt))
    && (forall j :: k < j < |pool| ==> Score(pool[j], pop, pp, wt) <= Score(pool[k], pop, pp, wt))
  }

  /** What `generateGuess` may return: "" when no word scores above 0, otherwise the first
      word with the highest score. */
  predicate IsChoice(pool: seq<Word>, guess: Word, pop: map<char, int>, pp: map<char, seq<int>>, wt: Weighting)
    requires AllIndexable(pool)
  {
    (guess == [] <==> forall j :: 0 <= j < |pool| ==> Score(pool[j], pop, pp, wt) <= 0)
    && (guess != [] ==> exists k :: 0 <= k < |pool| && guess == pool[k] && FirstBest(pool, k, pop, pp, wt))
  }

  /** The running maximum of `generateGuess` over a pool of words. */
  method PickGuess(pool: seq<Word>, pop: map<char, int>, pp: map<char, seq<int>>, wt: Weighting) returns (guess: Word)
    requires AllIndexable(pool)
    ensures IsChoice(pool, guess, pop, pp, wt)
  {
    var maxScore := 0;
    guess := [];
    ghost var best := -1;
    for k := 0 to |pool|
      invariant -1 <= best < k
      invariant guess == [] <==> best == -1
      invariant best == -1 ==> maxScore == 0 && forall j :: 0 <= j < k ==> Score(pool[j], pop, pp, wt) <= 0
      invariant best != -1 ==> guess == pool[best] && maxScore == Score(pool[best], pop, pp, wt) > 0
      invariant best != -1 ==> forall j :: 0 <= j < best ==> Score(pool[j], pop, pp, wt) < maxScore
      invariant best != -1 ==> forall j :: best < j < k ==> Score(pool[j], pop, pp, wt) <= maxScore
    {
      var currScore := WordScore(pool[k], pop, pp, wt);
      if currScore > maxScore {
        maxScore := currScore;
        guess := pool[k];
        best := k;
      }
    }
    if best != -1 {
      assert FirstBest(pool, best, pop, pp, wt);
    }
  }

  /** The choice is determined: two results meeting the description are the same word. */
  lemma ChoiceUnique(pool: seq<Word>, g1: Word, g2: Word, pop: map<char, int>, pp: map<char, seq<int>>, wt: Weighting)
    requires AllIndexable(pool)
    requires IsChoice(pool, g1, pop, pp, wt) && IsChoice(pool, g2, pop, pp, wt)
    ensures g1 == g2
  {
    if g1 != [] && g2 != [] {
      var k1 :| 0 <= k1 < |pool| && g1 == pool[k1] && FirstBest(pool, k1, pop, pp, wt);
      var k2 :| 0 <= k2 < |pool| && g2 == pool[k2] && FirstBest(pool, k2, pop, pp, wt);
      assert k1 == k2;
    }
  }

  lemma {:induction false} OccursCounted(ws: seq<Word>, k: nat, i: nat)
    requires AllIndexable(ws) && k < |ws| && i < 5
    ensures Occurrences(ws, ws[k][i]) >= 1 && AtPosition(ws, ws[k][i], i) >= 1
    decreases |ws|
  {
    var last := |ws| - 1;
    if k == last {
      CountInPositive(ws[k], ws[k][i], i, 5);
    } else {
      OccursCounted(ws[..last], k, i);
    }
  }

  lemma {:induction false} CountInPositive(w: Word, c: char, i: nat, n: nat)
    requires i < n <= |w| && w[i] == c
    ensures CountIn(w, c, n) >= 1
    decreases n
  {
    if i < n - 1 {
      CountInPositive(w, c, i, n - 1);
    }
  }

  lemma {:induction false} ScoreUpToBound(word: Word, n: nat, pop: map<char, int>, pp: map<char, seq<int>>, wt: Weighting)
    requires n <= 5 <= |word|
    requires forall i :: 0 <= i < 5 ==> Weight(word, i, pop, wt) >= 1 && At(pp, word[i], i) >= 1
    ensures ScoreUpTo(word, n, pop, pp, wt) >= n
    decreases n
  {
    if n > 0 {
      ScoreUpToBound(word, n - 1, pop, pp, wt);
      var w, a := Weight(word, n - 1, pop, wt), At(pp, word[n - 1], n - 1);
      assert w * a >= 1 by {
        assert w * a == (w - 1) * a + a;
        assert (w - 1) * a >= 0;
      }
    }
  }

  /** With counts taken from the candidates and a non-negative pool size, every candidate
      scores at least 5. */
  lemma CandidateScoresPositive(ws: seq<Word>, k: nat, pop: map<char, int>, pp: map<char, seq<int>>, wt: Weighting)
    requires AllIndexable(ws) && k < |ws|
    requires forall c :: Get(pop, c) == Occurrences(ws, c)
    requires forall c, i :: 0 <= i < 5 ==> At(pp, c, i) == AtPosition(ws, c, i)
    requires wt.Reduced? ==> wt.poolSize >= 0
    ensures Score(ws[k], pop, pp, wt) >= 5
  {
    var w := ws[k];
    forall i | 0 <= i < 5 ensures Weight(w, i, pop, wt) >= 1 && At(pp, w[i], i) >= 1 {
      OccursCounted(ws, k, i);
    }
    ScoreUpToBound(w, 5, pop, pp, wt);
  }

  /** Choosing among the very words the counts were taken from never comes back empty-handed
      while a word remains: the choice is one of them. */
  lemma TalliedChoiceIsCandidate(ws: seq<Word>, guess: Word, pop: map<char, int>, pp: map<char, seq<int>>, wt: Weighting)
    requires AllIndexable(ws) && ws != []
    requires forall c :: Get(pop, c) == Occurrences(ws, c)
    requires forall c, i :: 0 <= i < 5 ==> At(pp, c, i) == AtPosition(ws, c, i)
    requires wt.Reduced? ==> wt.poolSize >= 0
    requires IsChoice(ws, guess, pop, pp, wt)
    ensures guess != [] && guess in ws
  {
    CandidateScoresPositive(ws, 0, pop, pp, wt);
    var k :| 0 <= k < |ws| && guess == ws[k] && FirstBest(ws, k, pop, pp, wt);
  }
}
