/** The feedback evaluator `checkWithSecret`: exact matches first, then misplaced letters
    claiming unused secret positions from left to right. */
module Evaluator {
  import opened Types
  import opened ResultCodec

  /** The codes assigned so far and the secret positions already consumed (`usedIndexes`). */
  datatype Marking = Marking(res: Result, used: seq<int>)

  /** State after the first pass has looked at positions 0..n-1. */
  function ExactPass(guess: Word, secret: Word, n: nat): (m: Marking)
    requires Indexable(guess) && Indexable(secret) && n <= 5
    ensures forall i :: 0 <= i < 5 ==> (m.res[i] == 2 <==> i < n && guess[i] == secret[i])
    ensures forall i :: 0 <= i < 5 ==> m.res[i] == 0 || m.res[i] == 2
    ensures forall j :: j in m.used <==> 0 <= j < n && guess[j] == secret[j]
    ensures Distinct(m.used)
    decreases n
  {
    if n == 0 then Marking(Blank, [])
    else
      var m := ExactPass(guess, secret, n - 1);
      if guess[n - 1] == secret[n - 1] then Marking(m.res[n - 1 := 2], m.used + [n - 1]) else m
  }

  /** The lowest secret position at or after j that holds c and is not yet consumed, or 5 when none does. */
  function FirstUnused(c: char, secret: Word, used: seq<int>, j: nat): (k: nat)
    requires Indexable(secret) && j <= 5
    ensures j <= k <= 5
    ensures k < 5 ==> secret[k] == c && k !in used
    ensures forall m :: j <= m < k ==> secret[m] != c || m in used
    decreases 5 - j
  {
    if j == 5 then 5
    else if secret[j] == c && j !in used then j
    else FirstUnused(c, secret, used, j + 1)
  }

  /** State after the second pass has looked at positions 0..n-1. */
  function MisplacedPass(guess: Word, secret: Word, n: nat): Marking
    requires Indexable(guess) && Indexable(secret) && n <= 5
    decreases n
  {
    if n == 0 then ExactPass(guess, secret, 5)
    else
      var m := MisplacedPass(guess, secret, n - 1);
      var i := n - 1;
      if m.res[i] == 2 then m
      else
        var k := FirstUnused(guess[i], secret, m.used, 0);
        if k < 5 then Marking(m.res[i := 1], m.used + [k]) else m
  }

  /** The feedback for `guess` when the hidden word is `secret`. */
  function Feedback(guess: Word, secret: Word): Result
    requires Indexable(guess) && Indexable(secret)
  {
    MisplacedPass(guess, secret, 5).res
  }

  /** `checkWithSecret` (the same code in Result.h and main.cpp). */
  method CheckWithSecret(guess: Word, secret: Word) returns (res: Result)
    requires Indexable(guess) && Indexable(secret)
    ensures res == Feedback(guess, secret)
  {
    res := [0, 0, 0, 0, 0];
    var usedIndexes: seq<int> := [];
    for i := 0 to 5
      invariant Marking(res, usedIndexes) == ExactPass(guess, secret, i)
    {
      var g := guess[i];
      if g == secret[i] {
        res := res[i := 2];
        usedIndexes := usedIndexes + [i];
      }
    }
    for i := 0 to 5
      invariant Marking(res, usedIndexes) == MisplacedPass(guess, secret, i)
    {
      var g := guess[i];
      if res[i] != 2 {
        ghost var k := FirstUnused(g, secret, usedIndexes, 0);
        for j := 0 to 5
          invariant j <= k
          invariant Marking(res, usedIndexes) == MisplacedPass(guess, secret, i)
        {
          var s := secret[j];
          var indexIsUsed := j in usedIndexes;
          if !indexIsUsed && g == s {
            assert j == k;
            res := res[i := 1];
            usedIndexes := usedIndexes + [j];
            assert Marking(res, usedIndexes) == MisplacedPass(guess, secret, i + 1);
            break;
          }
        }
      }
    }
  }

  /** The codes the second pass keeps: all in 0..2, 2 exactly at agreeing positions,
      and no 1 yet at positions it has not reached. */
  lemma {:induction false} MisplacedCodes(guess: Word, secret: Word, n: nat)
    requires Indexable(guess) && Indexable(secret) && n <= 5
    ensures InRange(MisplacedPass(guess, secret, n).res)
    ensures forall i :: 0 <= i < 5 ==> (MisplacedPass(guess, secret, n).res[i] == 2 <==> guess[i] == secret[i])
    ensures forall i :: n <= i < 5 ==> MisplacedPass(guess, secret, n).res[i] != 1
    decreases n
  {
    if n > 0 {
      MisplacedCodes(guess, secret, n - 1);
      var m := MisplacedPass(guess, secret, n - 1);
      var i := n - 1;
      if m.res[i] != 2 {
        var k := FirstUnused(guess[i], secret, m.used, 0);
        if k < 5 {
          var r := m.res[i := 1];
          assert MisplacedPass(guess, secret, n).res == r;
          assert forall x :: 0 <= x < 5 && x != i ==> r[x] == m.res[x];
        }
      }
    }
  }

  /** The consumed positions the second pass keeps: in 0..4, every agreeing position, no repeats. */
  lemma {:induction false} MisplacedUsed(guess: Word, secret: Word, n: nat)
    requires Indexable(guess) && Indexable(secret) && n <= 5
    ensures forall j :: j in MisplacedPass(guess, secret, n).used ==> 0 <= j < 5
    ensures forall j :: 0 <= j < 5 && guess[j] == secret[j] ==> j in MisplacedPass(guess, secret, n).used
    ensures Distinct(MisplacedPass(guess, secret, n).used)
    decreases n
  {
    if n > 0 {
      MisplacedUsed(guess, secret, n - 1);
      var m := MisplacedPass(guess, secret, n - 1);
      var i := n - 1;
      if m.res[i] != 2 {
        var k := FirstUnused(guess[i], secret, m.used, 0);
        if k < 5 {
          var u := m.used + [k];
          assert MisplacedPass(guess, secret, n).used == u;
          assert forall j :: j in u ==> j in m.used || j == k;
          assert forall a :: 0 <= a < |m.used| ==> u[a] == m.used[a] != k;
        }
      }
    }
  }

  lemma MisplacedFacts(guess: Word, secret: Word, n: nat)
    requires Indexable(guess) && Indexable(secret) && n <= 5
    ensures var m := MisplacedPass(guess, secret, n);
      InRange(m.res)
      && (forall i :: 0 <= i < 5 ==> (m.res[i] == 2 <==> guess[i] == secret[i]))
      && (forall i :: n <= i < 5 ==> m.res[i] != 1)
      && (forall j :: j in m.used ==> 0 <= j < 5)
      && (forall j :: 0 <= j < 5 && guess[j] == secret[j] ==> j in m.used)
      && Distinct(m.used)
  {
    MisplacedCodes(guess, secret, n);
    MisplacedUsed(guess, secret, n);
  }

  /** Later steps of the second pass never revisit an earlier position. */
  lemma {:induction false} MisplacedStable(guess: Word, secret: Word, n: nat, n': nat)
    requires Indexable(guess) && Indexable(secret) && n <= n' <= 5
    ensures forall i :: 0 <= i < n ==> MisplacedPass(guess, secret, n').res[i] == MisplacedPass(guess, secret, n).res[i]
    decreases n' - n
  {
    if n < n' {
      MisplacedStable(guess, secret, n, n' - 1);
    }
  }

  /** Every code is 0, 1 or 2. */
  lemma FeedbackInRange(guess: Word, secret: Word)
    requires Indexable(guess) && Indexable(secret)
    ensures InRange(Feedback(guess, secret))
  {
    MisplacedFacts(guess, secret, 5);
  }

  /** A position is coded 2 exactly when guess and secret agree there. */
  lemma FeedbackExact(guess: Word, secret: Word)
    requires Indexable(guess) && Indexable(secret)
    ensures forall i :: 0 <= i < 5 ==> (Feedback(guess, secret)[i] == 2 <==> guess[i] == secret[i])
  {
    MisplacedFacts(guess, secret, 5);
  }

  /** Guessing the secret itself yields all exact codes. */
  lemma FeedbackSelf(secret: Word)
    requires Indexable(secret)
    ensures Feedback(secret, secret) == [2, 2, 2, 2, 2]
  {
    FeedbackExact(secret, secret);
    var r := Feedback(secret, secret);
    assert forall i :: 0 <= i < 5 ==> r[i] == 2;
  }

  /** The session ends after a guess exactly when the guess agrees with the secret on positions 0..4. */
  lemma FeedbackComplete(guess: Word, secret: Word)
    requires Indexable(guess) && Indexable(secret)
    ensures Complete(Feedback(guess, secret)) <==> guess[..5] == secret[..5]
  {
    FeedbackInRange(guess, secret);
    FeedbackExact(guess, secret);
    var r := Feedback(guess, secret);
    if Complete(r) {
      assert forall i :: 0 <= i < 5 ==> r[i] == 2;
      assert forall i :: 0 <= i < 5 ==> guess[..5][i] == secret[..5][i];
    }
    if guess[..5] == secret[..5] {
      assert forall i :: 0 <= i < 5 ==> guess[i] == guess[..5][i] == secret[..5][i] == secret[i];
    }
  }

  /** The consumed secret positions never repeat and all lie in 0..4. */
  lemma FeedbackClaimsDistinct(guess: Word, secret: Word)
    requires Indexable(guess) && Indexable(secret)
    ensures var used := MisplacedPass(guess, secret, 5).used;
      Distinct(used) && |used| <= 5 && forall j :: j in used ==> 0 <= j < 5
  {
    MisplacedFacts(guess, secret, 5);
    var used := MisplacedPass(guess, secret, 5).used;
    DistinctBounded(used);
  }

  /** A repetition-free list of positions below 5 has at most five entries. */
  lemma DistinctBounded(xs: seq<int>)
    requires Distinct(xs) && forall j :: j in xs ==> 0 <= j < 5
    ensures |xs| <= 5
  {
    var s := set j | j in xs;
    forall j | j in s ensures j in {0, 1, 2, 3, 4} {
      assert 0 <= j < 5;
    }
    SubsetCard(s, {0, 1, 2, 3, 4});
    DistinctCard(xs);
  }

  lemma SubsetCard(a: set<int>, b: set<int>)
    requires a <= b
    ensures |a| <= |b|
  {
    assert b == a + (b - a);
  }

  lemma {:induction false} DistinctCard(xs: seq<int>)
    requires Distinct(xs)
    ensures |set j | j in xs| == |xs|
  {
    if xs != [] {
      var last := xs[|xs| - 1];
      var init := xs[..|xs| - 1];
      DistinctCard(init);
      assert (set j | j in xs) == (set j | j in init) + {last};
      assert last !in init;
    }
  }

  /** A non-exact position i is coded 1 exactly when, once positions 0..i-1 are processed,
      some secret position holding guess[i] is still unconsumed; the lowest such is consumed. */
  lemma FeedbackMisplaced(guess: Word, secret: Word, i: nat)
    requires Indexable(guess) && Indexable(secret) && i < 5 && guess[i] != secret[i]
    ensures var before := MisplacedPass(guess, secret, i).used;
      (Feedback(guess, secret)[i] == 1 <==> exists j :: 0 <= j < 5 && secret[j] == guess[i] && j !in before)
      && (Feedback(guess, secret)[i] == 1 ==>
            MisplacedPass(guess, secret, i + 1).used == before + [FirstUnused(guess[i], secret, before, 0)])
  {
    MisplacedFacts(guess, secret, i);
    MisplacedStable(guess, secret, i + 1, 5);
    var before := MisplacedPass(guess, secret, i).used;
    var k := FirstUnused(guess[i], secret, before, 0);
    if k == 5 {
      assert forall j :: 0 <= j < 5 ==> secret[j] != guess[i] || j in before;
    }
  }

  /** Positions of guess holding c that were marked 1 or 2. */
  function MarkedFor(guess: Word, res: Result, c: char): set<int>
    requires Indexable(guess)
  {
    set i | 0 <= i < 5 && guess[i] == c && res[i] != 0
  }

  /** Consumed secret positions holding c. */
  function ClaimedFor(secret: Word, used: seq<int>, c: char): set<int>
    requires Indexable(secret)
  {
    set j | 0 <= j < 5 && j in used && secret[j] == c
  }

  /** Positions of the secret holding c. */
  function OccurrencesOf(secret: Word, c: char): set<int>
    requires Indexable(secret)
  {
    set j | 0 <= j < 5 && secret[j] == c
  }

  lemma LetterBalanceStart(guess: Word, secret: Word, c: char)
    requires Indexable(guess) && Indexable(secret)
    ensures var m := ExactPass(guess, secret, 5);
      MarkedFor(guess, m.res, c) == ClaimedFor(secret, m.used, c)
  {
  }

  /** One step of the second pass marks a position for c exactly when it consumes a fresh position holding c. */
  lemma LetterBalanceStep(guess: Word, secret: Word, c: char, n: nat)
    requires Indexable(guess) && Indexable(secret) && 0 < n <= 5
    requires |MarkedFor(guess, MisplacedPass(guess, secret, n - 1).res, c)|
          == |ClaimedFor(secret, MisplacedPass(guess, secret, n - 1).used, c)|
    ensures |MarkedFor(guess, MisplacedPass(guess, secret, n).res, c)|
         == |ClaimedFor(secret, MisplacedPass(guess, secret, n).used, c)|
  {
    MisplacedCodes(guess, secret, n - 1);
    var m := MisplacedPass(guess, secret, n - 1);
    var i := n - 1;
    if m.res[i] != 2 {
      var k := FirstUnused(guess[i], secret, m.used, 0);
      if k < 5 {
        assert MisplacedPass(guess, secret, n) == Marking(m.res[i := 1], m.used + [k]);
        MarkOne(guess, m.res, i, c);
        ClaimOne(secret, m.used, k, c);
      }
    }
  }

  lemma MarkOne(guess: Word, res: Result, i: nat, c: char)
    requires Indexable(guess) && i < 5 && res[i] == 0
    ensures MarkedFor(guess, res[i := 1], c)
         == if guess[i] == c then MarkedFor(guess, res, c) + {i} else MarkedFor(guess, res, c)
    ensures i !in MarkedFor(guess, res, c)
  {
  }

  lemma ClaimOne(secret: Word, used: seq<int>, k: nat, c: char)
    requires Indexable(secret) && k < 5 && k !in used
    ensures ClaimedFor(secret, used + [k], c)
         == if secret[k] == c then ClaimedFor(secret, used, c) + {k} else ClaimedFor(secret, used, c)
    ensures k !in ClaimedFor(secret, used, c)
  {
  }

  /** Each marked guess position for letter c is paid for by one consumed secret position holding c. */
  lemma {:induction false} LetterBalance(guess: Word, secret: Word, c: char, n: nat)
    requires Indexable(guess) && Indexable(secret) && n <= 5
    ensures var m := MisplacedPass(guess, secret, n);
      |MarkedFor(guess, m.res, c)| == |ClaimedFor(secret, m.used, c)|
    decreases n
  {
    if n == 0 {
      LetterBalanceStart(guess, secret, c);
    } else {
      LetterBalance(guess, secret, c, n - 1);
      LetterBalanceStep(guess, secret, c, n);
    }
  }

  /** No letter is marked present or exact more often than it occurs in the secret. */
  lemma LetterBound(guess: Word, secret: Word, c: char)
    requires Indexable(guess) && Indexable(secret)
    ensures |MarkedFor(guess, Feedback(guess, secret), c)| <= |OccurrencesOf(secret, c)|
  {
    LetterBalance(guess, secret, c, 5);
    var m := MisplacedPass(guess, secret, 5);
    SubsetCard(ClaimedFor(secret, m.used, c), OccurrencesOf(secret, c));
  }
}
