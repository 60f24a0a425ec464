/** The per-candidate admission test `keepWord` and the filtering it drives in `ween`.
    Both `Knowledge` variants (Knowledge.h and main.cpp) carry the same code. */
module Admission {
  import opened Types
  import opened Evaluator

  /** `keepWord` copies each code into a `char` before comparing it with 0, 1 or 2;
      the comparison sees only the low eight bits. */
  function Narrow(code: int): int {
    code % 256
  }

  /** The codes the evaluator produces survive the narrowing unchanged. */
  lemma NarrowCode(code: int)
    requires 0 <= code <= 2
    ensures Narrow(code) == code
  {
  }

  /** Position j may be claimed for a misplaced letter g: the word has g there, the guess does not,
      the position is not exact and no earlier misplaced letter claimed it. */
  predicate Claimable(word: Word, guess: Word, res: Result, g: char, claimed: set<int>, j: nat)
    requires Indexable(word) && Indexable(guess) && j < 5
  {
    guess[j] != g && Narrow(res[j]) != 2 && word[j] == g && j !in claimed
  }

  /** The lowest claimable position at or after j, or 5 when there is none. */
  function FirstClaimable(word: Word, guess: Word, res: Result, g: char, claimed: set<int>, j: nat): (k: nat)
    requires Indexable(word) && Indexable(guess) && j <= 5
    ensures j <= k <= 5
    ensures k < 5 ==> Claimable(word, guess, res, g, claimed, k)
    ensures forall m :: j <= m < k ==> !Claimable(word, guess, res, g, claimed, m)
    decreases 5 - j
  {
    if j == 5 then 5
    else if Claimable(word, guess, res, g, claimed, j) then j
    else FirstClaimable(word, guess, res, g, claimed, j + 1)
  }

  /** What a code-1 position i does: the position it claims, or None when the word is rejected.
      A claim below i ends the scan before position i is examined, so the test
      "the word repeats the guess letter at i" only applies when no such claim exists. */
  function PresentClaim(word: Word, guess: Word, res: Result, i: nat, claimed: set<int>): Option<nat>
    requires Indexable(word) && Indexable(guess) && i < 5
  {
    var k := FirstClaimable(word, guess, res, guess[i], claimed, 0);
    if k < i then Some(k)
    else if word[i] == guess[i] then None
    else if k < 5 then Some(k)
    else None
  }

  /** A code-0 letter g rejects the word when the word holds g at a position that is neither
      exact nor claimed. */
  predicate AbsentBlocked(word: Word, res: Result, g: char, claimed: set<int>)
    requires Indexable(word)
  {
    exists j :: 0 <= j < 5 && Narrow(res[j]) != 2 && j !in claimed && word[j] == g
  }

  /** The admission test from position i on, with the positions already claimed. */
  predicate KeepFrom(word: Word, guess: Word, res: Result, i: nat, claimed: set<int>)
    requires Indexable(word) && Indexable(guess) && i <= 5
    decreases 5 - i
  {
    if i == 5 then true
    else
      var r, g := Narrow(res[i]), guess[i];
      if r == 0 then
        !AbsentBlocked(word, res, g, claimed) && KeepFrom(word, guess, res, i + 1, claimed)
      else if r == 1 then
        match PresentClaim(word, guess, res, i, claimed)
        case None => false
        case Some(k) => KeepFrom(word, guess, res, i + 1, claimed + {k})
      else if r == 2 then
        word[i] == g && KeepFrom(word, guess, res, i + 1, claimed)
      else
        KeepFrom(word, guess, res, i + 1, claimed)
  }

  /** `keepWord(word, guess, res)`. */
  predicate Keep(word: Word, guess: Word, res: Result)
    requires Indexable(word) && Indexable(guess)
  {
    KeepFrom(word, guess, res, 0, {})
  }

  /** `keepWord`, with its scratch map `oneIndexLocations` (its keys are the claimed positions). */
  method KeepWord(word: Word, guess: Word, res: Result) returns (kept: bool)
    requires Indexable(word) && Indexable(guess)
    ensures kept == Keep(word, guess, res)
  {
    var oneIndexLocations: map<int, char> := map[];
    assert oneIndexLocations.Keys == {};
    for i := 0 to 5
      invariant Keep(word, guess, res) == KeepFrom(word, guess, res, i, oneIndexLocations.Keys)
    {
      ghost var claimed := oneIndexLocations.Keys;
      var r := Narrow(res[i]);
      var g := guess[i];
      if r == 0 {
        var blocked := ScanAbsent(word, res, g, oneIndexLocations);
        if blocked {
          assert !KeepFrom(word, guess, res, i, claimed);
          return false;
        }
        assert KeepFrom(word, guess, res, i, claimed) == KeepFrom(word, guess, res, i + 1, claimed);
      } else if r == 1 {
        var found;
        found, oneIndexLocations := ScanPresent(word, guess, res, i, oneIndexLocations);
        if !found {
          assert !KeepFrom(word, guess, res, i, claimed);
          return false;
        }
        assert KeepFrom(word, guess, res, i, claimed) == KeepFrom(word, guess, res, i + 1, oneIndexLocations.Keys);
      } else if r == 2 {
        if word[i] != g {
          assert !KeepFrom(word, guess, res, i, claimed);
          return false;
        }
        assert KeepFrom(word, guess, res, i, claimed) == KeepFrom(word, guess, res, i + 1, claimed);
      } else {
        assert KeepFrom(word, guess, res, i, claimed) == KeepFrom(word, guess, res, i + 1, claimed);
      }
    }
    return true;
  }

  /** The inner loop of `keepWord` for a code-0 position (Knowledge.h:91-97). */
  method ScanAbsent(word: Word, res: Result, g: char, oneIndexLocations: map<int, char>) returns (blocked: bool)
    requires Indexable(word)
    ensures blocked == AbsentBlocked(word, res, g, oneIndexLocations.Keys)
  {
    for j := 0 to 5
      invariant forall m :: 0 <= m < j ==> !(Narrow(res[m]) != 2 && m !in oneIndexLocations && word[m] == g)
    {
      var w := word[j];
      var rc := Narrow(res[j]);
      if rc != 2 && j !in oneIndexLocations && w == g {
        return true;
      }
    }
    return false;
  }

  /** The inner loop of `keepWord` for a code-1 position i (Knowledge.h:101-115): whether a
      position was claimed, and the scratch map afterwards. */
  method ScanPresent(word: Word, guess: Word, res: Result, i: nat, oneIndexLocations: map<int, char>)
    returns (found: bool, claims: map<int, char>)
    requires Indexable(word) && Indexable(guess) && i < 5
    ensures found == PresentClaim(word, guess, res, i, oneIndexLocations.Keys).Some?
    ensures found ==> claims.Keys == oneIndexLocations.Keys + {PresentClaim(word, guess, res, i, oneIndexLocations.Keys).value}
  {
    var g := guess[i];
    found := false;
    claims := oneIndexLocations;
    ghost var k := FirstClaimable(word, guess, res, g, oneIndexLocations.Keys, 0);
    for j := 0 to 5
      invariant !found ==> j <= k && claims == oneIndexLocations
      invariant found ==> i < k < j && claims == oneIndexLocations[k := word[k]]
      invariant j > i ==> word[i] != g
    {
      var w := word[j];
      var rc := Narrow(res[j]);
      var gc := guess[j];
      if gc == w && i == j {
        return false, claims;
      } else if !found && gc != g && rc != 2 && w == g && j !in claims {
        claims := claims[j := w];
        found := true;
      }
      if i >= j && found {
        assert k < i;
        break;
      }
    }
  }

  /** The positions claimed before position i is examined. */
  function ClaimsBefore(word: Word, guess: Word, res: Result, i: nat): set<int>
    requires Indexable(word) && Indexable(guess) && i <= 5
    decreases i
  {
    if i == 0 then {}
    else
      var c := ClaimsBefore(word, guess, res, i - 1);
      if Narrow(res[i - 1]) == 1 then
        match PresentClaim(word, guess, res, i - 1, c)
        case Some(k) => c + {k}
        case None => c
      else c
  }

  /** The requirement one position places on the word, given the positions claimed before it. */
  predicate PositionOk(word: Word, guess: Word, res: Result, i: nat, claimed: set<int>)
    requires Indexable(word) && Indexable(guess) && i < 5
  {
    var r := Narrow(res[i]);
    (r == 0 ==> !AbsentBlocked(word, res, guess[i], claimed))
    && (r == 1 ==> PresentClaim(word, guess, res, i, claimed).Some?)
    && (r == 2 ==> word[i] == guess[i])
  }

  lemma {:induction false} KeepFromIff(word: Word, guess: Word, res: Result, i: nat)
    requires Indexable(word) && Indexable(guess) && i <= 5
    ensures KeepFrom(word, guess, res, i, ClaimsBefore(word, guess, res, i))
        <==> forall m :: i <= m < 5 ==> PositionOk(word, guess, res, m, ClaimsBefore(word, guess, res, m))
    decreases 5 - i
  {
    if i < 5 {
      KeepFromIff(word, guess, res, i + 1);
      KeepFromStep(word, guess, res, i);
    }
  }

  /** The test from position i is that position's requirement followed by the test from i + 1. */
  lemma KeepFromStep(word: Word, guess: Word, res: Result, i: nat)
    requires Indexable(word) && Indexable(guess) && i < 5
    ensures KeepFrom(word, guess, res, i, ClaimsBefore(word, guess, res, i))
        <==> PositionOk(word, guess, res, i, ClaimsBefore(word, guess, res, i))
             && KeepFrom(word, guess, res, i + 1, ClaimsBefore(word, guess, res, i + 1))
  {
    var c := ClaimsBefore(word, guess, res, i);
    assert ClaimsBefore(word, guess, res, i + 1)
        == if Narrow(res[i]) == 1 && PresentClaim(word, guess, res, i, c).Some?
           then c + {PresentClaim(word, guess, res, i, c).value} else c;
  }

  /** The admission test holds exactly when every position's requirement holds. */
  lemma KeepIff(word: Word, guess: Word, res: Result)
    requires Indexable(word) && Indexable(guess)
    ensures Keep(word, guess, res)
        <==> forall i :: 0 <= i < 5 ==> PositionOk(word, guess, res, i, ClaimsBefore(word, guess, res, i))
  {
    KeepFromIff(word, guess, res, 0);
  }

  /** A single failing position rejects the word. */
  lemma RejectedAt(word: Word, guess: Word, res: Result, i: nat)
    requires Indexable(word) && Indexable(guess) && i < 5
    requires !PositionOk(word, guess, res, i, ClaimsBefore(word, guess, res, i))
    ensures !Keep(word, guess, res)
  {
    KeepIff(word, guess, res);
  }

  /** An exact code rejects every word with a different letter at that position. */
  lemma ExactMismatchRejected(word: Word, guess: Word, res: Result, i: nat)
    requires Indexable(word) && Indexable(guess) && i < 5
    requires Narrow(res[i]) == 2 && word[i] != guess[i]
    ensures !Keep(word, guess, res)
  {
    assert !PositionOk(word, guess, res, i, ClaimsBefore(word, guess, res, i));
    RejectedAt(word, guess, res, i);
  }

  /** An absent code rejects a word holding that letter at a position that is neither exact
      nor claimed by an earlier misplaced code. */
  lemma AbsentLetterRejected(word: Word, guess: Word, res: Result, i: nat, j: nat)
    requires Indexable(word) && Indexable(guess) && i < 5 && j < 5
    requires Narrow(res[i]) == 0 && Narrow(res[j]) != 2 && word[j] == guess[i]
    requires j !in ClaimsBefore(word, guess, res, i)
    ensures !Keep(word, guess, res)
  {
    assert !PositionOk(word, guess, res, i, ClaimsBefore(word, guess, res, i));
    RejectedAt(word, guess, res, i);
  }

  /** A misplaced code rejects a word that offers no claimable position for the letter. */
  lemma PresentLetterMissingRejected(word: Word, guess: Word, res: Result, i: nat)
    requires Indexable(word) && Indexable(guess) && i < 5 && Narrow(res[i]) == 1
    requires forall j :: 0 <= j < 5 ==> !Claimable(word, guess, res, guess[i], ClaimsBefore(word, guess, res, i), j)
    ensures !Keep(word, guess, res)
  {
    var c := ClaimsBefore(word, guess, res, i);
    var k := FirstClaimable(word, guess, res, guess[i], c, 0);
    assert k == 5;
    assert PresentClaim(word, guess, res, i, c) == None;
    assert !PositionOk(word, guess, res, i, c);
    RejectedAt(word, guess, res, i);
  }

  /** A misplaced code at i rejects a word repeating the guess letter at i, unless a claimable
      position lies below i: then the scan stops there and the word passes this position. */
  lemma PresentSameSpot(word: Word, guess: Word, res: Result, i: nat, claimed: set<int>)
    requires Indexable(word) && Indexable(guess) && i < 5 && word[i] == guess[i]
    ensures PresentClaim(word, guess, res, i, claimed).Some?
        <==> exists j :: 0 <= j < i && Claimable(word, guess, res, guess[i], claimed, j)
  {
    var k := FirstClaimable(word, guess, res, guess[i], claimed, 0);
    if k < i {
      assert Claimable(word, guess, res, guess[i], claimed, k);
    }
  }

  /** The candidate "aaqqq" survives guess "xaqqq" with feedback 0 1 2 2 2 although it repeats
      the misplaced letter a at position 1, which no secret producing that feedback can do. */
  lemma SameSpotAdmitted()
    ensures Keep("aaqqq", "xaqqq", [0, 1, 2, 2, 2])
    ensures Feedback("xaqqq", "aaqqq") == [0, 2, 2, 2, 2]
  {
    var w, g: Word := "aaqqq", "xaqqq";
    var r: Result := [0, 1, 2, 2, 2];
    assert !AbsentBlocked(w, r, 'x', {});
    assert FirstClaimable(w, g, r, 'a', {}, 0) == 0;
    assert PresentClaim(w, g, r, 1, {}) == Some(0);
    assert KeepFrom(w, g, r, 2, {0});
    SameSpotFeedback();
  }

  /** The true feedback for "xaqqq" against "aaqqq". */
  lemma SameSpotFeedback()
    ensures Feedback("xaqqq", "aaqqq") == [0, 2, 2, 2, 2]
  {
    var w, g: Word := "aaqqq", "xaqqq";
    FeedbackExact(g, w);
    FeedbackInRange(g, w);
    var f := Feedback(g, w);
    assert f[0] != 2 && f[1] == 2;
    assert f[0] == 0 by {
      LetterBound(g, w, 'x');
      assert OccurrencesOf(w, 'x') == {};
      assert 0 !in MarkedFor(g, f, 'x');
    }
  }

  /** The correspondence between the evaluator's consumed positions and the test's claimed ones
      when the word tested is the secret itself. */
  predicate Mirrors(guess: Word, secret: Word, n: nat, claimed: set<int>)
    requires Indexable(guess) && Indexable(secret) && n <= 5
  {
    var used := MisplacedPass(guess, secret, n).used;
    var r := Feedback(guess, secret);
    (forall j :: 0 <= j < 5 ==> (j in used <==> r[j] == 2 || j in claimed))
    && (forall j :: j in claimed ==> 0 <= j < 5)
  }

  /** Facts about a code vector r and a consumed list used that mirror the claims made by the
      admission test, stated without reference to how r and used were computed. */
  predicate MirrorsOf(guess: Word, secret: Word, r: Result, used: seq<int>, claimed: set<int>)
    requires Indexable(guess) && Indexable(secret)
  {
    InRange(r)
    && (forall j :: 0 <= j < 5 ==> (r[j] == 2 <==> guess[j] == secret[j]))
    && (forall j :: 0 <= j < 5 ==> (j in used <==> r[j] == 2 || j in claimed))
  }

  lemma ClaimableIffUnused(guess: Word, secret: Word, r: Result, used: seq<int>, i: nat, claimed: set<int>)
    requires Indexable(guess) && Indexable(secret) && i < 5
    requires MirrorsOf(guess, secret, r, used, claimed)
    ensures forall j :: 0 <= j < 5 ==>
      (Claimable(secret, guess, r, guess[i], claimed, j) <==> (secret[j] == guess[i] && j !in used))
  {
    forall j | 0 <= j < 5
      ensures Claimable(secret, guess, r, guess[i], claimed, j) <==> (secret[j] == guess[i] && j !in used)
    {
      assert Narrow(r[j]) == r[j];
    }
  }

  /** When the tested word is the secret, the positions the test may claim for guess[i] are
      exactly the ones the evaluator may still consume, so both pick the same lowest one. */
  lemma ClaimMatchesConsume(guess: Word, secret: Word, r: Result, used: seq<int>, i: nat, claimed: set<int>)
    requires Indexable(guess) && Indexable(secret) && i < 5
    requires MirrorsOf(guess, secret, r, used, claimed)
    ensures FirstClaimable(secret, guess, r, guess[i], claimed, 0) == FirstUnused(guess[i], secret, used, 0)
  {
    ClaimableIffUnused(guess, secret, r, used, i, claimed);
  }

  /** With no unconsumed position holding guess[i], nothing blocks a code-0 letter. */
  lemma NothingBlocks(guess: Word, secret: Word, r: Result, used: seq<int>, i: nat, claimed: set<int>)
    requires Indexable(guess) && Indexable(secret) && i < 5
    requires MirrorsOf(guess, secret, r, used, claimed)
    requires forall j :: 0 <= j < 5 ==> secret[j] != guess[i] || j in used
    ensures !AbsentBlocked(secret, r, guess[i], claimed)
  {
    forall j | 0 <= j < 5 && Narrow(r[j]) != 2 && j !in claimed
      ensures secret[j] != guess[i]
    {
      assert Narrow(r[j]) == r[j];
    }
  }

  /** Facts about position i of the second pass that the survival proof uses. */
  predicate PassFacts(guess: Word, secret: Word, i: nat)
    requires Indexable(guess) && Indexable(secret) && i < 5
  {
    var r := Feedback(guess, secret);
    var m := MisplacedPass(guess, secret, i);
    InRange(r)
    && (forall j :: 0 <= j < 5 ==> (r[j] == 2 <==> guess[j] == secret[j]))
    && (m.res[i] == 2 <==> guess[i] == secret[i])
    && m.res[i] != 1
    && r[i] == MisplacedPass(guess, secret, i + 1).res[i]
  }

  lemma PassFactsHold(guess: Word, secret: Word, i: nat)
    requires Indexable(guess) && Indexable(secret) && i < 5
    ensures PassFacts(guess, secret, i)
  {
    MisplacedCodes(guess, secret, 5);
    MisplacedCodes(guess, secret, i);
    MisplacedStable(guess, secret, i + 1, 5);
  }

  lemma SecretStepExact(guess: Word, secret: Word, i: nat, claimed: set<int>)
    requires Indexable(guess) && Indexable(secret) && i < 5
    requires Mirrors(guess, secret, i, claimed) && PassFacts(guess, secret, i)
    requires guess[i] == secret[i]
    ensures Mirrors(guess, secret, i + 1, claimed)
    ensures KeepFrom(secret, guess, Feedback(guess, secret), i, claimed)
        == KeepFrom(secret, guess, Feedback(guess, secret), i + 1, claimed)
  {
    var r := Feedback(guess, secret);
    assert MisplacedPass(guess, secret, i + 1) == MisplacedPass(guess, secret, i);
    assert r[i] == 2;
    NarrowCode(r[i]);
  }

  lemma SecretStepMisplaced(guess: Word, secret: Word, i: nat, claimed: set<int>, k: nat)
    requires Indexable(guess) && Indexable(secret) && i < 5
    requires Mirrors(guess, secret, i, claimed) && PassFacts(guess, secret, i)
    requires guess[i] != secret[i]
    requires k == FirstUnused(guess[i], secret, MisplacedPass(guess, secret, i).used, 0) && k < 5
    ensures Mirrors(guess, secret, i + 1, claimed + {k})
    ensures KeepFrom(secret, guess, Feedback(guess, secret), i, claimed)
        == KeepFrom(secret, guess, Feedback(guess, secret), i + 1, claimed + {k})
  {
    var r := Feedback(guess, secret);
    var m := MisplacedPass(guess, secret, i);
    assert m.res[i] != 2;
    MisplacedClaimStep(guess, secret, i, k);
    var m1 := MisplacedPass(guess, secret, i + 1);
    assert m1.res[i] == 1;
    assert r[i] == m1.res[i];
    NarrowCode(r[i]);
    ClaimedIsSecretClaim(guess, secret, i, claimed, k);
    assert r[k] != 2;
    MirrorsAfterClaim(guess, secret, i, claimed, k);
  }

  /** Consuming position k in the evaluator matches claiming it in the admission test. */
  lemma MirrorsAfterClaim(guess: Word, secret: Word, i: nat, claimed: set<int>, k: nat)
    requires Indexable(guess) && Indexable(secret) && i < 5 && k < 5
    requires Mirrors(guess, secret, i, claimed)
    requires MisplacedPass(guess, secret, i + 1).used == MisplacedPass(guess, secret, i).used + [k]
    requires Feedback(guess, secret)[k] != 2
    ensures Mirrors(guess, secret, i + 1, claimed + {k})
  {
    var used, used' := MisplacedPass(guess, secret, i).used, MisplacedPass(guess, secret, i + 1).used;
    var r := Feedback(guess, secret);
    forall j | 0 <= j < 5 ensures j in used' <==> r[j] == 2 || j in claimed + {k} {
      assert j in used' <==> j in used || j == k;
    }
  }

  /** One step of the evaluator's second pass that finds an unconsumed position k. */
  lemma MisplacedClaimStep(guess: Word, secret: Word, i: nat, k: nat)
    requires Indexable(guess) && Indexable(secret) && i < 5
    requires MisplacedPass(guess, secret, i).res[i] != 2
    requires k == FirstUnused(guess[i], secret, MisplacedPass(guess, secret, i).used, 0) && k < 5
    ensures MisplacedPass(guess, secret, i + 1)
         == Marking(MisplacedPass(guess, secret, i).res[i := 1], MisplacedPass(guess, secret, i).used + [k])
  {
  }

  /** In the secret's own admission test, the code-1 position i claims the position the
      evaluator consumed for it. */
  lemma ClaimedIsSecretClaim(guess: Word, secret: Word, i: nat, claimed: set<int>, k: nat)
    requires Indexable(guess) && Indexable(secret) && i < 5
    requires Mirrors(guess, secret, i, claimed) && PassFacts(guess, secret, i)
    requires guess[i] != secret[i]
    requires k == FirstUnused(guess[i], secret, MisplacedPass(guess, secret, i).used, 0) && k < 5
    ensures PresentClaim(secret, guess, Feedback(guess, secret), i, claimed) == Some(k)
  {
    var r := Feedback(guess, secret);
    var m := MisplacedPass(guess, secret, i);
    assert MirrorsOf(guess, secret, r, m.used, claimed);
    ClaimMatchesConsume(guess, secret, r, m.used, i, claimed);
  }

  lemma SecretStepAbsent(guess: Word, secret: Word, i: nat, claimed: set<int>)
    requires Indexable(guess) && Indexable(secret) && i < 5
    requires Mirrors(guess, secret, i, claimed) && PassFacts(guess, secret, i)
    requires guess[i] != secret[i]
    requires FirstUnused(guess[i], secret, MisplacedPass(guess, secret, i).used, 0) == 5
    ensures Mirrors(guess, secret, i + 1, claimed)
    ensures KeepFrom(secret, guess, Feedback(guess, secret), i, claimed)
        == KeepFrom(secret, guess, Feedback(guess, secret), i + 1, claimed)
  {
    var r := Feedback(guess, secret);
    var m := MisplacedPass(guess, secret, i);
    assert MisplacedPass(guess, secret, i + 1) == m;
    assert r[i] == 0;
    NarrowCode(r[i]);
    NothingBlocks(guess, secret, r, m.used, i, claimed);
  }

  /** One position of the test against the secret: it passes, and the correspondence carries over. */
  lemma SecretStep(guess: Word, secret: Word, i: nat, claimed: set<int>) returns (next: set<int>)
    requires Indexable(guess) && Indexable(secret) && i < 5
    requires Mirrors(guess, secret, i, claimed)
    ensures Mirrors(guess, secret, i + 1, next)
    ensures KeepFrom(secret, guess, Feedback(guess, secret), i, claimed)
        == KeepFrom(secret, guess, Feedback(guess, secret), i + 1, next)
  {
    PassFactsHold(guess, secret, i);
    if guess[i] == secret[i] {
      SecretStepExact(guess, secret, i, claimed);
      next := claimed;
    } else {
      var k := FirstUnused(guess[i], secret, MisplacedPass(guess, secret, i).used, 0);
      if k < 5 {
        SecretStepMisplaced(guess, secret, i, claimed, k);
        next := claimed + {k};
      } else {
        SecretStepAbsent(guess, secret, i, claimed);
        next := claimed;
      }
    }
  }

  lemma {:induction false} SecretSurvivesFrom(guess: Word, secret: Word, n: nat, claimed: set<int>)
    requires Indexable(guess) && Indexable(secret) && n <= 5
    requires Mirrors(guess, secret, n, claimed)
    ensures KeepFrom(secret, guess, Feedback(guess, secret), n, claimed)
    decreases 5 - n
  {
    if n < 5 {
      var next := SecretStep(guess, secret, n, claimed);
      SecretSurvivesFrom(guess, secret, n + 1, next);
    }
  }

  /** The admission test replays the evaluator's bookkeeping: the true secret always passes the
      test against the feedback it produced. */
  lemma SecretSurvives(guess: Word, secret: Word)
    requires Indexable(guess) && Indexable(secret)
    ensures Keep(secret, guess, Feedback(guess, secret))
  {
    MisplacedFacts(guess, secret, 0);
    MisplacedFacts(guess, secret, 5);
    SecretSurvivesFrom(guess, secret, 0, {});
  }

  /** The candidates `ween` keeps, in their original order: those passing the admission test
      and different from the guess. */
  function Surviving(ws: seq<Word>, guess: Word, res: Result): (r: seq<Word>)
    requires AllIndexable(ws) && Indexable(guess)
    ensures AllIndexable(r)
    decreases |ws|
  {
    if ws == [] then []
    else
      (if Keep(ws[0], guess, res) && ws[0] != guess then [ws[0]] else [])
      + Surviving(ws[1..], guess, res)
  }

  /** The state of the erase loop of `ween`: ws is the list being erased in place, i the
      position reached in it, and k the matching position in the original list. The part
      before i is what survives of the original's first k words. */
  predicate Scanned(ws: seq<Word>, i: nat, orig: seq<Word>, k: nat, guess: Word, res: Result) {
    AllIndexable(orig) && Indexable(guess) && i <= |ws| && k <= |orig| && ws[i..] == orig[k..]
    && ws[..i] + Surviving(orig[k..], guess, res) == Surviving(orig, guess, res)
  }

  lemma ScannedStart(orig: seq<Word>, guess: Word, res: Result)
    requires AllIndexable(orig) && Indexable(guess)
    ensures Scanned(orig, 0, orig, 0, guess, res)
  {
    assert orig[0..] == orig && orig[..0] == [];
  }

  /** The word under the iterator is the original's word k. */
  lemma ScannedAt(ws: seq<Word>, i: nat, orig: seq<Word>, k: nat, guess: Word, res: Result)
    requires Scanned(ws, i, orig, k, guess, res) && i < |ws|
    ensures k < |orig| && ws[i] == orig[k] && Indexable(ws[i])
  {
    assert ws[i..][0] == ws[i];
  }

  /** Erasing a word the filter drops. */
  lemma ScannedErase(ws: seq<Word>, i: nat, orig: seq<Word>, k: nat, guess: Word, res: Result)
    requires Scanned(ws, i, orig, k, guess, res) && i < |ws|
    requires !Keep(ws[i], guess, res) || ws[i] == guess
    ensures Scanned(ws[..i] + ws[i + 1..], i, orig, k + 1, guess, res)
    ensures (ws[..i] + ws[i + 1..])[..i] == ws[..i]
  {
    ScannedAt(ws, i, orig, k, guess, res);
    var rest := orig[k..];
    assert rest[0] == orig[k] && rest[1..] == orig[k + 1..];
    assert Surviving(rest, guess, res) == Surviving(rest[1..], guess, res);
    var ws' := ws[..i] + ws[i + 1..];
    assert ws'[..i] == ws[..i] && ws'[i..] == ws[i + 1..];
    assert ws[i + 1..] == ws[i..][1..];
  }

  /** Stepping over a word the filter keeps. */
  lemma ScannedSkip(ws: seq<Word>, i: nat, orig: seq<Word>, k: nat, guess: Word, res: Result)
    requires Scanned(ws, i, orig, k, guess, res) && i < |ws|
    requires Keep(ws[i], guess, res) && ws[i] != guess
    ensures Scanned(ws, i + 1, orig, k + 1, guess, res)
    ensures ws[..i + 1] == ws[..i] + [ws[i]]
  {
    ScannedAt(ws, i, orig, k, guess, res);
    var rest := orig[k..];
    assert rest[0] == orig[k] && rest[1..] == orig[k + 1..];
    var tail := Surviving(rest[1..], guess, res);
    assert Surviving(rest, guess, res) == [ws[i]] + tail;
    assert ws[i + 1..] == ws[i..][1..];
    assert ws[..i + 1] == ws[..i] + [ws[i]];
    assert ws[..i + 1] + tail == ws[..i] + ([ws[i]] + tail);
  }

  /** At the end of the list the loop has computed the survivors. */
  lemma ScannedDone(ws: seq<Word>, i: nat, orig: seq<Word>, k: nat, guess: Word, res: Result)
    requires Scanned(ws, i, orig, k, guess, res) && i == |ws|
    ensures ws == Surviving(orig, guess, res)
    ensures ws[..i] == ws
  {
    assert orig[k..] == ws[i..] == [];
    assert ws[..i] == ws;
  }

  /** `ween` leaves a single remaining candidate alone and filters any other list. */
  function Weened(ws: seq<Word>, guess: Word, res: Result): seq<Word>
    requires AllIndexable(ws) && Indexable(guess)
  {
    if |ws| == 1 then ws else Surviving(ws, guess, res)
  }

  /** a is obtained from b by deleting entries. */
  predicate IsSubsequence<T(==)>(a: seq<T>, b: seq<T>)
    decreases |b|
  {
    if a == [] then true
    else if b == [] then false
    else if a[0] == b[0] then IsSubsequence(a[1..], b[1..])
    else IsSubsequence(a, b[1..])
  }

  lemma {:induction false} SurvivingIsSubsequence(ws: seq<Word>, guess: Word, res: Result)
    requires AllIndexable(ws) && Indexable(guess)
    ensures IsSubsequence(Surviving(ws, guess, res), ws)
    ensures |Surviving(ws, guess, res)| <= |ws|
    decreases |ws|
  {
    if ws != [] {
      SurvivingIsSubsequence(ws[1..], guess, res);
      var rest := Surviving(ws[1..], guess, res);
      if Keep(ws[0], guess, res) && ws[0] != guess {
        var s := [ws[0]] + rest;
        assert Surviving(ws, guess, res) == s;
        assert s[0] == ws[0] && s[1..] == rest;
      } else {
        assert Surviving(ws, guess, res) == rest;
        SubsequenceCons(rest, ws[0], ws[1..]);
        assert ws == [ws[0]] + ws[1..];
      }
    }
  }

  /** Putting an entry in front of b keeps every subsequence of b a subsequence. */
  lemma {:induction false} SubsequenceCons<T>(a: seq<T>, x: T, b: seq<T>)
    requires IsSubsequence(a, b)
    ensures IsSubsequence(a, [x] + b)
    decreases |a| + |b|
  {
    var xb := [x] + b;
    assert xb[1..] == b;
    if a != [] && a[0] == x {
      if a[0] == b[0] {
        SubsequenceCons(a[1..], b[0], b[1..]);
        assert [b[0]] + b[1..] == b;
      } else {
        SubsequenceCons(a, x, b[1..]);
        var xb' := [x] + b[1..];
        assert xb'[1..] == b[1..];
        SubsequenceCons(a[1..], b[0], b[1..]);
        assert [b[0]] + b[1..] == b;
      }
    }
  }

  /** A word survives exactly when it was a candidate, passes the test and is not the guess. */
  lemma {:induction false} SurvivingMembers(ws: seq<Word>, guess: Word, res: Result, w: Word)
    requires AllIndexable(ws) && Indexable(guess)
    ensures w in Surviving(ws, guess, res) <==> w in ws && Indexable(w) && Keep(w, guess, res) && w != guess
    decreases |ws|
  {
    if ws != [] {
      SurvivingMembers(ws[1..], guess, res, w);
      assert ws == [ws[0]] + ws[1..];
    }
  }

  /** Filtering an already filtered list with the same guess and feedback removes nothing. */
  lemma {:induction false} SurvivingIdempotent(ws: seq<Word>, guess: Word, res: Result)
    requires AllIndexable(ws) && Indexable(guess)
    ensures Surviving(Surviving(ws, guess, res), guess, res) == Surviving(ws, guess, res)
    decreases |ws|
  {
    if ws != [] {
      SurvivingIdempotent(ws[1..], guess, res);
      var rest := Surviving(ws[1..], guess, res);
      if Keep(ws[0], guess, res) && ws[0] != guess {
        var s := [ws[0]] + rest;
        assert Surviving(ws, guess, res) == s;
        assert s[0] == ws[0] && s[1..] == rest;
        assert Surviving(s, guess, res) == [ws[0]] + Surviving(rest, guess, res);
      } else {
        assert Surviving(ws, guess, res) == rest;
      }
    }
  }

  /** Calling `ween` twice with the same guess and feedback changes nothing the second time. */
  lemma WeenedIdempotent(ws: seq<Word>, guess: Word, res: Result)
    requires AllIndexable(ws) && Indexable(guess)
    ensures Weened(Weened(ws, guess, res), guess, res) == Weened(ws, guess, res)
  {
    if |ws| != 1 {
      SurvivingIdempotent(ws, guess, res);
    }
  }

  /** The candidate list never grows. */
  lemma WeenedShrinks(ws: seq<Word>, guess: Word, res: Result)
    requires AllIndexable(ws) && Indexable(guess)
    ensures IsSubsequence(Weened(ws, guess, res), ws)
    ensures |Weened(ws, guess, res)| <= |ws|
  {
    if |ws| == 1 {
      SubsequenceReflexive(ws);
    } else {
      SurvivingIsSubsequence(ws, guess, res);
    }
  }

  lemma {:induction false} SubsequenceReflexive<T>(a: seq<T>)
    ensures IsSubsequence(a, a)
    decreases |a|
  {
    if a != [] {
      SubsequenceReflexive(a[1..]);
    }
  }

  /** Filtering with the true feedback keeps the secret unless it is the guess itself. */
  lemma SecretStaysCandidate(ws: seq<Word>, guess: Word, secret: Word)
    requires AllIndexable(ws) && Indexable(guess) && Indexable(secret)
    requires secret in ws && secret != guess
    ensures secret in Weened(ws, guess, Feedback(guess, secret))
  {
    SecretSurvives(guess, secret);
    SurvivingMembers(ws, guess, Feedback(guess, secret), secret);
  }
}
