/** One simulated game (`iterationCount` in main.cpp): guess, evaluate against the secret,
    stop on an all-exact answer, otherwise narrow the lists and pick the next guess. */
module Session {
  import opened Types
  import opened ResultCodec
  import opened Evaluator
  import opened Admission
  import opened Popularity
  import TwoPool

  /** How a game ends. `Rounds` is the count `iterationCount` returns; `ShortGuess` marks the
      round at which a guess without five letters (the initial one, or the "" returned when no
      word scores above 0) would have been evaluated, which reads past the end of the guess. */
  datatype Outcome = Rounds(count: int) | ShortGuess(round: int)

  /** The lists and counts of a solver object at one point of a game. */
  datatype Snapshot = Snapshot(words: seq<Word>, totalWords: seq<Word>,
                               popularity: map<char, int>, positionPopularity: map<char, seq<int>>)

  function SnapshotOf(k: TwoPool.Knowledge): Snapshot
    reads k
  {
    Snapshot(k.words, k.totalWords, k.popularity, k.positionPopularity)
  }

  /** A round that did not find the secret takes `before` to `after`: `ween` with the guess and
      its true feedback, then the counts recomputed from the surviving candidates. */
  predicate RoundFollows(before: Snapshot, after: Snapshot, guess: Word, secret: Word) {
    AllIndexable(before.words) && AllIndexable(before.totalWords) && Indexable(guess) && Indexable(secret)
    && after.words == Weened(before.words, guess, Feedback(guess, secret))
    && after.totalWords
       == (if |before.words| == 1 then before.totalWords
           else TwoPool.Pruned(before.totalWords, TwoPool.LettersOfAll(after.words)))
    && AllIndexable(after.words)
    && (forall c :: Get(after.popularity, c) == Occurrences(after.words, c))
    && (forall c, p :: 0 <= p < 5 ==> At(after.positionPopularity, c, p) == AtPosition(after.words, c, p))
  }

  /** `guess` is what `generateGuess` picks in state `s`. */
  predicate ChosenIn(s: Snapshot, guess: Word) {
    AllIndexable(s.totalWords) && IsChoice(s.totalWords, guess, s.popularity, s.positionPopularity, Full)
  }

  /** A round whose guess missed the secret led from `before` to `after`, where `next` was
      chosen. */
  predicate Missed(guess: Word, before: Snapshot, after: Snapshot, next: Word, secret: Word) {
    Indexable(guess) && Indexable(secret) && guess[..5] != secret[..5]
    && RoundFollows(before, after, guess, secret) && ChosenIn(after, next)
  }

  /** Consecutive entries of a trace of guesses and states are related by `step`: entry j and
      entry j + 1 satisfy step(guesses[j], states[j], states[j + 1], guesses[j + 1]). */
  ghost predicate Chained<G, S>(guesses: seq<G>, states: seq<S>, step: (G, S, S, G) -> bool) {
    |guesses| == |states| && 1 <= |guesses|
    && forall j {:trigger step(guesses[j], states[j], states[j + 1], guesses[j + 1])} ::
         0 <= j < |guesses| - 1 ==> step(guesses[j], states[j], states[j + 1], guesses[j + 1])
  }

  lemma ChainedExtend<G, S>(guesses: seq<G>, states: seq<S>, step: (G, S, S, G) -> bool, next: G, after: S)
    requires Chained(guesses, states, step)
    requires step(guesses[|guesses| - 1], states[|states| - 1], after, next)
    ensures Chained(guesses + [next], states + [after], step)
  {
    var gs, ss := guesses + [next], states + [after];
    forall j | 0 <= j < |gs| - 1
      ensures step(gs[j], ss[j], ss[j + 1], gs[j + 1])
    {
      if j < |guesses| - 1 {
        assert step(guesses[j], states[j], states[j + 1], guesses[j + 1]);
      }
    }
  }

  /** Every round of the trace but the last missed the secret and led to the state the next
      guess was chosen in. */
  ghost predicate GameTrace(guesses: seq<Word>, states: seq<Snapshot>, secret: Word) {
    Chained(guesses, states, (g, before, after, next) => Missed(g, before, after, next, secret))
  }

  /** Reading a game trace round by round: every round but the last missed the secret, and led
      to the state in which the following guess was chosen. */
  lemma GameTraceRounds(guesses: seq<Word>, states: seq<Snapshot>, secret: Word, j: nat)
    requires GameTrace(guesses, states, secret) && j + 1 < |guesses|
    ensures Indexable(guesses[j]) && Indexable(secret) && guesses[j][..5] != secret[..5]
    ensures RoundFollows(states[j], states[j + 1], guesses[j], secret)
    ensures ChosenIn(states[j + 1], guesses[j + 1])
  {
    var step := (g, before, after, next) => Missed(g, before, after, next, secret);
    assert step(guesses[j], states[j], states[j + 1], guesses[j + 1]);
  }

  /** A round that missed keeps a candidate secret among the candidates. */
  lemma MissedKeepsSecret(secret: Word)
    ensures forall guess, before, after, next ::
      (Missed(guess, before, after, next, secret) && secret in before.words) ==> secret in after.words
  {
    forall guess, before, after, next | Missed(guess, before, after, next, secret) && secret in before.words
      ensures secret in after.words
    {
      SecretStaysCandidate(before.words, guess, secret);
    }
  }

  /** A property of states that every step preserves holds of every state of a chained trace. */
  lemma {:induction false} ChainedKeeps<G, S>(guesses: seq<G>, states: seq<S>, step: (G, S, S, G) -> bool,
                                              inv: S -> bool, j: nat)
    requires Chained(guesses, states, step) && inv(states[0]) && j < |states|
    requires forall g, before, after, next :: step(g, before, after, next) && inv(before) ==> inv(after)
    ensures inv(states[j])
  {
    if j > 0 {
      ChainedKeeps(guesses, states, step, inv, j - 1);
      var k := j - 1;
      assert step(guesses[k], states[k], states[k + 1], guesses[k + 1]);
    }
  }

  /** A secret that starts among the candidates is among the candidates of every state of the
      game. */
  lemma SecretInEveryState(guesses: seq<Word>, states: seq<Snapshot>, secret: Word)
    requires GameTrace(guesses, states, secret) && secret in states[0].words
    ensures forall j :: 0 <= j < |states| ==> secret in states[j].words
  {
    MissedKeepsSecret(secret);
    forall j | 0 <= j < |states| ensures secret in states[j].words {
      ChainedKeeps(guesses, states, (g, before, after, next) => Missed(g, before, after, next, secret),
                   (s: Snapshot) => secret in s.words, j);
    }
  }

  /** The rest of a round that did not find the secret: narrow the lists, recount, and pick the
      next guess. A secret among the candidates stays among them. */
  method NextGuess(current: TwoPool.Knowledge, guess: Word, res: Result, ghost secret: Word) returns (next: Word)
    requires current.Valid() && Indexable(guess) && Indexable(secret)
    requires res == Feedback(guess, secret) && guess != secret
    modifies current
    ensures current.Valid()
    ensures RoundFollows(old(SnapshotOf(current)), SnapshotOf(current), guess, secret)
    ensures ChosenIn(SnapshotOf(current), next)
    ensures secret in old(current.words) ==> secret in current.words
    ensures next == [] || Indexable(next)
  {
    ghost var before := current.words;
    current.Ween(guess, res);
    if secret in before {
      SecretStaysCandidate(before, guess, secret);
    }
    current.UpdatePopularity();
    next := current.GenerateGuess(res);
  }

  /** One round of `iterationCount` with a guess of five or more characters: evaluate it and,
      when it misses, narrow the lists and pick the next guess, recording the round in the
      game trace. */
  method PlayRound(current: TwoPool.Knowledge, guess: Word, secret: Word,
                   ghost guesses: seq<Word>, ghost states: seq<Snapshot>)
    returns (found: bool, next: Word, ghost guesses': seq<Word>, ghost states': seq<Snapshot>)
    requires current.Valid() && Indexable(guess) && Indexable(secret)
    requires GameTrace(guesses, states, secret)
    requires guesses[|guesses| - 1] == guess && states[|states| - 1] == SnapshotOf(current)
    modifies current
    ensures current.Valid()
    ensures found <==> guess[..5] == secret[..5]
    ensures !found ==> guesses' == guesses + [next] && states' == states + [SnapshotOf(current)]
    ensures !found ==> GameTrace(guesses', states', secret)
    ensures secret in old(current.words) ==> secret in current.words
  {
    var res := CheckWithSecret(guess, secret);
    FeedbackComplete(guess, secret);
    found := IsComplete(res);
    if found {
      return found, guess, guesses, states;
    }
    ghost var before := SnapshotOf(current);
    next := NextGuess(current, guess, res, secret);
    ghost var step := (g, before, after, next) => Missed(g, before, after, next, secret);
    assert step(guess, before, SnapshotOf(current), next);
    ChainedExtend(guesses, states, step, next, SnapshotOf(current));
    guesses', states' := guesses + [next], states + [SnapshotOf(current)];
  }

  /** The solver's object is passed by value, so the game runs on a copy and the caller's lists
      and counts are left as they were. `guesses` is the line of guesses the source writes to
      its trace file; `states` holds, for each guess, the state it was chosen in (the caller's
      state for the initial guess). */
  method IterationCount(knowledge: TwoPool.Knowledge, initialGuess: Word, secret: Word)
    returns (r: Outcome, ghost guesses: seq<Word>, ghost states: seq<Snapshot>)
    requires knowledge.Valid() && Indexable(secret)
    ensures 1 <= |guesses| <= 6 && |states| == |guesses|
    ensures guesses[0] == initialGuess && states[0] == SnapshotOf(knowledge)
    ensures r.Rounds? ==> r.count == |guesses| && Indexable(guesses[|guesses| - 1])
    ensures r.ShortGuess? ==> r.round == |guesses| && !Indexable(guesses[|guesses| - 1])
    ensures r.Rounds? && r.count < 6 ==> guesses[r.count - 1][..5] == secret[..5]
    ensures GameTrace(guesses, states, secret)
    ensures r == ShortGuess(1) <==> !Indexable(initialGuess)
    ensures r == Rounds(1) <==> Indexable(initialGuess) && initialGuess[..5] == secret[..5]
    ensures secret in knowledge.words ==> forall j :: 0 <= j < |states| ==> secret in states[j].words
  {
    var current := new TwoPool.Knowledge.Copy(knowledge);
    var guess := initialGuess;
    var i := 1;
    guesses, states := [initialGuess], [SnapshotOf(knowledge)];
    while true
      invariant 1 <= i <= 6 && |guesses| == i && |states| == i
      invariant fresh(current) && current.Valid()
      invariant guesses[0] == initialGuess && states[0] == SnapshotOf(knowledge)
      invariant guesses[i - 1] == guess && states[i - 1] == SnapshotOf(current)
      invariant i > 1 ==> Indexable(initialGuess) && initialGuess[..5] != secret[..5]
      invariant GameTrace(guesses, states, secret)
      decreases 6 - i
    {
      if |guess| < 5 {
        if secret in knowledge.words { SecretInEveryState(guesses, states, secret); }
        return ShortGuess(i), guesses, states;
      }
      var found, next, guesses', states' := PlayRound(current, guess, secret, guesses, states);
      if found {
        if secret in knowledge.words { SecretInEveryState(guesses, states, secret); }
        return Rounds(i), guesses, states;
      }
      if i == 6 {
        if secret in knowledge.words { SecretInEveryState(guesses, states, secret); }
        return Rounds(6), guesses, states;
      }
      guess, guesses, states := next, guesses', states';
      i := i + 1;
    }
  }
}
