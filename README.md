# Wordle solver — a verified model

This project models the engine of a Wordle solver written in C++:

- the feedback evaluator that scores a guess against a secret as five codes (0 absent, 1 present elsewhere, 2 exact);
- the parser, completion test and printer for those codes;
- the `Knowledge` component that narrows the candidate list after each feedback and scores words to pick the next guess. It comes in two variants:
  - the single-pool class of `Knowledge.h`;
  - the two-pool class of `main.cpp`, which keeps a separate list of guessable words;
- the simulated game `iterationCount`;
- the dictionary tokenizer `split`.

Modules follow the program's structure:

| module | file | models |
|---|---|---|
| `Types` | types.dfy | words, the five-code result vector |
| `ResultCodec` | codec.dfy | `stringToResult`, `isComplete`, `print` |
| `Evaluator` | feedback.dfy | `checkWithSecret` |
| `Admission` | admission.dfy | `keepWord` and the list filter of `ween` (shared by both variants) |
| `Popularity` | popularity.dfy | `updatePopularity`, `generateWordScore`, `generateGuess` (shared loops) |
| `SinglePool` | single_pool.dfy | class `Knowledge` of Knowledge.h |
| `TwoPool` | two_pool.dfy | class `Knowledge` of main.cpp, `guessableWord` |
| `Session` | session.dfy | `iterationCount` |
| `Dictionary` | split.dfy | `split` |

## Modelling choices

- **Words and results.** Words are `seq<char>`; `Indexable(w)` (at least five characters) is required wherever the C++ code reads positions 0..4 without a check. Result vectors are `seq<int>` of length 5.
- **Loops and state.** Each imperative routine is a Dafny `method` with the source's loops. It is proved to meet an independent specification:
  - `CheckWithSecret` computes `Feedback`;
  - `KeepWord` decides `Keep`;
  - `Ween` yields `Surviving`/`Weened` and `Pruned`;
  - `Tally` yields `Occurrences` and `AtPosition`;
  - `PickGuess` returns a guess satisfying `IsChoice`;
  - `Split` returns `Tokens`.

  The properties of the solver are then proved about those functions.
- **Narrowing in `keepWord`.** `keepWord` reads the codes through `char r = res[i]`. This narrowing is written out as `Narrow(x) = x % 256`; for the codes 0, 1 and 2 it changes nothing.
- **Maps.** `std::map` fields are Dafny maps read through lookups that default to 0, as `operator[]` does.
- **Scoring weights.** The two variants share one scoring definition, parameterised by how a letter's first occurrence is weighted:
  - `Reduced(n)` in Knowledge.h: the letter's total less the number of candidates when the total exceeds it.
  - `Full` in main.cpp: the full total.
- **The by-value copy.** `iterationCount` takes its `Knowledge` by value. It is modelled as a method that builds a fresh copy (`Copy`) and has no `modifies` clause.
- **Short guesses.** `iterationCount` can hand `checkWithSecret` a guess shorter than five characters:
  - the initial guess;
  - or the `""` that `generateGuess` returns when no word scores above 0.

  That read is undefined behaviour in C++, and the model ends the game there with the outcome `ShortGuess(round)`.
- **The break in the code-1 case of `keepWord`.** The inner loop exits at Knowledge.h:113 as soon as a claim has been made at a position j <= i. The test that rejects a word holding the guessed letter at position i itself sits at j == i, so it is skipped whenever an earlier position was claimed. `ween` can therefore keep a candidate that no secret giving that feedback could be. The model follows the code as written: `PresentSameSpot` states when the test is skipped, and `SameSpotAdmitted` exhibits such a kept word together with its true feedback.

## Model

| member | source | states |
|---|---|---|
| ResultCodec.StringToResult | Result.h:52-68 | result is none when the text has fewer than five characters or one of the first five is not '0', '1' or '2'; otherwise code i is the digit value of character i, later characters are ignored, every code is in 0..2 |
| ResultCodec.ParseCompact | Result.h:54-67 | parsing the five-digit compact text of any vector with codes 0..2 gives that vector back |
| ResultCodec.IsComplete | Result.h:70-75 | true exactly when no code is 0 or 1 |
| ResultCodec.CompleteIffAllExact | Result.h:70-75 | for codes in 0..2, complete exactly when all five codes are 2 |
| ResultCodec.OutOfRangeCountsAsComplete | Result.h:70-75 | codes outside 0..2 (3, 7) count as complete; a single 1 does not |
| ResultCodec.Print | Result.h:45-50 | returns the printed text: the five codes as decimals separated by spaces, then a newline |
| ResultCodec.RenderShape | Result.h:45-50 | for codes 0..2 the printed text is ten characters (digits at even positions, spaces between, final newline) and never parses as a result |
| Evaluator.CheckWithSecret | Result.h:15-43 | the two passes compute the marking `Feedback` defines (exact matches first, then misplaced letters), claiming secret positions left to right |
| Evaluator.MisplacedCodes | Result.h:20-41 | after each step of the second pass codes are in 0..2, code 2 exactly at exact matches, no 1 beyond the processed prefix |
| Evaluator.MisplacedUsed | Result.h:17-41 | the claimed secret positions lie in 0..4, include every exact position and never repeat |
| Evaluator.MisplacedStable | Result.h:28-41 | later steps of the second pass never revise an earlier position's code |
| Evaluator.FeedbackInRange | Result.h:16-41 | every code returned is 0, 1 or 2 |
| Evaluator.FeedbackExact | Result.h:20-30 | code i is 2 exactly when guess and secret agree at position i |
| Evaluator.FeedbackSelf | Result.h:20-26 | a word scored against itself is all 2s |
| Evaluator.FeedbackComplete | Result.h:20-30 | the feedback is complete exactly when guess and secret agree on positions 0..4 |
| Evaluator.FeedbackClaimsDistinct | Result.h:17-41 | the list of used secret positions holds no duplicate and at most five entries |
| Evaluator.FeedbackMisplaced | Result.h:28-40 | a non-exact position gets 1 exactly when some secret position not yet used holds its letter, and the lowest such position is the one claimed |
| Evaluator.LetterBalance | Result.h:17-41 | at every step, the number of guess positions of a letter marked 1 or 2 equals the number of claimed secret positions holding that letter |
| Evaluator.LetterBound | Result.h:17-41 | for each letter, the positions marked 1 or 2 are no more than the letter's occurrences in the secret |
| Admission.KeepWord | Knowledge.h:83-124 | the loop with its claim map decides exactly the per-code admission rule `Keep` |
| Admission.ScanAbsent | Knowledge.h:89-97 | a code-0 position rejects exactly when an unclaimed, non-exact position of the word holds the guessed letter |
| Admission.ScanPresent | Knowledge.h:99-116 | a code-1 position succeeds exactly when the specified claim exists and then adds that one position to the claim map |
| Admission.KeepIff | Knowledge.h:86-123 | a word is kept exactly when every position passes its code's test against the claims made before it |
| Admission.ExactMismatchRejected | Knowledge.h:117-120 | a code-2 position whose letter differs from the guess rejects the word |
| Admission.AbsentLetterRejected | Knowledge.h:89-97 | a code-0 position rejects the word if a non-exact position, unclaimed by earlier code-1 positions, holds the guessed letter |
| Admission.PresentLetterMissingRejected | Knowledge.h:99-116 | a code-1 position with no claimable position of the guessed letter rejects the word |
| Admission.PresentSameSpot | Knowledge.h:106-113 | with the guessed letter at the same position, a code-1 position passes exactly when a claim was found before reaching it |
| Admission.SameSpotAdmitted | Knowledge.h:113 | a concrete word holding the guessed letter at a code-1 position is admitted, although true feedback for it would not give that result |
| Admission.SecretSurvives | Knowledge.h:83-124 | the secret always passes the admission test for the feedback it produces |
| Admission.SurvivingIsSubsequence | Knowledge.h:33-42 | the filtered list keeps the original order and is no longer than the input |
| Admission.SurvivingMembers | Knowledge.h:33-42 | a word survives exactly when it was in the list, passes the admission test and differs from the guess |
| Admission.SurvivingIdempotent | Knowledge.h:33-42 | filtering twice with the same guess and feedback removes nothing more |
| Admission.WeenedIdempotent | Knowledge.h:31-43 | `ween` run twice with the same guess and feedback changes nothing the second time |
| Admission.WeenedShrinks | Knowledge.h:31-43 | `ween` keeps an order-preserving subsequence of the candidates |
| Admission.SecretStaysCandidate | Knowledge.h:31-43 | a secret that is a candidate and not the guess remains a candidate after `ween` with its true feedback |
| Popularity.Tally | Knowledge.h:46-57 | each letter's count is its number of occurrences at positions 0..4 of the words, each letter-by-position count the number of words with that letter there |
| Popularity.CountWord | Knowledge.h:50-55 | counting one word adds, per letter, its number of occurrences among positions 0..4 to the total, and one to the count at each position holding it |
| Popularity.PositionsSumToTotal | Knowledge.h:50-56 | a letter's five position counts add up to its total count |
| Popularity.TotalsSumToFivePerWord | Knowledge.h:50-56 | over an alphabet covering the words' letters once each, the totals add up to five per word |
| Popularity.WordScore | Knowledge.h:70-81 | the score sums, per position, the weight times the letter's count at that position; a repeated letter weighs 1; the first occurrence weighs the total, reduced by the number of candidates when above it (Knowledge.h) or unreduced (main.cpp:139-149) |
| Popularity.PickGuess | Knowledge.h:18-29 | returns "" exactly when no word scores above 0, otherwise the first word whose positive score is strictly above every earlier one and at least every later one |
| Popularity.ChoiceUnique | Knowledge.h:18-29 | that description determines the guess |
| Popularity.CandidateScoresPositive | Knowledge.h:70-81 | with counts taken from the words themselves every word scores at least 5 |
| Popularity.TalliedChoiceIsCandidate | Knowledge.h:18-29 | choosing among the tallied words themselves yields one of them, never "" |
| SinglePool.Knowledge.constructor | Knowledge.h:126-128 | a new object has no words and empty counts |
| SinglePool.Knowledge.Load | Knowledge.h:14-16 | the candidate list becomes the given list |
| SinglePool.Knowledge.WordCount | Knowledge.h:65-67 | returns the number of candidates |
| SinglePool.Knowledge.Ween | Knowledge.h:31-43 | a single candidate is left alone; otherwise the list becomes its surviving subsequence, erased in place; the counts are untouched |
| SinglePool.Knowledge.UpdatePopularity | Knowledge.h:46-57 | the counts are recomputed from the candidates and the list is unchanged |
| SinglePool.Knowledge.GenerateGuess | Knowledge.h:18-29 | the guess is the reduced-weight choice over the candidates; with fresh counts and a candidate left it is a candidate |
| TwoPool.GuessableWord | main.cpp:76-85 | accepts exactly when at least two positions hold letters of the set |
| TwoPool.GuessableIffTwoPositions | main.cpp:76-85 | guessable exactly when two distinct positions hold letters of the set |
| TwoPool.MemberCountMonotone | main.cpp:76-85 | a larger letter set never lowers the count of hits |
| TwoPool.PrunedKeepsGuessable | main.cpp:101-111 | a word guessable against the starting set is kept |
| TwoPool.PrunedMembersGuessable | main.cpp:101-111 | a kept word is guessable against the starting set plus every letter of the list |
| TwoPool.PrunedIsSubsequence | main.cpp:101-111 | pruning keeps an order-preserving subsequence |
| TwoPool.PrunedByNothing | main.cpp:89-111 | an empty starting set prunes every word |
| TwoPool.PruningDependsOnOrder | main.cpp:101-111 | a word examined before the word whose letters would make it guessable is dropped, and kept in the other order |
| TwoPool.Knowledge.constructor | main.cpp:193-196 | a new object has empty candidate and guessable lists and empty counts |
| TwoPool.Knowledge.Copy | main.cpp:289 | the copy has the same lists and counts |
| TwoPool.Knowledge.Load | main.cpp:58-61 | both lists become the dictionary's words |
| TwoPool.Knowledge.WordCount | main.cpp:134-136 | returns the number of candidates |
| TwoPool.Knowledge.Ween | main.cpp:87-112 | a single candidate leaves both lists alone; otherwise the candidates are filtered as in Knowledge.h and the guessable list is pruned starting from the letters of the survivors |
| TwoPool.Knowledge.WeenCandidates | main.cpp:89-100 | the candidates become their surviving subsequence and the returned set holds exactly their letters |
| TwoPool.Knowledge.PruneGuesses | main.cpp:101-111 | the guessable list becomes its pruning from the given set, each kept word's letters joining the set |
| TwoPool.Knowledge.UpdatePopularity | main.cpp:115-126 | the counts are recomputed from the candidates only; both lists are unchanged |
| TwoPool.Knowledge.GenerateGuess | main.cpp:63-74 | the guess is the full-weight choice over the guessable list: "" or a word of that list |
| Session.IterationCount | main.cpp:289-314 | returns the guesses in the order the game makes them (the line written to the trace file), the first being the initial guess, and the state each was chosen in; the count is the number of guesses made, at most 6; below 6 the last guess agrees with the secret on positions 0..4; every earlier guess missed it, and the following guess is the choice made after `ween` and `updatePopularity` with its true feedback; the game lasts 1 round exactly when the initial guess agrees with the secret; a secret among the candidates stays among them in every state; the caller's object is not modified |
| Session.PlayRound | main.cpp:295-306 | one round: the guess is found exactly when it agrees with the secret on positions 0..4; otherwise the new guess and state extend the game trace by a missed round |
| Session.NextGuess | main.cpp:302-306 | the rest of a missed round: the candidates become their surviving subsequence for the true feedback, the guessable list is left alone when one candidate was left and pruned from the survivors' letters otherwise, the counts are those of the survivors, the returned guess is the full-weight choice over the new guessable list, and a candidate secret stays a candidate |
| Session.GameTraceRounds | main.cpp:295-306 | each round of a game trace but the last missed the secret and led, through `ween` and recounting, to the state in which the next guess was chosen |
| Session.SecretInEveryState | main.cpp:302-305 | a secret among the starting candidates is among the candidates of every state of the game |
| Session.ChainedKeeps | main.cpp:294-310 | a property of states preserved by every round holds in every state of a game trace |
| Dictionary.Tokens | DictManager.h:11-21 | every word starts with a lowercase letter, has one to five characters, and there are no more words than characters |
| Dictionary.Split | DictManager.h:9-23 | the scan returns exactly the words of `Tokens`, whatever the delimiter argument |
| Dictionary.SkipSeparator | DictManager.h:18-20 | characters other than lowercase letters that are not inside a word are skipped |
| Dictionary.SplitJoin | DictManager.h:9-23 | splitting a text of five-character entries, each followed by a separator, gives back the entries |
| Dictionary.ShortOnlyAtEnd | DictManager.h:15 | only the last word can be shorter than five characters |

## Left out

- `DictManager::load` reads dict.txt and picks the secret with `srand`/`rand`. That is file I/O and process-global randomness; the word list and the secret are parameters instead.
- `baseLineAlgorithm` is left out. It is concurrency and I/O glue (thread pool, futures, shared output file, timing), and ThreadPool.h is not part of this model.
- `average` is left out: it is floating-point arithmetic.
- Console interaction is left out:
  - `runAgainstWebsite`;
  - `printWords`;
  - the echo to standard output inside `stringToResult`.
- The writes to `outTxt` inside `iterationCount` are left out; the guesses written are returned as the ghost trace `guesses`, and the secret and the separators are not modelled.
- `std::map::operator[]` in `generateWordScore` inserts zero entries; they change no value read later. Counts read through total lookups, so `GenerateGuess` is modelled as not changing the object.
- `string_view` lifetimes and aliasing are left out; words are values.
- main.cpp repeats `split`, `checkWithSecret`, `stringToResult`, `isComplete`, `print` and `keepWord` with the same code. Each is modelled once.
- `updatePopularity` and `generateGuess` share one model, `Tally` and `PickGuess`, between the two classes.
- Characters are Dafny `char`s, not C++ bytes. The lowercase test `c - 'a'` in 0..25 is the same for both.
- Popularity.WordScore: does not model 32-bit `int` overflow of the score; scores are unbounded integers.
- Popularity.WordScore: does not model the unsigned comparison of a count with the list size in Knowledge.h:75; counts are never negative, so it agrees with the signed one.
- Session.IterationCount: a guess shorter than five characters is undefined behaviour in C++. It is modelled as the outcome `ShortGuess` rather than as a count.
- SinglePool.Knowledge.Ween and TwoPool.Knowledge.Ween: require a guess of at least five characters even when no candidate would be examined.
