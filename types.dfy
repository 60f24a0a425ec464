/** Values shared by every component of the solver. */
module Types {

  /** A dictionary word, a guess or a secret. The engine reads its positions 0..4. */
  type Word = seq<char>

  /** The feedback vector: one code per position (0 absent, 1 present elsewhere, 2 exact). */
  type Result = r: seq<int> | |r| == 5 witness [0, 0, 0, 0, 0]

  /** The all-zero vector the sources start from (`defaultResult`). */
  const Blank: Result := [0, 0, 0, 0, 0]

  /** A word whose positions 0..4 exist, as every per-position loop of the engine assumes. */
  predicate Indexable(w: Word) {
    |w| >= 5
  }

  predicate AllIndexable(ws: seq<Word>) {
    forall k :: 0 <= k < |ws| ==> Indexable(ws[k])
  }

  /** Every code is one the evaluator can produce. */
  predicate InRange(r: Result) {
    forall i :: 0 <= i < 5 ==> 0 <= r[i] <= 2
  }

  /** No entry occurs twice. */
  predicate Distinct<T(==)>(xs: seq<T>) {
    forall a, b :: 0 <= a < b < |xs| ==> xs[a] != xs[b]
  }

  datatype Option<+T> = None | Some(value: T)
}
