/** Cutting the dictionary text into words (`split` in DictManager.h): every lowercase ASCII
    letter starts a word of up to five characters, and anything else is skipped. */
module Dictionary {
  import opened Types

  /** The test `c - 'a'` in 0..25. */
  predicate IsLower(c: char) {
    'a' <= c <= 'z'
  }

  function Min(a: int, b: int): int {
    if a <= b then a else b
  }

  /** The words `split` cuts from s, in order: `substr(i, 5)` keeps what is left when fewer
      than five characters remain. */
  function Tokens(s: string): (r: seq<Word>)
    ensures forall k :: 0 <= k < |r| ==> 1 <= |r[k]| <= 5 && IsLower(r[k][0])
    ensures |r| <= |s|
    decreases |s|
  {
    if s == [] then []
    else if IsLower(s[0]) then [s[..Min(5, |s|)]] + Tokens(s[Min(5, |s|)..])
    else Tokens(s[1..])
  }

  /** `split`; the delimiter argument is not used. */
  method Split(str: string, token: string) returns (result: seq<Word>)
    ensures result == Tokens(str)
  {
    result := [];
    var i := 0;
    while i < |str|
      invariant 0 <= i
      invariant result + Tokens(str[Min(i, |str|)..]) == Tokens(str)
      decreases |str| - i
    {
      var diff := str[i] as int - 'a' as int;
      assert str[Min(i, |str|)..] == str[i..];
      if diff < 26 && diff >= 0 {
        TokensAtWord(str, i);
        result := result + [str[i..Min(i + 5, |str|)]];
        i := i + 5;
      } else {
        TokensAtOther(str, i);
        i := i + 1;
      }
    }
    assert str[Min(i, |str|)..] == [];
  }

  /** The scan at a lowercase letter emits the window starting there and resumes five further on. */
  lemma TokensAtWord(str: string, i: nat)
    requires i < |str| && IsLower(str[i])
    ensures Tokens(str[i..]) == [str[i..Min(i + 5, |str|)]] + Tokens(str[Min(i + 5, |str|)..])
  {
    assert str[i..][0] == str[i];
    assert str[i..][..Min(5, |str| - i)] == str[i..Min(i + 5, |str|)];
    assert str[i..][Min(5, |str| - i)..] == str[Min(i + 5, |str|)..];
  }

  /** The scan at any other character moves one further on. */
  lemma TokensAtOther(str: string, i: nat)
    requires i < |str| && !IsLower(str[i])
    ensures Tokens(str[i..]) == Tokens(str[i + 1..])
  {
    assert str[i..][0] == str[i];
    assert str[i..][1..] == str[i + 1..];
  }

  /** Characters that never start a word, such as the line breaks of the dictionary file. */
  predicate IsSeparator(sep: string) {
    forall i :: 0 <= i < |sep| ==> !IsLower(sep[i])
  }

  /** A dictionary entry: five characters, the first a lowercase letter. */
  predicate IsEntry(w: Word) {
    |w| == 5 && IsLower(w[0])
  }

  /** The dictionary text: every entry followed by the separator. */
  function Join(ws: seq<Word>, sep: string): string {
    if ws == [] then [] else ws[0] + sep + Join(ws[1..], sep)
  }

  /** Separator characters produce nothing. */
  lemma {:induction false} SkipSeparator(sep: string, rest: string)
    requires IsSeparator(sep)
    ensures Tokens(sep + rest) == Tokens(rest)
    decreases |sep|
  {
    if sep != [] {
      var s := sep + rest;
      assert s[0] == sep[0] && !IsLower(s[0]);
      assert s[1..] == sep[1..] + rest;
      SkipSeparator(sep[1..], rest);
    } else {
      assert sep + rest == rest;
    }
  }

  /** Splitting a dictionary text written as entries and separators gives back the entries. */
  lemma {:induction false} SplitJoin(ws: seq<Word>, sep: string)
    requires forall k :: 0 <= k < |ws| ==> IsEntry(ws[k])
    requires IsSeparator(sep)
    ensures Tokens(Join(ws, sep)) == ws
    decreases |ws|
  {
    if ws != [] {
      var w, tail := ws[0], sep + Join(ws[1..], sep);
      var s := Join(ws, sep);
      assert s == w + tail;
      assert s[..5] == w && s[5..] == tail;
      SkipSeparator(sep, Join(ws[1..], sep));
      SplitJoin(ws[1..], sep);
    }
  }

  /** Only the last word can be cut short by the end of the text: every other word has
      exactly five characters. */
  lemma {:induction false} ShortOnlyAtEnd(s: string)
    ensures forall k :: 0 <= k < |Tokens(s)| - 1 ==> Indexable(Tokens(s)[k])
    decreases |s|
  {
    if s != [] {
      if IsLower(s[0]) {
        ShortOnlyAtEnd(s[Min(5, |s|)..]);
        if |s| < 5 {
          assert Tokens(s[Min(5, |s|)..]) == [];
        }
      } else {
        ShortOnlyAtEnd(s[1..]);
      }
    }
  }
}
