/** Parsing, completion test and rendering of feedback vectors (Result.h). */
module ResultCodec {
  import opened Types

  predicate IsCodeChar(c: char) {
    c == '0' || c == '1' || c == '2'
  }

  /** What `stringToResult` accepts: at least five characters, the first five digits 0..2. */
  function Parse(s: string): Option<Result> {
    if |s| >= 5 && forall i :: 0 <= i < 5 ==> IsCodeChar(s[i]) then
      Some(seq(5, i requires 0 <= i < 5 => s[i] as int - '0' as int))
    else
      None
  }

  /** Reads a feedback string typed by the player; anything after the fifth character is ignored. */
  method StringToResult(s: string) returns (r: Option<Result>)
    ensures r == Parse(s)
    ensures r.Some? ==> InRange(r.value)
    ensures r.Some? <==> |s| >= 5 && forall i :: 0 <= i < 5 ==> IsCodeChar(s[i])
  {
    if |s| >= 5 {
      var res: Result := [0, 0, 0, 0, 0];
      for i := 0 to 5
        invariant forall k :: 0 <= k < i ==> IsCodeChar(s[k]) && res[k] == s[k] as int - '0' as int
      {
        var c := s[i];
        if c == '0' || c == '1' || c == '2' {
          res := res[i := c as int - '0' as int];
        } else {
          return None;
        }
      }
      assert res == seq(5, i requires 0 <= i < 5 => s[i] as int - '0' as int);
      return Some(res);
    }
    return None;
  }

  /** The five codes written as five digits with nothing between them. */
  function Compact(v: Result): (s: string)
    requires InRange(v)
    ensures |s| == 5
  {
    seq(5, i requires 0 <= i < 5 => ('0' as int + v[i]) as char)
  }

  lemma {:induction false} ParseCompact(v: Result)
    requires InRange(v)
    ensures Parse(Compact(v)) == Some(v)
  {
    var s := Compact(v);
    forall i | 0 <= i < 5 ensures IsCodeChar(s[i]) && s[i] as int - '0' as int == v[i] {
      assert s[i] == ('0' as int + v[i]) as char;
    }
    var p := seq(5, i requires 0 <= i < 5 => s[i] as int - '0' as int);
    assert p == v;
  }

  /** `isComplete`: no position is coded 0 or 1. */
  predicate Complete(v: Result) {
    forall i :: 0 <= i < 5 ==> v[i] != 0 && v[i] != 1
  }

  method IsComplete(v: Result) returns (b: bool)
    ensures b <==> Complete(v)
  {
    for i := 0 to 5
      invariant forall k :: 0 <= k < i ==> v[k] != 0 && v[k] != 1
    {
      if v[i] == 0 || v[i] == 1 {
        return false;
      }
    }
    return true;
  }

  /** For vectors the evaluator can produce, complete means all five codes are exact. */
  lemma CompleteIffAllExact(v: Result)
    requires InRange(v)
    ensures Complete(v) <==> v == [2, 2, 2, 2, 2]
  {
    if Complete(v) {
      assert forall i :: 0 <= i < 5 ==> v[i] == 2;
      assert v == [2, 2, 2, 2, 2];
    }
  }

  /** Codes outside 0..2 are not 0 or 1, so they count as complete. */
  lemma OutOfRangeCountsAsComplete()
    ensures Complete([3, 3, 3, 3, 3])
    ensures Complete([2, 2, 7, 2, 2])
    ensures !Complete([2, 2, 2, 2, 1])
  {
    var v: Result := [2, 2, 2, 2, 1];
    assert v[4] == 1;
  }

  /** Decimal digits of a natural number, as `operator<<` writes an int. */
  function NaturalString(n: nat): (s: string)
    ensures |s| >= 1
    decreases n
  {
    if n < 10 then [('0' as int + n) as char]
    else NaturalString(n / 10) + [('0' as int + n % 10) as char]
  }

  function DecimalString(n: int): string {
    if n < 0 then "-" + NaturalString(-n) else NaturalString(n)
  }

  /** The text `print` writes: the five codes separated by spaces, then a newline. */
  function Render(v: Result): string {
    DecimalString(v[0]) + " " + DecimalString(v[1]) + " " + DecimalString(v[2]) + " "
      + DecimalString(v[3]) + " " + DecimalString(v[4]) + "\n"
  }

  /** `print`, returning the text instead of writing it to standard output. */
  method Print(v: Result) returns (out: string)
    ensures out == Render(v)
  {
    out := "";
    for i := 0 to 4
      invariant out == if i == 0 then "" else Prefix(v, i)
    {
      out := out + DecimalString(v[i]) + " ";
    }
    out := out + DecimalString(v[4]) + "\n";
    assert Prefix(v, 2) == DecimalString(v[0]) + " " + DecimalString(v[1]) + " ";
    assert Prefix(v, 3) == Prefix(v, 2) + DecimalString(v[2]) + " ";
    assert Prefix(v, 4) == DecimalString(v[0]) + " " + DecimalString(v[1]) + " "
      + DecimalString(v[2]) + " " + DecimalString(v[3]) + " ";
  }

  /** The first n codes, each followed by a space. */
  function Prefix(v: Result, n: nat): string
    requires 1 <= n <= 4
  {
    if n == 1 then DecimalString(v[0]) + " "
    else Prefix(v, n - 1) + DecimalString(v[n - 1]) + " "
  }

  /** For codes 0..2 the rendering is ten characters, digits at even positions and spaces between,
      so the rendered text never parses back: its second character is a space. */
  lemma {:induction false} RenderShape(v: Result)
    requires InRange(v)
    ensures |Render(v)| == 10
    ensures forall i :: 0 <= i < 5 ==> Render(v)[2 * i] == ('0' as int + v[i]) as char
    ensures Render(v)[1] == ' ' && Render(v)[9] == '\n'
    ensures Parse(Render(v)) == None
  {
    forall i | 0 <= i < 5 ensures DecimalString(v[i]) == [('0' as int + v[i]) as char] {
    }
    var r := Render(v);
    assert r == [('0' as int + v[0]) as char, ' ', ('0' as int + v[1]) as char, ' ',
                 ('0' as int + v[2]) as char, ' ', ('0' as int + v[3]) as char, ' ',
                 ('0' as int + v[4]) as char, '\n'];
    assert !IsCodeChar(r[1]);
  }
}
