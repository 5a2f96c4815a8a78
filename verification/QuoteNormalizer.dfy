/** The quote, escape and keyword state machine that turns Python literals into JSON
    (`normalize_quotes_to_json`). `Normalize` is its specification as a scanner over the
    remaining text; `NormalizeQuotesToJson` is the loop. */
module QuoteNormalizer {
  import opened Wrappers

  datatype Mode = Outside | Single | Double

  predicate IsWordChar(c: char) {
    'a' <= c <= 'z' || 'A' <= c <= 'Z' || '0' <= c <= '9' || c == '_'
  }

  /** Length of the run of word characters at the front of `s`. */
  function WordLen(s: string): (n: nat)
    ensures n <= |s|
    ensures forall i :: 0 <= i < n ==> IsWordChar(s[i])
    ensures n < |s| ==> !IsWordChar(s[n])
  {
    if s != [] && IsWordChar(s[0]) then 1 + WordLen(s[1..]) else 0
  }

  /** The JSON spelling of a (possibly still incomplete) Python literal. */
  function Translate(token: string): Option<string> {
    if token <= "True" then Some("true"[..|token|])
    else if token <= "False" then Some("false"[..|token|])
    else if token <= "None" then Some("null"[..|token|])
    else None
  }

  predicate StartsLiteral(c: char) {
    c == 'T' || c == 'F' || c == 'N'
  }

  /** What one round of the scanner writes, how much it reads, and the mode it leaves. */
  datatype Move = Move(out: string, eaten: nat, mode: Mode)

  function Step(mode: Mode, prevWord: bool, s: string): (m: Move)
    requires s != []
    ensures 1 <= m.eaten <= |s|
  {
    var c := s[0];
    if c == '\\' && |s| > 1 then
      match mode
      case Single => Move(if s[1] == '\'' then "'" else [c, s[1]], 2, Single)
      case Double => Move([c, s[1]], 2, Double)
      case Outside => Move([c], 1, Outside)
    else if c == '"' then
      match mode
      case Single => Move("\\\"", 1, Single)
      case Double => Move([c], 1, Outside)
      case Outside => Move([c], 1, Double)
    else if c == '\'' then
      match mode
      case Single => Move("\"", 1, Outside)
      case Double => Move([c], 1, Double)
      case Outside => Move("\"", 1, Single)
    else if mode == Outside && StartsLiteral(c) && !prevWord then
      var n := WordLen(s);
      match Translate(s[..n])
      case Some(js) => Move(js, n, Outside)
      case None => Move([c], 1, Outside)
    else
      Move([c], 1, mode)
  }

  function Norm(mode: Mode, prevWord: bool, s: string): string
    decreases |s|
  {
    if s == [] then []
    else
      var m := Step(mode, prevWord, s);
      m.out + Norm(m.mode, IsWordChar(s[m.eaten - 1]), s[m.eaten..])
  }

  lemma NormUnfolds(mode: Mode, prevWord: bool, s: string)
    requires s != []
    ensures var m := Step(mode, prevWord, s);
            Norm(mode, prevWord, s) == m.out + Norm(m.mode, IsWordChar(s[m.eaten - 1]), s[m.eaten..])
  {
    hide Step;
  }

  lemma NormEnds(mode: Mode, prevWord: bool)
    ensures Norm(mode, prevWord, "") == ""
  {
  }

  function Normalize(s: string): string {
    Norm(Outside, false, s)
  }

  function ModeOf(inSingle: bool, inDouble: bool): Mode {
    if inSingle then Single else if inDouble then Double else Outside
  }

  predicate AfterWord(s: string, i: nat)
    requires i <= |s|
  {
    i > 0 && IsWordChar(s[i - 1])
  }

  /** Measures a run of word characters, as the inner loop of the scanner does. */
  method MeasureWord(input: string, i: nat) returns (n: nat)
    requires i < |input|
    ensures n == WordLen(input[i..])
    ensures forall k :: i <= k < i + n ==>
              'A' <= input[k] <= 'Z' || 'a' <= input[k] <= 'z' || '0' <= input[k] <= '9' || input[k] == '_'
    ensures i + n < |input| ==>
              var c := input[i + n];
              !('A' <= c <= 'Z' || 'a' <= c <= 'z' || '0' <= c <= '9' || c == '_')
  {
    n := 0;
    while i + n < |input| && IsWordChar(input[i + n])
      invariant i + n <= |input|
      invariant n + WordLen(input[i + n..]) == WordLen(input[i..])
    {
      assert input[i + n..][1..] == input[i + n + 1..];
      n := n + 1;
    }
  }

  /** One round of the scanner at `input[i]`: the text it emits, where it goes on and the
      two quote flags it leaves. */
  method Round(input: string, i: nat, inSingle: bool, inDouble: bool)
    returns (out: string, next: nat, single: bool, double: bool)
    requires i < |input| && !(inSingle && inDouble)
    ensures i < next <= |input| && !(single && double)
    ensures var m := Step(ModeOf(inSingle, inDouble), AfterWord(input, i), input[i..]);
            m == Move(out, next - i, ModeOf(single, double))
  {
    var c := input[i];
    out, next, single, double := [c], i + 1, inSingle, inDouble;
    if c == '\\' && i + 1 < |input| {
      if inSingle {
        if input[i + 1] == '\'' {
          out := "'";
        } else if input[i + 1] == '"' {
          out := "\\\"";
        } else {
          out := [c, input[i + 1]];
        }
        next := i + 2;
      } else if inDouble {
        out, next := [c, input[i + 1]], i + 2;
      }
    } else if c == '"' {
      if inSingle {
        out := "\\\"";
      } else {
        double := !inDouble;
      }
    } else if c == '\'' {
      if inSingle {
        out, single := "\"", false;
      } else if !inDouble {
        out, single := "\"", true;
      }
    } else if !inSingle && !inDouble && (c == 'T' || c == 'F' || c == 'N') &&
              (i == 0 || !IsWordChar(input[i - 1])) {
      var n := MeasureWord(input, i);
      var token := input[i..i + n];
      assert token == input[i..][..n];
      match Translate(token)
      case Some(js) => out, next := js, i + n;
      case None =>
    }
  }

  method NormalizeQuotesToJson(input: string) returns (result: string)
    ensures result == Normalize(input)
  {
    hide Norm, Step;
    result := "";
    var inSingle, inDouble := false, false;
    var i := 0;
    while i < |input|
      invariant 0 <= i <= |input|
      invariant !(inSingle && inDouble)
      invariant result + Norm(ModeOf(inSingle, inDouble), AfterWord(input, i), input[i..]) == Normalize(input)
    {
      var out, next, single, double := Round(input, i, inSingle, inDouble);
      NormUnfolds(ModeOf(inSingle, inDouble), AfterWord(input, i), input[i..]);
      assert input[i..][next - i..] == input[next..];
      ghost var rest := Norm(ModeOf(single, double), AfterWord(input, next), input[next..]);
      assert result + (out + rest) == (result + out) + rest;
      result := result + out;
      i, inSingle, inDouble := next, single, double;
    }
    NormEnds(ModeOf(inSingle, inDouble), AfterWord(input, i));
    assert result + "" == result && input[i..] == "";
  }
}
