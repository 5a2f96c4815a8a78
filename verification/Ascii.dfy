/** Character classes and hexadecimal digits, as the C library has them in the default locale. */
module Ascii {
  import opened Wrappers

  predicate IsSpace(c: char) {
    c == ' ' || 9 <= c as int <= 13
  }

  function HexValue(c: char): Option<int> {
    if '0' <= c <= '9' then Some(c as int - '0' as int)
    else if 'a' <= c <= 'f' then Some(c as int - 'a' as int + 10)
    else if 'A' <= c <= 'F' then Some(c as int - 'A' as int + 10)
    else None
  }

  function HexDigit(n: int): char
    requires 0 <= n < 16
  {
    "0123456789abcdef"[n]
  }

  /** The digits and both cases of `A` to `F`, and nothing else, have a value. */
  lemma HexValueExactly(c: char, v: int)
    ensures HexValue(c) == Some(v) <==>
            0 <= v < 16 && (c == "0123456789abcdef"[v] || c == "0123456789ABCDEF"[v])
  {
  }
}
