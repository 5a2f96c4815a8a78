/** In-place unescaping (`string_process_escapes`). Characters are bytes: codes 0 to 255. */
module Escapes {
  import opened Wrappers
  import opened Ascii

  /** What `strtol` reads from two characters in base 16 when it consumes both: two digits, or
      one digit behind a blank or a sign. */
  function HexPair(a: char, b: char): Option<int> {
    if HexValue(b).None? then None
    else if HexValue(a).Some? then Some(16 * HexValue(a).value + HexValue(b).value)
    else if IsSpace(a) || a == '+' then HexValue(b)
    else if a == '-' then Some(-HexValue(b).value)
    else None
  }

  function ToByte(v: int): char {
    (v % 256) as char
  }

  /** What the front of the text is replaced by, and how much of it that takes. */
  datatype Front = Front(out: string, eaten: nat)

  function Named(c: char): Option<char> {
    match c
    case 'n' => Some('\n')
    case 'r' => Some('\r')
    case 't' => Some('\t')
    case '\'' => Some('\'')
    case '"' => Some('"')
    case '\\' => Some('\\')
    case _ => None
  }

  function UnescapeFront(s: string): (f: Front)
    requires s != ""
    ensures 1 <= f.eaten <= |s| && 1 <= |f.out| <= f.eaten
  {
    if s[0] == '\\' && |s| > 1 then
      if Named(s[1]).Some? then Front([Named(s[1]).value], 2)
      else if s[1] == 'x' && |s| > 3 && HexPair(s[2], s[3]).Some? then
        Front([ToByte(HexPair(s[2], s[3]).value)], 4)
      else Front(['\\', s[1]], 2)
    else Front([s[0]], 1)
  }

  function Unescape(s: string): (r: string)
    ensures |r| <= |s|
    decreases |s|
  {
    if s == "" then ""
    else var f := UnescapeFront(s); f.out + Unescape(s[f.eaten..])
  }

  /** One round of the loop: what to write and how many characters were read. */
  method ReadFront(buf: array<char>, input: nat) returns (out: string, eaten: nat)
    requires input < buf.Length
    ensures Front(out, eaten) == UnescapeFront(buf[..][input..])
  {
    ghost var s := buf[..][input..];
    assert s[0] == buf[input];
    if buf[input] == '\\' && input + 1 < buf.Length {
      var c := buf[input + 1];
      assert s[1] == c;
      eaten := 2;
      match c {
        case 'n' => out := "\n";
        case 'r' => out := "\r";
        case 't' => out := "\t";
        case '\'' => out := "'";
        case '"' => out := "\"";
        case '\\' => out := "\\";
        case _ =>
          out := ['\\', c];
          if c == 'x' && input + 3 < buf.Length {
            assert s[2] == buf[input + 2] && s[3] == buf[input + 3];
            var v := HexPair(buf[input + 2], buf[input + 3]);
            if v.Some? {
              out, eaten := [ToByte(v.value)], 4;
            }
          }
      }
    } else {
      out, eaten := [buf[input]], 1;
    }
  }

  lemma FrontUnescaped(done: string, s: string, input: nat)
    requires input < |s|
    ensures var f := UnescapeFront(s[input..]);
            && input + f.eaten <= |s|
            && done + Unescape(s[input..]) == (done + f.out) + Unescape(s[input + f.eaten..])
  {
    hide UnescapeFront;
    var f := UnescapeFront(s[input..]);
    assert s[input..][f.eaten..] == s[input + f.eaten..];
    assert done + (f.out + Unescape(s[input + f.eaten..])) == (done + f.out) + Unescape(s[input + f.eaten..]);
  }

  lemma SameTail(s: string, t: string, i: nat, j: nat)
    requires |s| == |t| && i <= j <= |s| && s[i..] == t[i..]
    ensures s[j..] == t[j..]
  {
    assert s[j..] == s[i..][j - i..] && t[j..] == t[i..][j - i..];
  }

  /** Unescapes the buffer over itself. The write position never passes the read position, so
      what is still to be read is as it was. */
  method ProcessEscapes(buf: array<char>) returns (len: nat)
    modifies buf
    ensures len <= buf.Length && buf[..len] == Unescape(old(buf[..]))
  {
    hide UnescapeFront, Unescape;
    var input, output := 0, 0;
    ghost var before := buf[..];
    Untouched(before);
    while input < buf.Length
      invariant 0 <= output <= input <= buf.Length
      invariant |before| == buf.Length && buf[..][input..] == before[input..]
      invariant buf[..][..output] + Unescape(before[input..]) == Unescape(before)
    {
      var out, eaten := ReadFront(buf, input);
      ghost var now := buf[..];
      FrontUnescaped(now[..output], before, input);
      SameTail(now, before, input, input + eaten);
      WriteOut(buf, output, out);
      SameTail(buf[..], now, output + |out|, input + eaten);
      output := output + |out|;
      input := input + eaten;
    }
    len := output;
    Finished(buf[..][..len], before);
    assert buf[..len] == buf[..][..len];
  }

  lemma Untouched(s: string)
    ensures s[..0] + Unescape(s[0..]) == Unescape(s)
  {
    hide Unescape;
    assert s[0..] == s;
  }

  lemma Finished(done: string, s: string)
    ensures done + Unescape(s[|s|..]) == done
  {
  }

  method WriteOut(buf: array<char>, at: nat, out: string)
    requires at + |out| <= buf.Length
    modifies buf
    ensures buf[..][..at + |out|] == old(buf[..])[..at] + out
    ensures buf[..][at + |out|..] == old(buf[..])[at + |out|..]
  {
    for i := 0 to |out|
      invariant forall k :: 0 <= k < at ==> buf[k] == old(buf[k])
      invariant forall k :: 0 <= k < i ==> buf[at + k] == out[k]
      invariant forall k :: at + i <= k < buf.Length ==> buf[k] == old(buf[k])
    {
      buf[at + i] := out[i];
    }
  }

  // ---- Escapers ---------------------------------------------------------------------

  /** How an escaper may spell one byte: as it is, by a named escape, or by two hex digits. */
  datatype Spelling = Plain(c: char) | ByName(c: char) | ByHex(hi: char, lo: char)

  predicate ValidSpelling(p: Spelling) {
    match p
    case Plain(c) => c != '\\'
    case ByName(c) => Named(c).Some?
    case ByHex(hi, lo) => HexValue(hi).Some? && HexValue(lo).Some?
  }

  function Spelled(p: Spelling): string {
    match p
    case Plain(c) => [c]
    case ByName(c) => ['\\', c]
    case ByHex(hi, lo) => ['\\', 'x', hi, lo]
  }

  function Denoted(p: Spelling): char
    requires ValidSpelling(p)
  {
    match p
    case Plain(c) => c
    case ByName(c) => Named(c).value
    case ByHex(hi, lo) => ToByte(16 * HexValue(hi).value + HexValue(lo).value)
  }

  function SpellAll(ps: seq<Spelling>): string {
    if ps == [] then "" else Spelled(ps[0]) + SpellAll(ps[1..])
  }

  function DenoteAll(ps: seq<Spelling>): string
    requires forall i :: 0 <= i < |ps| ==> ValidSpelling(ps[i])
  {
    if ps == [] then "" else [Denoted(ps[0])] + DenoteAll(ps[1..])
  }

  lemma FrontSpelled(p: Spelling, rest: string)
    requires ValidSpelling(p)
    ensures UnescapeFront(Spelled(p) + rest) == Front([Denoted(p)], |Spelled(p)|)
  {
    var s := Spelled(p) + rest;
    assert forall i :: 0 <= i < |Spelled(p)| ==> s[i] == Spelled(p)[i];
  }

  /** Unescaping reads back every spelling, in any mix. */
  lemma {:induction false} SpellingsReadBack(ps: seq<Spelling>)
    requires forall i :: 0 <= i < |ps| ==> ValidSpelling(ps[i])
    ensures Unescape(SpellAll(ps)) == DenoteAll(ps)
  {
    hide UnescapeFront;
    if ps != [] {
      FrontSpelled(ps[0], SpellAll(ps[1..]));
      assert SpellAll(ps)[|Spelled(ps[0])|..] == SpellAll(ps[1..]);
      SpellingsReadBack(ps[1..]);
    }
  }

  /** An escaper: named escapes where there are some, hex for what does not print. */
  function SpellByte(c: char): Spelling
    requires c as int < 256
  {
    match c
    case '\n' => ByName('n')
    case '\r' => ByName('r')
    case '\t' => ByName('t')
    case '\'' => ByName('\'')
    case '"' => ByName('"')
    case '\\' => ByName('\\')
    case _ => if ' ' <= c <= '~' then Plain(c) else ByHex(HexDigit(c as int / 16), HexDigit(c as int % 16))
  }

  function SpellBytes(s: string): seq<Spelling>
    requires forall i :: 0 <= i < |s| ==> s[i] as int < 256
  {
    seq(|s|, i requires 0 <= i < |s| => SpellByte(s[i]))
  }

  function Escape(s: string): string
    requires forall i :: 0 <= i < |s| ==> s[i] as int < 256
  {
    SpellAll(SpellBytes(s))
  }

  lemma HexDigitReads(n: int)
    requires 0 <= n < 16
    ensures HexValue(HexDigit(n)) == Some(n)
  {
  }

  lemma ByteSpelled(c: char)
    requires c as int < 256
    ensures ValidSpelling(SpellByte(c)) && Denoted(SpellByte(c)) == c
  {
    hide HexValue, HexDigit;
    HexByte(c as int);
  }

  lemma HexByte(n: int)
    requires 0 <= n < 256
    ensures HexValue(HexDigit(n / 16)) == Some(n / 16) && HexValue(HexDigit(n % 16)) == Some(n % 16)
    ensures ToByte(16 * (n / 16) + n % 16) == n as char
  {
    HexDigitReads(n / 16);
    HexDigitReads(n % 16);
    hide HexValue, HexDigit;
  }

  lemma {:induction false} BytesSpelled(s: string)
    requires forall i :: 0 <= i < |s| ==> s[i] as int < 256
    ensures forall i :: 0 <= i < |s| ==> ValidSpelling(SpellBytes(s)[i])
    ensures DenoteAll(SpellBytes(s)) == s
  {
    hide SpellByte, Denoted, ValidSpelling;
    forall i | 0 <= i < |s| ensures ValidSpelling(SpellBytes(s)[i]) {
      ByteSpelled(s[i]);
    }
    if s != "" {
      ByteSpelled(s[0]);
      assert SpellBytes(s)[1..] == SpellBytes(s[1..]);
      BytesSpelled(s[1..]);
    }
  }

  /** Unescaping inverts escaping on every byte string. */
  lemma EscapeReadBack(s: string)
    requires forall i :: 0 <= i < |s| ==> s[i] as int < 256
    ensures Unescape(Escape(s)) == s
  {
    BytesSpelled(s);
    SpellingsReadBack(SpellBytes(s));
  }

  predicate IsHex(c: char) {
    '0' <= c <= '9' || 'a' <= c <= 'f' || 'A' <= c <= 'F'
  }

  /** Two characters `strtol` reads to the end in base 16. */
  predicate HexText(a: char, b: char) {
    IsHex(b) && (IsHex(a) || IsSpace(a) || a == '+' || a == '-')
  }

  /** A backslash with one of the named letters, or with an `x` and such a pair. */
  predicate EscapeInFront(s: string) {
    && |s| > 1 && s[0] == '\\'
    && (s[1] in "nrt'\"\\" || (s[1] == 'x' && |s| > 3 && HexText(s[2], s[3])))
  }

  /** Read from the left, pair by pair behind backslashes, the text holds no escape. */
  predicate NoEscapes(s: string)
    decreases |s|
  {
    s == "" ||
    (!EscapeInFront(s) && NoEscapes(if s[0] == '\\' && |s| > 1 then s[2..] else s[1..]))
  }

  lemma HexTextExactly(a: char, b: char)
    ensures HexPair(a, b).Some? <==> HexText(a, b)
  {
  }

  lemma FrontExactly(s: string)
    requires s != ""
    ensures var f := UnescapeFront(s);
            if EscapeInFront(s) then |f.out| < f.eaten
            else f.out == s[..f.eaten] && f.eaten == if s[0] == '\\' && |s| > 1 then 2 else 1
  {
    hide HexPair, HexText;
    if |s| > 3 {
      HexTextExactly(s[2], s[3]);
    }
  }

  /** A text is unescaped to itself exactly when it holds no escape. */
  lemma {:induction false} FixedExactly(s: string)
    ensures Unescape(s) == s <==> NoEscapes(s)
    decreases |s|
  {
    hide UnescapeFront, EscapeInFront;
    if s != "" {
      var f := UnescapeFront(s);
      FrontExactly(s);
      Shorter(f, s[f.eaten..]);
      FixedExactly(s[f.eaten..]);
      if f.out == s[..f.eaten] {
        SameBehind(s, f.eaten, Unescape(s[f.eaten..]));
      }
    }
  }

  lemma Shorter(f: Front, rest: string)
    ensures |f.out + Unescape(rest)| <= |f.out| + |rest|
  {
  }

  lemma SameBehind(s: string, n: nat, tail: string)
    requires n <= |s|
    ensures s[..n] + tail == s <==> tail == s[n..]
  {
    if s[..n] + tail == s {
      assert tail == (s[..n] + tail)[n..];
    }
  }

  /** A hex escape is read exactly where `strtol` takes both characters. */
  lemma HexEscapeExactly(a: char, b: char)
    ensures |Unescape(['\\', 'x', a, b])| == 1 <==> HexText(a, b)
    ensures !HexText(a, b) ==> Unescape(['\\', 'x', a, b]) == ['\\', 'x'] + Unescape([a, b])
  {
    hide HexPair, HexText;
    HexTextExactly(a, b);
    var s := ['\\', 'x', a, b];
    assert s[4..] == "" && s[2..] == [a, b];
    if !HexText(a, b) {
      assert UnescapeFront(s) == Front(['\\', 'x'], 2);
    }
  }

  /** `strtol` accepts a sign and leading white space, so `\x+f`, `\x f` and `\x-f` are hex
      escapes too: two of them for byte 15, the last for byte 241. */
  lemma SignedHexAccepted()
    ensures Unescape("\\x+f") == [15 as char] && Unescape("\\x f") == [15 as char]
    ensures Unescape("\\x-f") == [241 as char]
  {
    SignedHex('+', 15);
    SignedHex(' ', 15);
    SignedHex('-', 241);
  }

  lemma SignedHex(c: char, v: int)
    requires 0 <= v < 256 && HexPair(c, 'f').Some? && HexPair(c, 'f').value % 256 == v
    ensures Unescape("\\x" + [c] + "f") == [v as char]
  {
    var s := "\\x" + [c] + "f";
    assert s[2] == c && s[3] == 'f';
    assert s[4..] == "";
    assert [v as char] + "" == [v as char];
  }
}
