/** The CSV row parser (`parse_csv_row`) and when a row reads back. */
module CsvRow {
  /** The fields of the rest of a row, from a field read so far and the quote state. */
  function Parse(field: string, inQuotes: bool, rest: string): (r: seq<string>)
    ensures r != []
    decreases |rest|
  {
    if rest == "" then [field]
    else if rest[0] == '"' then
      if !inQuotes then
        if field != "" then Parse(field + "\"", false, rest[1..]) else Parse(field, true, rest[1..])
      else if |rest| > 1 && rest[1] == '"' then Parse(field + "\"", true, rest[2..])
      else Parse(field, false, rest[1..])
    else if rest[0] == ',' && !inQuotes then [field] + Parse("", false, rest[1..])
    else Parse(field + [rest[0]], inQuotes, rest[1..])
  }

  method ParseCsvRow(input: string) returns (fields: seq<string>)
    ensures fields == Parse("", false, input)
  {
    fields := [];
    var field := "";
    var inQuotes := false;
    var i := 0;
    assert input[0..] == input;
    while i < |input|
      invariant 0 <= i <= |input|
      invariant fields + Parse(field, inQuotes, input[i..]) == Parse("", false, input)
    {
      ghost var rest := input[i..];
      var ch := input[i];
      assert rest[0] == ch && rest[1..] == input[i + 1..];
      if i + 1 < |input| {
        assert rest[1] == input[i + 1] && rest[2..] == input[i + 2..];
      }
      if ch == '"' {
        if !inQuotes {
          if field != "" {
            field := field + "\"";
          } else {
            inQuotes := true;
          }
        } else {
          if i + 1 < |input| && input[i + 1] == '"' {
            field := field + "\"";
            i := i + 1;
          } else {
            inQuotes := false;
          }
        }
      } else if ch == ',' {
        if inQuotes {
          field := field + ",";
        } else {
          assert fields + ([field] + Parse("", false, rest[1..])) == fields + [field] + Parse("", false, rest[1..]);
          fields := fields + [field];
          field := "";
        }
      } else {
        field := field + [ch];
      }
      i := i + 1;
    }
    assert input[i..] == "";
    fields := fields + [field];
  }

  // ---- Rendering --------------------------------------------------------------------

  /** A field as written: bare, or quoted with its quotes doubled. */
  datatype Cell = Bare(value: string) | Quoted(value: string)

  function Doubled(s: string): string {
    if s == "" then "" else (if s[0] == '"' then "\"\"" else [s[0]]) + Doubled(s[1..])
  }

  function Render(c: Cell): string {
    match c
    case Bare(v) => v
    case Quoted(v) => "\"" + Doubled(v) + "\""
  }

  function RenderRow(cells: seq<Cell>): string
    requires cells != []
  {
    if |cells| == 1 then Render(cells[0]) else Render(cells[0]) + "," + RenderRow(cells[1..])
  }

  function Values(cells: seq<Cell>): seq<string> {
    seq(|cells|, i requires 0 <= i < |cells| => cells[i].value)
  }

  /** A field needs no quotes: no comma, and no quote at its front. */
  predicate BareOk(s: string) {
    (s == "" || s[0] != '"') && forall i :: 0 <= i < |s| ==> s[i] != ','
  }

  predicate Renderable(cells: seq<Cell>) {
    forall i :: 0 <= i < |cells| && cells[i].Bare? ==> BareOk(cells[i].value)
  }

  lemma {:induction false} BareRead(field: string, s: string, rest: string)
    requires forall i :: 0 <= i < |s| ==> s[i] != ','
    requires field != "" || s == "" || s[0] != '"'
    ensures Parse(field, false, s + rest) == Parse(field + s, false, rest)
    decreases |s|
  {
    if s == "" {
      assert s + rest == rest && field + s == field;
    } else {
      assert (s + rest)[1..] == s[1..] + rest;
      BareRead(field + [s[0]], s[1..], rest);
      assert field + [s[0]] + s[1..] == field + s;
    }
  }

  lemma {:induction false} QuotedRead(field: string, s: string, rest: string)
    requires rest == "" || rest[0] != '"'
    ensures Parse(field, true, Doubled(s) + "\"" + rest) == Parse(field + s, false, rest)
    decreases |s|
  {
    var text := Doubled(s) + "\"" + rest;
    if s == "" {
      assert text[1..] == rest && field + s == field;
      assert |text| > 1 ==> text[1] == rest[0];
    } else {
      var head := if s[0] == '"' then "\"\"" else [s[0]];
      assert text == head + (Doubled(s[1..]) + "\"" + rest);
      assert text[|head|..] == Doubled(s[1..]) + "\"" + rest;
      assert Parse(field, true, text) == Parse(field + [s[0]], true, text[|head|..]);
      QuotedRead(field + [s[0]], s[1..], rest);
      assert field + [s[0]] + s[1..] == field + s;
    }
  }

  lemma CellRead(c: Cell, rest: string)
    requires c.Bare? ==> BareOk(c.value)
    requires rest == "" || rest[0] != '"'
    ensures Parse("", false, Render(c) + rest) == Parse(c.value, false, rest)
  {
    assert "" + c.value == c.value;
    match c
    case Bare(v) => BareRead("", v, rest);
    case Quoted(v) =>
      assert (Render(c) + rest)[1..] == Doubled(v) + "\"" + rest;
      QuotedRead("", v, rest);
  }

  /** Every row of fields, each bare where it may be or quoted, reads back as those fields. */
  lemma {:induction false} RowReadBack(cells: seq<Cell>)
    requires cells != [] && Renderable(cells)
    ensures Parse("", false, RenderRow(cells)) == Values(cells)
    decreases |cells|
  {
    hide Parse, Render, RenderRow, Values, BareOk;
    RowText(cells);
    ValuesFront(cells);
    if |cells| == 1 {
      CellRead(cells[0], "");
      RowEnds(cells[0].value);
      NoValues(cells);
    } else {
      CellRead(cells[0], "," + RenderRow(cells[1..]));
      RowGoesOn(cells[0].value, RenderRow(cells[1..]));
      RowReadBack(cells[1..]);
    }
  }

  lemma RowText(cells: seq<Cell>)
    requires cells != []
    ensures |cells| == 1 ==> RenderRow(cells) == Render(cells[0]) + ""
    ensures |cells| > 1 ==> RenderRow(cells) == Render(cells[0]) + ("," + RenderRow(cells[1..]))
  {
    hide Render;
    if |cells| > 1 {
      Grouped(Render(cells[0]), RenderRow(cells[1..]));
    }
  }

  lemma Grouped(front: string, rest: string)
    ensures front + "," + rest == front + ("," + rest)
  {
  }

  lemma NoValues(cells: seq<Cell>)
    requires |cells| == 1
    ensures [cells[0].value] + Values(cells[1..]) == [cells[0].value]
  {
  }

  lemma ValuesFront(cells: seq<Cell>)
    requires cells != []
    ensures Values(cells) == [cells[0].value] + Values(cells[1..])
  {
    forall i | 1 <= i < |cells| ensures Values(cells)[i] == Values(cells[1..])[i - 1] {
      assert cells[i] == cells[1..][i - 1];
    }
  }

  lemma RowEnds(field: string)
    ensures Parse(field, false, "") == [field]
  {
  }

  lemma RowGoesOn(field: string, rest: string)
    ensures Parse(field, false, "," + rest) == [field] + Parse("", false, rest)
  {
    assert ("," + rest)[1..] == rest;
  }

  function Weight(fields: seq<string>): nat {
    if fields == [] then 0 else |fields[0]| + Weight(fields[1..])
  }

  lemma {:induction false} NothingAdded(field: string, inQuotes: bool, rest: string)
    ensures Weight(Parse(field, inQuotes, rest)) <= |field| + |rest|
    decreases |rest|
  {
    if rest == "" {
      assert [field][1..] == [];
    } else if rest[0] == '"' {
      if !inQuotes {
        if field != "" { NothingAdded(field + "\"", false, rest[1..]); } else { NothingAdded(field, true, rest[1..]); }
      } else if |rest| > 1 && rest[1] == '"' {
        NothingAdded(field + "\"", true, rest[2..]);
      } else {
        NothingAdded(field, false, rest[1..]);
      }
    } else if rest[0] == ',' && !inQuotes {
      NothingAdded("", false, rest[1..]);
      assert ([field] + Parse("", false, rest[1..]))[1..] == Parse("", false, rest[1..]);
    } else {
      NothingAdded(field + [rest[0]], inQuotes, rest[1..]);
    }
  }

  function FirstComma(s: string): (n: nat)
    ensures n <= |s| && (n < |s| ==> s[n] == ',') && forall i :: 0 <= i < n ==> s[i] != ','
  {
    if s == "" || s[0] == ',' then 0 else 1 + FirstComma(s[1..])
  }

  /** A field may be left bare exactly when it has no comma and does not start with a quote. */
  lemma BareExactly(s: string)
    ensures Parse("", false, s) == [s] <==> BareOk(s)
  {
    if s == "" {
    } else if s[0] == '"' {
      NothingAdded("", true, s[1..]);
      assert [s][1..] == [] && Weight([s]) == |s|;
    } else {
      var n := FirstComma(s);
      assert s == s[..n] + s[n..];
      BareRead("", s[..n], s[n..]);
      assert "" + s[..n] == s[..n];
      if n < |s| {
        assert |Parse(s[..n], false, s[n..])| >= 2;
      } else {
        assert s[..n] == s && s[n..] == "";
      }
    }
  }

  // ---- Rows that are not well written -----------------------------------------------

  /** Text behind a closing quote joins the field, quotes included. */
  lemma BehindQuotes(v: string, s: string)
    requires v != "" && forall i :: 0 <= i < |s| ==> s[i] != ','
    requires s == "" || s[0] != '"'
    ensures Parse("", false, "\"" + Doubled(v) + "\"" + s) == [v + s]
  {
    var t := "\"" + Doubled(v) + "\"" + s;
    assert t[1..] == Doubled(v) + "\"" + s;
    QuotedRead("", v, s);
    assert "" + v == v && s + "" == s;
    BareRead(v, s, "");
  }

  lemma {:induction false} OpenRead(field: string, s: string)
    requires forall i :: 0 <= i < |s| ==> s[i] != '"'
    ensures Parse(field, true, s) == [field + s]
    decreases |s|
  {
    if s == "" {
      assert field + s == field;
    } else {
      OpenRead(field + [s[0]], s[1..]);
      assert field + [s[0]] + s[1..] == field + s;
    }
  }

  /** Without its closing quote a field takes the rest of the row, commas included. */
  lemma NeverClosed(s: string)
    requires forall i :: 0 <= i < |s| ==> s[i] != '"'
    ensures Parse("", false, "\"" + s) == [s]
  {
    assert ("\"" + s)[1..] == s && "" + s == s;
    OpenRead("", s);
  }
}
