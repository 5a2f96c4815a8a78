/** The editor's key loop (`readline_advanced`): every run of keys refines the run of the
    text-with-cursor specification, and the line handed back follows from it. */
module Readline {
  import opened Bytes
  import opened Wrappers
  import opened Utf8
  import opened LineDoc
  import opened LineHistory
  import opened LineEditor

  ghost function Of(e: Editor): Session
    reads e, e.history
  {
    Session(e.Abs(), e.history.Abs(), e.isSpecialChar)
  }

  ghost predicate WellEncodedHist(h: Hist) {
    && ValidHist(h)
    && (forall i :: 0 <= i < |h.entries| ==> WellEncoded(h.entries[i]))
    && (h.viewing.Some? ==> WellEncoded(h.backup))
  }

  /** The editor between two keys. */
  ghost predicate Ready(e: Editor)
    reads e, e.history
  {
    e.Valid() && WellEncodedHist(e.history.Abs())
  }

  /** Characters are Unicode and completions well-encoded. */
  ghost predicate KeyFine(k: Key) {
    && (k.Character? ==> k.cp <= MAX_CODE_POINT)
    && (k.Completion? && k.candidates != [] ==> WellEncoded(k.candidates[0].0))
  }

  /** The mark is set on an empty line: clearing it would read the line's last byte. */
  predicate ReadsNothing(s: Session, k: Key) {
    !AcceptsCompletion(s, k) && s.special && s.doc.text == []
  }

  lemma ReadyIsValid(e: Editor)
    requires Ready(e)
    ensures ValidSession(Of(e)) && e.line == Encode(e.text)
    ensures WellEncoded(e.line)
  {
    hide Encode;
  }

  method HistoryPrev(e: Editor)
    requires Ready(e)
    modifies e, e.history
    ensures Ready(e) && ValidSession(old(Of(e))) && Of(e) == UpKey(old(Of(e)))
  {
    hide Encode, WellEncoded, DecodeAll, Sum, Offset, WidthsFit;
    ReadyIsValid(e);
    if !e.history.IsViewing() {
      e.history.BeginView(e.line);
    }
    var newLine := e.history.PrevLine();
    if newLine.Some? {
      e.SetLineContents(newLine.value, -1);
    }
  }

  method HistoryNext(e: Editor)
    requires Ready(e)
    modifies e, e.history
    ensures Ready(e) && ValidSession(old(Of(e))) && Of(e) == DownKey(old(Of(e)))
  {
    hide Encode, WellEncoded, DecodeAll, Sum, Offset, WidthsFit;
    ReadyIsValid(e);
    if e.history.IsViewing() {
      var newLine := e.history.NextLine();
      if newLine.Some? {
        e.SetLineContents(newLine.value, -1);
      }
    }
  }

  /** Keys that edit the line or move the cursor. */
  method EditorKey(e: Editor, k: Key)
    requires e.Valid() && !k.Up? && !k.Down? && (k.Completion? ==> k.candidates == [])
    requires k.Character? ==> k.cp <= MAX_CODE_POINT
    modifies e
    ensures e.Valid() && ValidDoc(old(e.Abs())) && e.isSpecialChar == old(e.isSpecialChar)
    ensures e.Abs() == if k.Completion? then InsertAt(old(e.Abs()), TAB) else EditKey(old(e.Abs()), k, e.isSpace)
  {
    hide Encode, Sum, Offset, WidthsFit;
    match k
    case Left => e.MoveLeft();
    case Right => e.MoveRight();
    case WordLeft => e.MoveWordLeft();
    case WordRight => e.MoveWordRight();
    case Home => e.MoveToLineStart();
    case End => e.MoveToLineEnd();
    case Delete => e.DeleteAtCursor();
    case Backspace => e.BackspaceKey();
    case Character(cp) => e.Insert(cp);
    case Completion(_) => e.Insert(TAB);
    case _ =>
  }

  /** `replace_last`: redraws the character left of the terminal cursor. */
  method ReplaceLast(e: Editor)
    requires e.line != []
    modifies e`column
    ensures e.column == old(e.column)
  {
    e.MoveCursor(-1);
    e.MoveCursor(1);
  }

  lemma LastByte(text: Text)
    requires Encodable(text)
    ensures Encode(text) == [] <==> text == []
    ensures text != [] ==>
              var b := Encode(text)[|Encode(text)| - 1];
              (b == '\\' as Byte <==> text[|text| - 1] == '\\' as CodePoint) &&
              (b == '/' as Byte <==> text[|text| - 1] == '/' as CodePoint)
  {
    hide Encode, AppendUtf8;
    if text == [] {
      EncodeNothing();
    } else {
      EncodeSnoc(text);
      LastOf(text[|text| - 1]);
    }
  }

  lemma EncodeSnoc(text: Text)
    requires text != []
    ensures Encode(text) == Encode(text[..|text| - 1]) + AppendUtf8(text[|text| - 1])
  {
    hide Encode, AppendUtf8;
    var n := |text| - 1;
    SplitAt(text, n);
    EncodeNothing();
    assert text[n + 1..] == [];
  }

  lemma EncodeNothing()
    ensures Encode([]) == []
  {
  }

  lemma LastOf(ch: CodePoint)
    requires ch <= MAX_CODE_POINT
    ensures var e := AppendUtf8(ch);
            && e != []
            && (e[|e| - 1] == '\\' as Byte <==> ch == '\\' as CodePoint)
            && (e[|e| - 1] == '/' as Byte <==> ch == '/' as CodePoint)
  {
    hide Head2, Head3, Head4, Tail6, Tail12;
    if ch > 0x7F {
      TailIsNoMark(ch);
    } else {
      AsciiLast(ch);
    }
  }

  lemma TailIsNoMark(ch: CodePoint)
    ensures Tail0(ch) >= 0x80
  {
  }

  lemma AsciiLast(ch: CodePoint)
    requires ch <= 0x7F
    ensures (ch as Byte == 0x5C <==> ch == 0x5C) && (ch as Byte == 0x2F <==> ch == 0x2F)
  {
  }

  /** One round of the loop. Reading the last byte of an empty line is undefined; the model
      stops there and says so. */
  method HandleKey(e: Editor, k: Key) returns (defined: bool)
    requires Ready(e) && KeyFine(k)
    modifies e, e.history
    ensures defined <==> !ReadsNothing(old(Of(e)), k)
    ensures Ready(e) && ValidSession(old(Of(e)))
    ensures Of(e) == if defined then KeyStep(old(Of(e)), k, e.isSpace) else old(Of(e))
  {
    hide Encode, WellEncoded, DecodeAll, Sum, Offset, WidthsFit, Encodable;
    ReadyIsValid(e);
    defined := true;
    if k.Completion? && k.candidates != [] {
      if |k.candidates| > 1 || k.candidates[0].0 != e.line {
        e.SetLineContents(k.candidates[0].0, k.candidates[0].1);
      }
      return;
    }
    LineNotEmpty(e);
    if e.isSpecialChar {
      if e.line == [] {
        return false;
      }
      ReplaceLast(e);
      e.isSpecialChar := false;
    }
    OrdinaryKey(e, k);
    MarkLast(e);
  }

  method OrdinaryKey(e: Editor, k: Key)
    requires Ready(e) && KeyFine(k) && !AcceptsCompletion(Of(e), k)
    modifies e, e.history
    ensures Ready(e) && ValidSession(old(Of(e))) && Of(e) == PlainStep(old(Of(e)), k, e.isSpace)
  {
    hide Encode, WellEncoded, DecodeAll, Sum, Offset, WidthsFit, Encodable;
    match k {
      case Up => HistoryPrev(e);
      case Down => HistoryNext(e);
      case _ => EditorKey(e, k);
    }
  }

  lemma LineNotEmpty(e: Editor)
    requires e.Valid()
    ensures e.line == [] <==> e.text == []
  {
    LastByte(e.text);
  }

  /** The end of a round: a trailing backslash or slash is shown as a pending mark. */
  method MarkLast(e: Editor)
    requires Ready(e) && !e.isSpecialChar
    modifies e
    ensures Ready(e) && e.isSpecialChar == EndsSpecial(e.text) && e.Abs() == old(e.Abs())
  {
    hide Encode, WellEncoded, Sum, Offset, WidthsFit;
    LastByte(e.text);
    if e.line != [] && (e.line[|e.line| - 1] == '\\' as Byte || e.line[|e.line| - 1] == '/' as Byte) {
      ReplaceLast(e);
      e.isSpecialChar := true;
    }
  }

  // ---- Runs -------------------------------------------------------------------------

  ghost predicate Good(s: Session) {
    ValidDoc(s.doc) && WellEncodedHist(s.hist)
  }

  ghost predicate KeysFine(keys: seq<Key>) {
    forall i :: 0 <= i < |keys| ==> KeyFine(keys[i])
  }

  lemma LoadedGood(line: seq<Byte>, pos: int)
    requires WellEncoded(line)
    ensures ValidDoc(Loaded(line, pos)) && Encode(Loaded(line, pos).text) == line
  {
    hide Encode, DecodeAll;
    var text :| Encodable(text) && line == Encode(text);
    DecodeInvertsEncode(text);
  }

  lemma EncodedLine(text: Text)
    requires Encodable(text)
    ensures WellEncoded(Encode(text)) && Loaded(Encode(text), -1) == Doc(text, |text|)
  {
    hide Encode, DecodeAll;
    DecodeInvertsEncode(text);
  }

  /** Every key keeps a session well-encoded. */
  lemma StepGood(s: Session, k: Key, isSpace: Class)
    requires Good(s) && KeyFine(k)
    ensures ValidSession(s) && Good(KeyStep(s, k, isSpace))
  {
    hide Encode, DecodeAll, WellEncoded, Loaded, Encodable;
    if k.Up? || k.Down? {
      HistoryKeysGood(s, k, isSpace);
    } else if AcceptsCompletion(s, k) {
      LoadedGood(k.candidates[0].0, k.candidates[0].1);
    } else {
      EditKeepsGood(s, k, isSpace);
    }
  }

  lemma EditKeepsGood(s: Session, k: Key, isSpace: Class)
    requires Good(s) && KeyFine(k) && !k.Up? && !k.Down? && !AcceptsCompletion(s, k)
    ensures ValidSession(s) && Good(KeyStep(s, k, isSpace))
  {
    hide WellEncoded, WordStart, NextWord;
  }

  /** The history keys keep a session well-encoded. */
  lemma HistoryKeysGood(s: Session, k: Key, isSpace: Class)
    requires Good(s) && (k.Up? || k.Down?)
    ensures ValidSession(s) && Good(KeyStep(s, k, isSpace))
  {
    hide Encode, DecodeAll, WellEncoded, Loaded;
    EncodedLine(s.doc.text);
    var h := if k.Up? && s.hist.viewing.None? then Begin(s.hist, Encode(s.doc.text)) else s.hist;
    var (h', line) := if k.Up? then Prev(h) else Next(h);
    if line.Some? {
      LoadedGood(line.value, -1);
    }
  }

  /** The specification's state after a run of keys. */
  ghost function Run(s: Session, keys: seq<Key>, isSpace: Class): (r: Session)
    requires Good(s) && KeysFine(keys)
    ensures Good(r)
    decreases |keys|
  {
    if keys == [] then s
    else
      StepGood(s, keys[0], isSpace);
      Run(KeyStep(s, keys[0], isSpace), keys[1..], isSpace)
  }

  /** No key of the run reads the last byte of an empty line. */
  ghost predicate RunDefined(s: Session, keys: seq<Key>, isSpace: Class)
    requires Good(s) && KeysFine(keys)
    decreases |keys|
  {
    keys == [] ||
    (StepGood(s, keys[0], isSpace);
     !ReadsNothing(s, keys[0]) && RunDefined(KeyStep(s, keys[0], isSpace), keys[1..], isSpace))
  }

  lemma RunUnfolds(s: Session, keys: seq<Key>, isSpace: Class)
    requires Good(s) && KeysFine(keys) && keys != []
    ensures ValidSession(s) && KeysFine(keys[1..]) && Good(KeyStep(s, keys[0], isSpace))
    ensures Run(s, keys, isSpace) == Run(KeyStep(s, keys[0], isSpace), keys[1..], isSpace)
    ensures RunDefined(s, keys, isSpace) <==>
            !ReadsNothing(s, keys[0]) && RunDefined(KeyStep(s, keys[0], isSpace), keys[1..], isSpace)
  {
    hide KeyStep, KeyFine, Good, ReadsNothing;
    StepGood(s, keys[0], isSpace);
  }

  lemma ReadyIsGood(e: Editor)
    requires Ready(e)
    ensures Good(Of(e))
  {
    hide Encode, Sum, Offset, WidthsFit;
  }

  /** The refinement for whole runs: unless a key reads from an empty line, after any keys the
      buffers are consistent, the column is the sum of the widths left of the cursor, and the
      session is the specification's. */
  method HandleKeys(e: Editor, keys: seq<Key>) returns (defined: bool)
    requires Ready(e) && KeysFine(keys)
    modifies e, e.history
    ensures Good(old(Of(e))) && (defined <==> RunDefined(old(Of(e)), keys, e.isSpace))
    ensures Ready(e) && (defined ==> Of(e) == Run(old(Of(e)), keys, e.isSpace))
    ensures e.charPos <= e.bytePos && e.charPos <= |e.widths|
  {
    hide Encode, WellEncoded, DecodeAll, Sum, Offset, WidthsFit, Encodable, KeyStep, KeyFine, Good, RunDefined, Run,
      ReadsNothing, Ready;
    var i := 0;
    assert keys[0..] == keys;
    ReadyIsGood(e);
    defined := true;
    while i < |keys| && defined
      invariant 0 <= i <= |keys| && Ready(e) && Good(Of(e)) && KeysFine(keys[i..])
      invariant defined ==>
                  && (RunDefined(Of(e), keys[i..], e.isSpace) <==> RunDefined(old(Of(e)), keys, e.isSpace))
                  && Run(Of(e), keys[i..], e.isSpace) == Run(old(Of(e)), keys, e.isSpace)
      invariant !defined ==> !RunDefined(old(Of(e)), keys, e.isSpace)
    {
      assert keys[i..][0] == keys[i] && keys[i..][1..] == keys[i + 1..];
      RunUnfolds(Of(e), keys[i..], e.isSpace);
      defined := HandleKey(e, keys[i]);
      ReadyIsGood(e);
      i := i + 1;
    }
    if defined {
      NoMoreKeys(Of(e), keys[i..], e.isSpace);
    }
    CursorsOrdered(e);
  }

  lemma NoMoreKeys(s: Session, keys: seq<Key>, isSpace: Class)
    requires Good(s) && keys == []
    ensures RunDefined(s, keys, isSpace) && Run(s, keys, isSpace) == s
  {
    hide Good;
  }

  /** The two assertions at the head of the loop. */
  lemma CursorsOrdered(e: Editor)
    requires Ready(e)
    ensures e.charPos <= e.bytePos && e.charPos <= |e.widths|
  {
    hide Encode;
    OffsetAtLeast(e.text, e.charPos);
  }

  // ---- Handing the line back --------------------------------------------------------

  datatype Submitted = Submitted(line: seq<Byte>, hasMore: bool)

  const NEWLINE: Byte := 0x0A
  const BLANK: Byte := 0x20

  function DropLast(line: seq<Byte>): seq<Byte>
    requires line != []
  {
    line[..|line| - 1]
  }

  /** The line and the continuation flag after Enter or the end of the input. A marked last
      byte is a command: a backslash toggles the continuation, a slash ends it. */
  function Submit(line: seq<Byte>, special: bool, endOfStream: bool, multiline: bool): Submitted
    requires special ==> line != []
  {
    if special then
      var rest := DropLast(line);
      if line[|line| - 1] == '\\' as Byte then Submitted(rest + [NEWLINE], !multiline)
      else Submitted(if rest == [BLANK] then [] else rest, false)
    else if endOfStream then Submitted(line, false)
    else Submitted(line + [NEWLINE], multiline)
  }

  function HistoryLine(line: seq<Byte>): seq<Byte> {
    if line != [] && line[|line| - 1] == NEWLINE then DropLast(line) else line
  }

  /** The end of the call. A mark on an empty line makes it take a byte from an empty string,
      which is undefined. */
  method Finish(e: Editor, endOfStream: bool, multiline: bool) returns (r: Result<Submitted>)
    modifies e.history
    ensures r.Err? <==> e.isSpecialChar && e.line == []
    ensures r.Ok? ==>
              && r.value == Submit(e.line, e.isSpecialChar, endOfStream, multiline)
              && e.history.Abs() ==
                 if !endOfStream && r.value.line != [] then Add(old(e.history.Abs()), HistoryLine(r.value.line))
                 else old(e.history.Abs())
  {
    if e.isSpecialChar && e.line == [] {
      return Err;
    }
    var end := EndLine(e.line, e.isSpecialChar, endOfStream, multiline);
    if !endOfStream && end.line != [] {
      var hline := end.line;
      if end.line[|end.line| - 1] == NEWLINE {
        hline := end.line[..|end.line| - 1];
      }
      e.history.AddLine(hline);
    }
    r := Ok(end);
  }

  method EndLine(typed: seq<Byte>, special: bool, endOfStream: bool, multiline: bool) returns (r: Submitted)
    requires special ==> typed != []
    ensures r == Submit(typed, special, endOfStream, multiline)
  {
    var line := typed;
    var hasMore := multiline;
    if special {
      var last := line[|line| - 1];
      line := line[..|line| - 1];
      if last == '\\' as Byte {
        line := line + [NEWLINE];
        hasMore := !hasMore;
      } else {
        if |line| == 1 && line[0] == BLANK {
          line := [];
        }
        hasMore := false;
      }
    } else if endOfStream {
      hasMore := false;
    } else {
      line := line + [NEWLINE];
    }
    r := Submitted(line, hasMore);
  }
}
