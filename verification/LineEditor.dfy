/** The line editor's buffers: UTF-8 bytes, display widths, a character and a byte cursor, and
    a ghost terminal column. Every operation refines the text-with-cursor operation of LineDoc. */
module LineEditor {
  import opened Bytes
  import opened Utf8
  import opened LineDoc
  import opened LineHistory

  function Sum(w: seq<int>): int {
    if w == [] then 0 else w[0] + Sum(w[1..])
  }

  lemma {:induction false} SumAppend(a: seq<int>, b: seq<int>)
    ensures Sum(a + b) == Sum(a) + Sum(b)
    decreases |a|
  {
    if a == [] {
      assert a + b == b;
    } else {
      assert (a + b)[1..] == a[1..] + b;
      SumAppend(a[1..], b);
    }
  }

  lemma SumSplit(w: seq<int>, i: nat, j: nat)
    requires i <= j <= |w|
    ensures Sum(w[..j]) == Sum(w[..i]) + Sum(w[i..j])
  {
    assert w[..j] == w[..i] + w[i..j];
    SumAppend(w[..i], w[i..j]);
  }

  lemma SumStep(w: seq<int>, i: nat)
    requires i < |w|
    ensures Sum(w[..i + 1]) == Sum(w[..i]) + w[i]
    ensures Sum(w[i..]) == w[i] + Sum(w[i + 1..])
  {
    SumSplit(w, i, i + 1);
    assert w[i..i + 1] == [w[i]] && [w[i]][1..] == [];
    assert Sum([w[i]]) == w[i];
    assert w[i..][1..] == w[i + 1..];
  }

  lemma SumWhole(w: seq<int>, i: nat)
    requires i <= |w|
    ensures Sum(w) == Sum(w[..i]) + Sum(w[i..])
  {
    assert w == w[..i] + w[i..];
    SumAppend(w[..i], w[i..]);
  }

  predicate NonNegative(w: seq<int>) {
    forall i :: 0 <= i < |w| ==> w[i] >= 0
  }

  /** One width for each code point; the one `wcwidth` gives, where it gives one. */
  ghost predicate WidthsFit(widths: seq<int>, text: Text, wcwidth: CodePoint -> int) {
    && |widths| == |text|
    && forall i :: 0 <= i < |text| ==> if wcwidth(text[i]) >= 0 then widths[i] == wcwidth(text[i]) else widths[i] >= 0
  }

  lemma FitIsNonNegative(widths: seq<int>, text: Text, wcwidth: CodePoint -> int)
    requires WidthsFit(widths, text, wcwidth)
    ensures NonNegative(widths)
  {
  }

  lemma FitInserted(widths: seq<int>, text: Text, i: nat, w: int, ch: CodePoint, wcwidth: CodePoint -> int)
    requires WidthsFit(widths, text, wcwidth) && i <= |text|
    requires if wcwidth(ch) >= 0 then w == wcwidth(ch) else w >= 0
    ensures WidthsFit(widths[..i] + [w] + widths[i..], text[..i] + [ch] + text[i..], wcwidth)
  {
    var ws, t := widths[..i] + [w] + widths[i..], text[..i] + [ch] + text[i..];
    forall k | 0 <= k < |t|
      ensures if wcwidth(t[k]) >= 0 then ws[k] == wcwidth(t[k]) else ws[k] >= 0
    {
      var j := if k < i then k else k - 1;
      if k == i {
        assert t[k] == ch && ws[k] == w;
      } else {
        assert t[k] == text[j] && ws[k] == widths[j];
      }
    }
  }

  /** Removing code point `i`, and inserting one there, as byte edits. */
  lemma EncodeRemoved(text: Text, i: nat)
    requires i < |text|
    ensures Offset(text, i) <= Offset(text, i + 1) <= |Encode(text)|
    ensures Encode(text[..i] + text[i + 1..]) == Encode(text)[..Offset(text, i)] + Encode(text)[Offset(text, i + 1)..]
  {
    hide AppendUtf8, Encode;
    SplitAt(text, i);
    OffsetBound(text, i);
    OffsetBound(text, i + 1);
    EncodeAppend(text[..i], text[i + 1..]);
  }

  lemma EncodeInserted(text: Text, i: nat, ch: CodePoint)
    requires i <= |text|
    ensures Offset(text, i) <= |Encode(text)|
    ensures Encode(text[..i] + [ch] + text[i..])
         == Encode(text)[..Offset(text, i)] + AppendUtf8(ch) + Encode(text)[Offset(text, i)..]
  {
    hide AppendUtf8, Encode;
    OffsetBound(text, i);
    EncodeAppend(text[..i] + [ch], text[i..]);
    EncodeAppend(text[..i], [ch]);
    EncodeOne(ch);
  }

  lemma SameOffset(a: Text, b: Text, i: nat)
    requires i <= |a| && i <= |b| && a[..i] == b[..i]
    ensures Offset(a, i) == Offset(b, i)
  {
  }

  /** The offset behind an inserted code point. */
  lemma OffsetInserted(text: Text, i: nat, ch: CodePoint)
    requires i <= |text|
    ensures Offset(text[..i] + [ch] + text[i..], i + 1) == Offset(text, i) + |AppendUtf8(ch)|
  {
    hide AppendUtf8, Encode;
    assert (text[..i] + [ch] + text[i..])[..i + 1] == text[..i] + [ch];
    EncodeAppend(text[..i], [ch]);
    EncodeOne(ch);
  }

  /** Text, bytes and widths after inserting a character at `i`, and the offsets around it. */
  lemma BuffersInserted(text: Text, i: nat, ch: CodePoint, widths: seq<int>, w: int, wcwidth: CodePoint -> int)
    requires Encodable(text) && WidthsFit(widths, text, wcwidth) && i <= |text| && ch <= MAX_CODE_POINT
    requires if wcwidth(ch) >= 0 then w == wcwidth(ch) else w >= 0
    ensures Offset(text, i) <= |Encode(text)|
    ensures var t := text[..i] + [ch] + text[i..];
            && Encodable(t) && WidthsFit(widths[..i] + [w] + widths[i..], t, wcwidth)
            && Encode(t) == Encode(text)[..Offset(text, i)] + AppendUtf8(ch) + Encode(text)[Offset(text, i)..]
            && Offset(t, i) == Offset(text, i) && Offset(t, i + 1) == Offset(text, i) + |AppendUtf8(ch)|
  {
    hide Encode, AppendUtf8;
    EncodeInserted(text, i, ch);
    OffsetInserted(text, i, ch);
    SameOffset(text, text[..i] + [ch] + text[i..], i);
    FitInserted(widths, text, i, w, ch, wcwidth);
  }

  class Editor {
    const wcwidth: CodePoint -> int
    const isSpace: CodePoint -> bool
    const history: History
    var line: seq<Byte>
    var widths: seq<int>
    var charPos: nat
    var bytePos: nat
    var isSpecialChar: bool
    ghost var text: Text
    ghost var column: int

    ghost predicate Consistent()
      reads this
    {
      && Encodable(text) && line == Encode(text) && WidthsFit(widths, text, wcwidth)
      && charPos <= |text| && bytePos == Offset(text, charPos)
    }

    ghost predicate Valid()
      reads this
    {
      Consistent() && column == Sum(widths[..charPos])
    }

    ghost function Abs(): Doc
      reads this
    {
      Doc(text, charPos)
    }

    constructor (wcwidth: CodePoint -> int, isSpace: CodePoint -> bool, history: History)
      ensures Valid() && Abs() == Doc([], 0) && !isSpecialChar
      ensures this.wcwidth == wcwidth && this.isSpace == isSpace && this.history == history
    {
      this.wcwidth, this.isSpace, this.history := wcwidth, isSpace, history;
      line, widths, charPos, bytePos, isSpecialChar := [], [], 0, 0, false;
      text, column := [], 0;
    }

    // ---- The terminal ---------------------------------------------------------------

    method MoveCursor(delta: int)
      modifies this`column
      ensures column == old(column) + delta
    {
      column := column + delta;
    }

    /** Prints a code point. Without an expected width the terminal's answer is arbitrary. */
    method PutCodepoint(bytes: seq<Byte>, expectedWidth: int) returns (width: int)
      modifies this`column
      ensures expectedWidth >= 0 ==> width == expectedWidth
      ensures column == old(column) + if width < 0 then 0 else width
    {
      width := expectedWidth;
      if expectedWidth < 0 {
        width := *;
      }
      column := column + if width < 0 then 0 else width;
    }

    method PutSpaces(n: int)
      requires n >= 0
      modifies this`column
      ensures column == old(column) + n
    {
      for i := 0 to n
        invariant column == old(column) + i
      {
        column := column + 1;
      }
    }

    /** Prints everything from byte `p` and character `i` on, one code point at a time. */
    method RedrawTail(start: nat, first: nat) returns (tailWidth: int)
      requires start <= |line| && first <= |widths| && NonNegative(widths)
      modifies this`column
      ensures tailWidth == Sum(widths[first..]) && column == old(column) + tailWidth
    {
      hide Encode;
      ghost var inStep := && Encodable(text) && line == Encode(text) && |widths| == |text|
                          && first <= |text| && start == Offset(text, first);
      var p: nat := start;
      var i := first;
      tailWidth := 0;
      while i < |widths|
        invariant first <= i <= |widths| && p <= |line|
        invariant tailWidth + Sum(widths[i..]) == Sum(widths[first..])
        invariant column == old(column) + tailWidth
        invariant inStep ==> p == Offset(text, i)
      {
        var following := NextUtf8CharPos(line, p);
        if inStep {
          NextIsNext(text, i, following);
          SplitAt(text, i);
          OffsetBound(text, i);
          assert line[p..following] == AppendUtf8(text[i]);
        }
        var w := PutCodepoint(if p <= following then line[p..following] else [], widths[i]);
        SumStep(widths, i);
        tailWidth := tailWidth + widths[i];
        p := following;
        i := i + 1;
      }
    }

    // ---- Moving ---------------------------------------------------------------------

    method MoveLeft()
      requires Valid()
      modifies this
      ensures Valid() && text == old(text) && isSpecialChar == old(isSpecialChar)
      ensures Abs() == EditKey(old(Abs()), Left, isSpace)
      ensures charPos == if old(charPos) > 0 then old(charPos) - 1 else 0
    {
      hide Encode;
      if charPos > 0 {
        var w := widths[charPos - 1];
        MoveCursor(-w);
        charPos := charPos - 1;
        SumStep(widths, charPos);
        OffsetBound(text, charPos + 1);
        var prev := PrevUtf8CharPos(line, bytePos);
        PrevIsPrevious(text, charPos + 1, prev);
        bytePos := prev;
      }
    }

    method MoveRight()
      requires Valid()
      modifies this
      ensures Valid() && text == old(text) && isSpecialChar == old(isSpecialChar)
      ensures Abs() == EditKey(old(Abs()), Right, isSpace)
      ensures charPos == if old(charPos) < |text| then old(charPos) + 1 else |text|
    {
      hide Encode;
      if charPos < |widths| {
        var w := widths[charPos];
        MoveCursor(w);
        SumStep(widths, charPos);
        var next := NextUtf8CharPos(line, bytePos);
        NextIsNext(text, charPos, next);
        charPos := charPos + 1;
        bytePos := next;
      }
    }

    /** The loop that adds up the widths of the characters from `i` to `j`. */
    method WidthBetween(i: nat, j: nat) returns (width: int)
      requires i <= j <= |widths|
      ensures width == Sum(widths[i..j])
    {
      width := 0;
      assert widths[i..i] == [];
      for k := i to j
        invariant width == Sum(widths[i..k])
      {
        assert widths[i..k + 1][..k - i] == widths[i..k] && widths[i..k + 1][..k + 1 - i] == widths[i..k + 1];
        SumStep(widths[i..k + 1], k - i);
        width := width + widths[k];
      }
    }

    method MoveToLineStart()
      requires Valid()
      modifies this
      ensures Valid() && text == old(text) && isSpecialChar == old(isSpecialChar)
      ensures line == old(line) && widths == old(widths) && charPos == bytePos == column == 0
      ensures Abs() == EditKey(old(Abs()), Home, isSpace)
    {
      hide Encode;
      var backWidth := WidthBetween(0, charPos);
      SumSplit(widths, 0, charPos);
      MoveCursor(-backWidth);
      charPos := 0;
      bytePos := 0;
      OffsetEnds(text);
    }

    method MoveToLineEnd()
      requires Valid()
      modifies this
      ensures Valid() && text == old(text) && isSpecialChar == old(isSpecialChar)
      ensures Abs() == EditKey(old(Abs()), End, isSpace)
    {
      hide Encode;
      var forwardWidth := WidthBetween(charPos, |widths|);
      SumSplit(widths, charPos, |widths|);
      MoveCursor(forwardWidth);
      charPos := |widths|;
      bytePos := |line|;
      OffsetEnds(text);
    }

    /** One loop of a word move to the left: over spaces, or over everything else. */
    method SkipLeft(fromChar: nat, fromByte: nat, spaces: bool) returns (newChar: nat, newByte: nat, width: int)
      requires Consistent() && fromChar <= |text| && fromByte == Offset(text, fromChar)
      ensures newChar == RunLeft(text, fromChar, isSpace, spaces) && newByte == Offset(text, newChar)
      ensures Sum(widths[..fromChar]) == Sum(widths[..newChar]) + width
    {
      hide Encode;
      newChar, newByte, width := fromChar, fromByte, 0;
      while newChar > 0
        invariant newChar <= fromChar && newByte == Offset(text, newChar)
        invariant RunLeft(text, newChar, isSpace, spaces) == RunLeft(text, fromChar, isSpace, spaces)
        invariant Sum(widths[..fromChar]) == Sum(widths[..newChar]) + width
      {
        OffsetBound(text, newChar);
        var prevByte := PrevUtf8CharPos(line, newByte);
        PrevIsPrevious(text, newChar, prevByte);
        DecodeAt(text, newChar - 1);
        var cp := DecodeUtf8(line, prevByte).cp;
        if isSpace(cp) != spaces {
          break;
        }
        SumStep(widths, newChar - 1);
        width := width + widths[newChar - 1];
        newChar := newChar - 1;
        newByte := prevByte;
      }
    }

    method SkipRight(fromChar: nat, fromByte: nat, spaces: bool) returns (newChar: nat, newByte: nat, width: int)
      requires Consistent() && fromChar <= |text| && fromByte == Offset(text, fromChar)
      ensures newChar == RunRight(text, fromChar, isSpace, spaces) && newByte == Offset(text, newChar)
      ensures Sum(widths[..newChar]) == Sum(widths[..fromChar]) + width
    {
      hide Encode;
      newChar, newByte, width := fromChar, fromByte, 0;
      while newChar < |widths|
        invariant fromChar <= newChar <= |text| && newByte == Offset(text, newChar)
        invariant RunRight(text, newChar, isSpace, spaces) == RunRight(text, fromChar, isSpace, spaces)
        invariant Sum(widths[..newChar]) == Sum(widths[..fromChar]) + width
      {
        DecodeAt(text, newChar);
        var d := DecodeUtf8(line, newByte);
        if isSpace(d.cp) != spaces {
          break;
        }
        SumStep(widths, newChar);
        width := width + widths[newChar];
        newChar := newChar + 1;
        newByte := newByte + d.advance;
      }
    }

    method MoveWordLeft()
      requires Valid()
      modifies this
      ensures Valid() && text == old(text) && isSpecialChar == old(isSpecialChar)
      ensures Abs() == EditKey(old(Abs()), WordLeft, isSpace)
    {
      hide Encode, Sum;
      if charPos == 0 {
        return;
      }
      var c1, b1, w1 := SkipLeft(charPos, bytePos, true);
      var c2, b2, w2 := SkipLeft(c1, b1, false);
      MoveCursor(-(w1 + w2));
      charPos := c2;
      bytePos := b2;
    }

    method MoveWordRight()
      requires Valid()
      modifies this
      ensures Valid() && text == old(text) && isSpecialChar == old(isSpecialChar)
      ensures Abs() == EditKey(old(Abs()), WordRight, isSpace)
    {
      hide Encode, Sum;
      if charPos >= |widths| {
        return;
      }
      var c1, b1, w1 := SkipRight(charPos, bytePos, true);
      var c2, b2, w2 := SkipRight(c1, b1, false);
      var c3, b3, w3 := SkipRight(c2, b2, true);
      MoveCursor(w1 + w2 + w3);
      charPos := c3;
      bytePos := b3;
    }

    // ---- Editing --------------------------------------------------------------------

    /** Removes the code point behind the cursor from both buffers. */
    method RemoveAtCursor(nextPos: nat)
      requires Consistent() && charPos < |text| && nextPos == Offset(text, charPos + 1)
      modifies this`line, this`widths, this`text
      ensures Consistent() && Abs() == DeleteAt(old(Abs()))
      ensures widths == old(widths)[..charPos] + old(widths)[charPos + 1..]
    {
      hide Encode;
      EncodeRemoved(text, charPos);
      line := line[..bytePos] + line[nextPos..];
      widths := widths[..charPos] + widths[charPos + 1..];
      ghost var t := text[..charPos] + text[charPos + 1..];
      SameOffset(text, t, charPos);
      text := t;
    }

    method DeleteAtCursor()
      requires Valid()
      modifies this
      ensures Valid() && Abs() == DeleteAt(old(Abs())) && isSpecialChar == old(isSpecialChar)
    {
      hide Encode, Sum;
      if charPos >= |widths| {
        return;
      }
      var nextPos := NextUtf8CharPos(line, bytePos);
      NextIsNext(text, charPos, nextPos);
      var w := widths[charPos];
      RemoveAtCursor(nextPos);
      assert widths[..charPos] == old(widths)[..charPos];
      EraseTail(w);
    }

    /** Redraws what follows the cursor, blanks the removed cells, and moves back. */
    method EraseTail(w: int)
      requires Consistent() && w >= 0
      modifies this`column
      ensures column == old(column)
    {
      hide Encode, Sum;
      FitIsNonNegative(widths, text, wcwidth);
      OffsetBound(text, charPos);
      var tailWidth := RedrawTail(bytePos, charPos);
      PutSpaces(w);
      MoveCursor(-(tailWidth + w));
    }

    method BackspaceKey()
      requires Valid()
      modifies this
      ensures Valid() && Abs() == BackspaceAt(old(Abs())) && isSpecialChar == old(isSpecialChar)
    {
      hide Encode, Sum;
      if charPos > 0 {
        var w := widths[charPos - 1];
        MoveCursor(-w);
        charPos := charPos - 1;
        SumStep(widths, charPos);
        OffsetBound(text, charPos + 1);
        var prevPos := PrevUtf8CharPos(line, bytePos);
        PrevIsPrevious(text, charPos + 1, prevPos);
        var charLen := bytePos - prevPos;
        bytePos := prevPos;
        RemoveAtCursor(bytePos + charLen);
        assert widths[..charPos] == old(widths)[..charPos];
        EraseTail(w);
      }
    }

    /** Inserts a character. Beyond the last Unicode code point nothing is encoded although a
        width is recorded, so the buffers fall out of step. */
    method Insert(ch: CodePoint)
      requires Valid()
      modifies this
      ensures ch <= MAX_CODE_POINT ==> Valid() && Abs() == InsertAt(old(Abs()), ch)
      ensures ch > MAX_CODE_POINT ==>
                line == old(line) && text == old(text) && |widths| == |text| + 1 && !Valid()
      ensures isSpecialChar == old(isSpecialChar)
    {
      hide Encode, Sum, AppendUtf8, Offset, Encodable, WidthsFit;
      var bytes := AppendUtf8(ch);
      var w := wcwidth(ch);
      var realW := PutCodepoint(bytes, w);
      if realW < 0 { realW := 0; }
      var atEnd := charPos == |widths|;
      FitIsNonNegative(widths, text, wcwidth);
      EditPlace();
      InsertIntoBuffers(ch, bytes, realW);
      SumStep(widths, charPos);
      assert widths[..charPos] == old(widths)[..charPos];
      if !atEnd {
        var tailWidth := RedrawTail(bytePos + |bytes|, charPos + 1);
        MoveCursor(-tailWidth);
      }
      bytePos := bytePos + |bytes|;
      charPos := charPos + 1;
      WidthPerCharacter(widths, text, wcwidth);
    }

    /** Consistent buffers have one width for every character. */
    static lemma WidthPerCharacter(w: seq<int>, t: Text, f: CodePoint -> int)
      ensures WidthsFit(w, t, f) ==> |w| == |t|
    {
    }

    lemma EditPlace()
      requires Consistent()
      ensures bytePos <= |line| && charPos <= |widths| && |widths| == |text|
      ensures charPos == |widths| ==> bytePos == |line|
    {
      hide Encode;
      OffsetBound(text, charPos);
      OffsetEnds(text);
    }

    /** Puts the bytes and the width at the cursor, which stays where it is. */
    method InsertIntoBuffers(ch: CodePoint, bytes: seq<Byte>, realW: int)
      requires Consistent() && bytes == AppendUtf8(ch) && bytePos <= |line| && charPos <= |widths|
      requires if wcwidth(ch) >= 0 then realW == wcwidth(ch) else realW >= 0
      modifies this`line, this`widths, this`text
      ensures widths == old(widths)[..charPos] + [realW] + old(widths)[charPos..]
      ensures line == old(line)[..bytePos] + bytes + old(line)[bytePos..]
      ensures ch <= MAX_CODE_POINT ==>
                && Consistent() && text == InsertAt(old(Abs()), ch).text
                && Offset(text, charPos + 1) == bytePos + |bytes|
      ensures ch > MAX_CODE_POINT ==> bytes == [] && line == old(line) && text == old(text) && |widths| == |text| + 1
    {
      hide Encode, AppendUtf8, Offset, WidthsFit;
      EditPlace();
      if charPos == |widths| {
        line := line + bytes;
        widths := widths + [realW];
      } else {
        line := line[..bytePos] + bytes + line[bytePos..];
        widths := widths[..charPos] + [realW] + widths[charPos..];
      }
      if ch <= MAX_CODE_POINT {
        BuffersInserted(text, charPos, ch, old(widths), realW, wcwidth);
        text := text[..charPos] + [ch] + text[charPos..];
      } else {
        NothingBeyond(ch);
      }
    }

    lemma NothingBeyond(ch: CodePoint)
      ensures ch > MAX_CODE_POINT ==> AppendUtf8(ch) == []
    {
    }

    method ClearCurrentLine()
      modifies this`column
      ensures column == old(column)
    {
      var totalWidth := 0;
      for i := 0 to |widths|
        invariant totalWidth >= 0
      {
        totalWidth := totalWidth + if widths[i] > 0 then widths[i] else 1;
      }
      if totalWidth > 0 {
        PutSpaces(totalWidth);
        MoveCursor(-totalWidth);
      }
    }

    method SetLineContents(newLine: seq<Byte>, cursorBytePos: int)
      requires Valid() && WellEncoded(newLine)
      modifies this
      ensures Valid() && Abs() == Loaded(newLine, cursorBytePos) && line == newLine
      ensures isSpecialChar == old(isSpecialChar)
    {
      hide Encode, Sum, DecodeAll;
      ghost var newText :| Encodable(newText) && newLine == Encode(newText);
      DecodeInvertsEncode(newText);
      MoveToLineStart();
      ClearCurrentLine();
      LoadLine(newLine, cursorBytePos, newText);
    }

    /** Decodes and prints a new line into emptied buffers at column 0. */
    method LoadLine(newLine: seq<Byte>, cursorBytePos: int, ghost newText: Text)
      requires column == 0 && Encodable(newText) && newLine == Encode(newText)
      modifies this
      ensures Valid() && text == newText && isSpecialChar == old(isSpecialChar)
      ensures charPos == if cursorBytePos < 0 then |newText| else CursorAt(newText, 0, cursorBytePos)
    {
      hide Encode, Sum, WidthsFit;
      ghost var cut := if cursorBytePos < 0 then |newText| else CursorAt(newText, 0, cursorBytePos);
      line, widths, bytePos, charPos := newLine, [], 0, 0;
      text := newText;
      var idx := 0;
      var backWidth := 0;
      NothingYet(newText);
      while idx < |line|
        invariant line == newLine && text == newText && isSpecialChar == old(isSpecialChar)
        invariant |widths| <= |newText| && idx == Offset(newText, |widths|)
        invariant WidthsFit(widths, newText[..|widths|], wcwidth)
        invariant charPos == (if |widths| <= cut then |widths| else cut) && bytePos == Offset(newText, charPos)
        invariant column == Sum(widths) && backWidth == Sum(widths[charPos..])
        decreases |newText| - |widths|
      {
        ghost var n := |widths|;
        assert n < |newText| by { OffsetEnds(newText); }
        DecodeAt(newText, n);
        Cut(newText, cursorBytePos, n);
        var d := DecodeUtf8(line, idx);
        var realWidth := PutCodepoint(line[idx..idx + d.advance], wcwidth(d.cp));
        if realWidth < 0 { realWidth := 0; }
        NextWidth(widths, realWidth, charPos, newText, wcwidth);
        widths := widths + [realWidth];
        idx := idx + d.advance;
        if cursorBytePos >= 0 && cursorBytePos < idx {
          backWidth := backWidth + realWidth;
        } else {
          charPos := charPos + 1;
          bytePos := idx;
        }
      }
      FullLine(newText, |widths|);
      assert newText[..|newText|] == newText;
      SumWhole(widths, charPos);
      if cursorBytePos >= 0 {
        MoveCursor(-backWidth);
      } else {
        assert widths[charPos..] == [];
        SumNothing();
      }
    }

    static lemma NothingYet(t: Text)
      ensures Offset(t, 0) == 0 && Sum([]) == 0 && forall f :: WidthsFit([], t[..0], f)
    {
      OffsetEnds(t);
    }

    /** The width of the next code point joins the fitting widths. */
    static lemma NextWidth(w: seq<int>, x: int, c: nat, t: Text, wcwidth: CodePoint -> int)
      requires c <= |w| < |t| && WidthsFit(w, t[..|w|], wcwidth)
      requires if wcwidth(t[|w|]) >= 0 then x == wcwidth(t[|w|]) else x >= 0
      ensures WidthsFit(w + [x], t[..|w| + 1], wcwidth)
      ensures Sum(w + [x]) == Sum(w) + x && Sum((w + [x])[c..]) == Sum(w[c..]) + x
      ensures c == |w| ==> Sum((w + [x])[c + 1..]) == 0 && Sum(w[c..]) == 0
    {
      hide WidthsFit, Sum;
      AppendedWidth(w, x, c);
      FitInserted(w, t[..|w|], |w|, x, t[|w|], wcwidth);
      assert t[..|w| + 1] == t[..|w|] + [t[|w|]] + [] && w + [x] == w + [x] + [];
      assert w[..|w|] == w && t[..|w|][..|w|] == t[..|w|] && w[|w|..] == [] && t[..|w|][|w|..] == [];
      SumNothing();
      assert c == |w| ==> (w + [x])[c + 1..] == [];
    }

    static lemma Cut(t: Text, pos: int, n: nat)
      requires n < |t| && Encodable(t)
      ensures pos >= 0 ==> (n >= CursorAt(t, 0, pos) <==> pos < Offset(t, n + 1))
    {
      CutFrom(t, 0, pos, n);
    }

    static lemma SumNothing()
      ensures Sum([]) == 0
    {
    }

    static lemma AppendedWidth(w: seq<int>, x: int, c: nat)
      requires c <= |w|
      ensures Sum(w + [x]) == Sum(w) + x
      ensures Sum((w + [x])[c..]) == Sum(w[c..]) + x
    {
      SumAppend(w, [x]);
      assert [x][1..] == [];
      assert (w + [x])[c..] == w[c..] + [x];
      SumAppend(w[c..], [x]);
    }

    static lemma FullLine(t: Text, n: nat)
      requires n <= |t| && Encodable(t) && Offset(t, n) >= |Encode(t)|
      ensures n == |t|
    {
      hide Encode;
      if n < |t| {
        BytesAt(t, n);
      }
    }

    /** Code points before the cut end at or before the wanted byte, those from it on do not. */
    static lemma {:induction false} CutFrom(t: Text, i: nat, pos: int, n: nat)
      requires i <= |t| && Encodable(t) && i <= n < |t|
      ensures n < CursorAt(t, i, pos) ==> Offset(t, n + 1) <= pos
      ensures n >= CursorAt(t, i, pos) ==> Offset(t, n + 1) > pos
      decreases |t| - i
    {
      hide Encode;
      if i < |t| && Offset(t, i + 1) <= pos {
        if i < n {
          CutFrom(t, i + 1, pos, n);
        }
      } else {
        OffsetsGrow(t, i + 1, n + 1);
      }
    }

    static lemma {:induction false} OffsetsGrow(t: Text, i: nat, j: nat)
      requires i <= j <= |t| && Encodable(t)
      ensures Offset(t, i) <= Offset(t, j)
      decreases j
    {
      hide Encode;
      if i < j {
        OffsetsGrow(t, i, j - 1);
        BytesAt(t, j - 1);
      }
    }
  }
}
