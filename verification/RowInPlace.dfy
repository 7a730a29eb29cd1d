// An edit inside one row, on the buffer and on the row's characters in place: the two go
// together.
module RowInPlace {
  import opened FlatText
  import opened EditBuffer
  import opened LineBuffer

  /** The line holds the characters of the cursor's row. */
  predicate HoldsRow(line: Line, b: Buffer)
    reads line, line.data
    requires ValidBuffer(b)
  {
    line.Valid() && line.Text() == b.rows[b.cy].text
  }

  /** One splice of the text, starting and ending inside the cursor's row, with the cursor
      staying there, is that splice of the row and of nothing else. */
  lemma RowSpliced(b: Buffer, b': Buffer, at: nat, del: nat, ins: string, x: nat)
    requires ValidBuffer(b) && ValidBuffer(b') && '\n' !in ins
    requires at + del <= |b.rows[b.cy].text| && x <= |b.rows[b.cy].text| - del + |ins|
    requires Edited(b, b', OffsetOf(b) - b.cx + at, del, ins, OffsetOf(b) - b.cx + x)
    ensures b'.cy == b.cy && b'.cx == x
    ensures Texts(b'.rows) == Texts(b.rows)[b.cy := Splice(b.rows[b.cy].text, at, del, ins)]
  {
    var text := Splice(b.rows[b.cy].text, at, del, ins);
    var row := Row(text, |text| + 1);
    var c := b.(rows := b.rows[b.cy := row], cx := x, modified := true);
    RowEdited(b, c, row, at, del, ins);
    FlatViewIsFaithful(b', c);
    assert Texts(c.rows) == Texts(b.rows)[b.cy := text];
  }

  /** A typed character. */
  method TypeInPlace(b: Buffer, line: Line, c: char) returns (b': Buffer)
    requires ValidBuffer(b) && HoldsRow(line, b) && c != '\n'
    modifies line, line.data
    ensures ValidBuffer(b') && Edited(b, b', OffsetOf(b), 0, [c], OffsetOf(b) + 1)
    ensures b'.cy == b.cy && HoldsRow(line, b')
  {
    line.Insert(b.cx, c);
    b' := InsertChar(b, c);
    RowSpliced(b, b', b.cx, 0, [c], b.cx + 1);
    assert b'.rows[b.cy].text == Texts(b'.rows)[b.cy];
  }

  /** A backspace inside a row. */
  method EraseInPlace(b: Buffer, line: Line) returns (b': Buffer)
    requires ValidBuffer(b) && HoldsRow(line, b) && b.cx > 0
    modifies line, line.data
    ensures ValidBuffer(b') && Edited(b, b', OffsetOf(b) - 1, 1, "", OffsetOf(b) - 1)
    ensures b'.cy == b.cy && HoldsRow(line, b')
  {
    OffsetWithin(b);
    line.Delete(b.cx - 1);
    b' := DeleteChar(b);
    RowSpliced(b, b', b.cx - 1, 1, "", b.cx - 1);
    assert b'.rows[b.cy].text == Texts(b'.rows)[b.cy];
  }

  /** A replacement at the cursor; nothing changes where the pattern does not stand. */
  method ReplaceInPlace(b: Buffer, line: Line, pat: string, rep: string) returns (b': Buffer)
    requires ValidBuffer(b) && HoldsRow(line, b) && '\n' !in rep
    modifies line, line.data
    ensures ValidBuffer(b') && b'.cy == b.cy && HoldsRow(line, b')
    ensures if pat != "" && Occurs(b.rows, pat, b.cy, b.cx)
            then Edited(b, b', OffsetOf(b), |pat|, rep, OffsetOf(b) + |rep|) else b' == b
  {
    b' := ReplaceAtCursor(b, pat, rep);
    if pat != "" && Occurs(b.rows, pat, b.cy, b.cx) {
      line.Replace(b.cx, |pat|, rep);
      RowSpliced(b, b', b.cx, |pat|, rep, b.cx + |rep|);
      assert b'.rows[b.cy].text == Texts(b'.rows)[b.cy];
    }
  }
}
