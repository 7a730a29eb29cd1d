// One buffer of the editor: rows with their capacities, and a cursor.  The
// in-place edits of a row's characters are those of LineBuffer.
module EditBuffer {
  import opened FlatText

  datatype Row = Row(text: string, cap: nat)

  datatype Buffer = Buffer(rows: seq<Row>, cx: int, cy: int, modified: bool, filename: string)

  predicate ValidRow(r: Row) {
    |r.text| < r.cap && '\n' !in r.text
  }

  predicate ValidRows(rows: seq<Row>) {
    forall k :: 0 <= k < |rows| ==> ValidRow(rows[k])
  }

  /** At least one line, room for each NUL, and the cursor inside its line. */
  predicate ValidBuffer(b: Buffer) {
    && ValidRows(b.rows)
    && 0 <= b.cy < |b.rows|
    && 0 <= b.cx <= |b.rows[b.cy].text|
  }

  function Texts(rows: seq<Row>): (t: seq<string>)
    ensures |t| == |rows| && forall k :: 0 <= k < |rows| ==> t[k] == rows[k].text
  {
    seq(|rows|, k requires 0 <= k < |rows| => rows[k].text)
  }

  function TextOf(b: Buffer): string
    requires ValidBuffer(b)
  {
    Flat(Texts(b.rows))
  }

  function OffsetOf(b: Buffer): (at: nat)
    requires ValidBuffer(b)
    ensures at <= |TextOf(b)|
  {
    FlatAround(Texts(b.rows), b.cy);
    Offset(Texts(b.rows), b.cy, b.cx)
  }

  /** b' is b with one splice of its text, the cursor at offset off, marked modified. */
  predicate Edited(b: Buffer, b': Buffer, at: int, del: nat, ins: string, off: int)
    requires ValidBuffer(b) && ValidBuffer(b')
  {
    && 0 <= at && at + del <= |TextOf(b)|
    && TextOf(b') == Splice(TextOf(b), at, del, ins)
    && OffsetOf(b') == off
    && b'.modified && b'.filename == b.filename
  }

  lemma OffsetWithin(b: Buffer)
    requires ValidBuffer(b)
    ensures OffsetOf(b) == 0 <==> b.cx == 0 && b.cy == 0
    ensures OffsetOf(b) == |TextOf(b)| <==> b.cx == |b.rows[b.cy].text| && b.cy == |b.rows| - 1
  {
    FlatAround(Texts(b.rows), b.cy);
  }

  /** Text and offset say everything: no two valid buffers share both. */
  lemma FlatViewIsFaithful(b: Buffer, c: Buffer)
    requires ValidBuffer(b) && ValidBuffer(c)
    requires TextOf(b) == TextOf(c) && OffsetOf(b) == OffsetOf(c)
    ensures Texts(b.rows) == Texts(c.rows) && b.cy == c.cy && b.cx == c.cx
  {
    FlatInjective(Texts(b.rows), Texts(c.rows));
    OffsetInjective(Texts(b.rows), b.cy, b.cx, c.cy, c.cx);
  }

  /** A typed character or newline, then backspace: lines and cursor are back. */
  lemma BackspaceUndoes(b0: Buffer, b1: Buffer, b2: Buffer, c: char)
    requires ValidBuffer(b0) && ValidBuffer(b1) && ValidBuffer(b2)
    requires Edited(b0, b1, OffsetOf(b0), 0, [c], OffsetOf(b0) + 1)
    requires Edited(b1, b2, OffsetOf(b1) - 1, 1, "", OffsetOf(b1) - 1)
    ensures Texts(b2.rows) == Texts(b0.rows) && b2.cy == b0.cy && b2.cx == b0.cx
  {
    SpliceBack(TextOf(b0), TextOf(b1), TextOf(b2), OffsetOf(b0), c);
    FlatViewIsFaithful(b2, b0);
  }

  lemma SpliceBack(s: string, t: string, u: string, at: nat, c: char)
    requires at <= |s| && t == Splice(s, at, 0, [c])
    requires at + 1 <= |t| && u == Splice(t, at, 1, "")
    ensures u == s
  {
    UndoSplice(s, at, [c]);
  }

  /** Two adjacent insertions are one. */
  lemma InsertTwice(s: string, at: nat, x: string, y: string)
    requires at <= |s|
    ensures at + |x| <= |Splice(s, at, 0, x)|
    ensures Splice(Splice(s, at, 0, x), at + |x|, 0, y) == Splice(s, at, 0, x + y)
  {
    var t := Splice(s, at, 0, x);
    assert t[..at + |x|] == s[..at] + x && t[at + |x|..] == s[at..];
  }

  lemma EditsCompose(b0: Buffer, b1: Buffer, b2: Buffer, x: string, y: string)
    requires ValidBuffer(b0) && ValidBuffer(b1) && ValidBuffer(b2)
    requires Edited(b0, b1, OffsetOf(b0), 0, x, OffsetOf(b0) + |x|)
    requires Edited(b1, b2, OffsetOf(b1), 0, y, OffsetOf(b1) + |y|)
    ensures Edited(b0, b2, OffsetOf(b0), 0, x + y, OffsetOf(b0) + |x + y|)
  {
    InsertTwice(TextOf(b0), OffsetOf(b0), x, y);
  }

  // ------------------------------------------------------------------
  // Edits
  // ------------------------------------------------------------------

  // Doubles the capacity until it suffices.
  method Ensure(r: Row, need: nat) returns (r': Row)
    requires r.cap > 0
    ensures r'.text == r.text && r'.cap >= need && r'.cap >= r.cap
  {
    var cap := r.cap;
    while cap < need
      invariant cap >= r.cap
      decreases need - cap
    {
      cap := cap * 2;
    }
    r' := r.(cap := cap);
  }

  // A rewrite inside the cursor's row, as one splice of the text.
  lemma RowEdited(b: Buffer, b': Buffer, row: Row, at: nat, del: nat, ins: string)
    requires ValidBuffer(b) && ValidRow(row) && at + del <= |b.rows[b.cy].text|
    requires row.text == Splice(b.rows[b.cy].text, at, del, ins)
    requires b'.rows == b.rows[b.cy := row] && b'.cy == b.cy && 0 <= b'.cx <= |row.text|
    requires b'.modified && b'.filename == b.filename
    ensures ValidBuffer(b')
    ensures var start := OffsetOf(b) - b.cx;
            Edited(b, b', start + at, del, ins, start + b'.cx)
  {
    var ts := Texts(b.rows);
    EditLine(ts, b.cy, at, del, ins);
    assert Texts(b'.rows) == ts[b.cy := Splice(ts[b.cy], at, del, ins)];
  }

  method InsertChar(b: Buffer, c: char) returns (b': Buffer)
    requires ValidBuffer(b) && c != '\n'
    ensures ValidBuffer(b') && Edited(b, b', OffsetOf(b), 0, [c], OffsetOf(b) + 1)
  {
    var row := Ensure(b.rows[b.cy], |b.rows[b.cy].text| + 2);
    row := row.(text := Splice(row.text, b.cx, 0, [c]));
    b' := b.(rows := b.rows[b.cy := row], cx := b.cx + 1, modified := true);
    RowEdited(b, b', row, b.cx, 0, [c]);
  }

  method InsertNewline(b: Buffer) returns (b': Buffer)
    requires ValidBuffer(b)
    ensures ValidBuffer(b') && Edited(b, b', OffsetOf(b), 0, "\n", OffsetOf(b) + 1)
  {
    var row := b.rows[b.cy];
    var next := Row("", 128);
    if |row.text| - b.cx > 0 {
      next := Ensure(next, |row.text| - b.cx + 1);
      next := next.(text := row.text[b.cx..]);
      row := row.(text := row.text[..b.cx]);
    }
    assert row.text == b.rows[b.cy].text[..b.cx] && next.text == b.rows[b.cy].text[b.cx..];
    b' := b.(rows := b.rows[..b.cy] + [row, next] + b.rows[b.cy + 1..], cy := b.cy + 1, cx := 0, modified := true);
    RowSplit(b, b', row, next);
  }

  lemma RowSplit(b: Buffer, b': Buffer, row: Row, next: Row)
    requires ValidBuffer(b) && ValidRow(row) && ValidRow(next)
    requires row.text == b.rows[b.cy].text[..b.cx] && next.text == b.rows[b.cy].text[b.cx..]
    requires b' == b.(rows := b.rows[..b.cy] + [row, next] + b.rows[b.cy + 1..], cy := b.cy + 1, cx := 0,
               modified := true)
    ensures ValidBuffer(b') && Edited(b, b', OffsetOf(b), 0, "\n", OffsetOf(b) + 1)
  {
    var ts := Texts(b.rows);
    TextsSplit(b.rows, b.cy, b.cx, row, next);
    SplitIsSplice(ts, b.cy, b.cx);
    assert b'.rows[b'.cy] == next;
    forall k | 0 <= k < |b'.rows|
      ensures ValidRow(b'.rows[k])
    {
      assert k > b.cy + 1 ==> b'.rows[k] == b.rows[k - 1];
    }
  }

  lemma TextsSplit(rows: seq<Row>, k: nat, at: nat, row: Row, next: Row)
    requires k < |rows| && at <= |rows[k].text| && row.text == rows[k].text[..at] && next.text == rows[k].text[at..]
    ensures Texts(rows[..k] + [row, next] + rows[k + 1..]) == SplitLine(Texts(rows), k, at)
  {
  }

  lemma RowsJoined(b: Buffer, b': Buffer, k: nat)
    requires ValidBuffer(b) && ValidRows(b'.rows) && k + 1 < |b.rows|
    requires (b.cy == k && b.cx == |b.rows[k].text|) || (b.cy == k + 1 && b.cx == 0)
    requires Texts(b'.rows) == JoinLines(Texts(b.rows), k)
    requires b' == b.(rows := b'.rows, cy := k, cx := |b.rows[k].text|, modified := true)
    ensures ValidBuffer(b')
    ensures var at := Offset(Texts(b.rows), k, |b.rows[k].text|);
            at == (if b.cy == k then OffsetOf(b) else OffsetOf(b) - 1) && Edited(b, b', at, 1, "", at)
  {
    JoinIsSplice(Texts(b.rows), k);
    assert b'.rows[k].text == Texts(b'.rows)[k];
  }

  // Row k absorbs the row after it.
  method JoinRows(rows: seq<Row>, k: nat) returns (rows': seq<Row>)
    requires ValidRows(rows) && k + 1 < |rows|
    ensures ValidRows(rows') && Texts(rows') == JoinLines(Texts(rows), k)
  {
    var row := Ensure(rows[k], |rows[k].text| + |rows[k + 1].text| + 1);
    row := row.(text := row.text + rows[k + 1].text);
    rows' := rows[..k] + [row] + rows[k + 2..];
  }

  // Deletes the character at a column of the cursor's row, leaving the cursor there.
  method DeleteInRow(b: Buffer, at: nat) returns (b': Buffer)
    requires ValidBuffer(b) && at < |b.rows[b.cy].text|
    ensures ValidBuffer(b')
    ensures var start := OffsetOf(b) - b.cx;
            Edited(b, b', start + at, 1, "", start + at)
  {
    var row := b.rows[b.cy];
    row := row.(text := Splice(row.text, at, 1, ""));
    b' := b.(rows := b.rows[b.cy := row], cx := at, modified := true);
    RowEdited(b, b', row, at, 1, "");
  }

  method DeleteChar(b: Buffer) returns (b': Buffer)
    requires ValidBuffer(b)
    ensures ValidBuffer(b')
    ensures if OffsetOf(b) > 0 then Edited(b, b', OffsetOf(b) - 1, 1, "", OffsetOf(b) - 1) else b' == b
  {
    OffsetWithin(b);
    b' := b;
    if b.cx > 0 {
      b' := DeleteInRow(b, b.cx - 1);
    } else if b.cy > 0 {
      var rows := JoinRows(b.rows, b.cy - 1);
      b' := b.(rows := rows, cy := b.cy - 1, cx := |b.rows[b.cy - 1].text|, modified := true);
      RowsJoined(b, b', b.cy - 1);
    }
  }

  method DeleteForward(b: Buffer) returns (b': Buffer)
    requires ValidBuffer(b)
    ensures ValidBuffer(b')
    ensures if OffsetOf(b) < |TextOf(b)| then Edited(b, b', OffsetOf(b), 1, "", OffsetOf(b)) else b' == b
  {
    OffsetWithin(b);
    b' := b;
    if b.cx < |b.rows[b.cy].text| {
      b' := DeleteInRow(b, b.cx);
    } else if b.cy < |b.rows| - 1 {
      var rows := JoinRows(b.rows, b.cy);
      b' := b.(rows := rows, modified := true);
      RowsJoined(b, b', b.cy);
    }
  }

  method InsertTwoSpaces(b: Buffer) returns (b': Buffer)
    requires ValidBuffer(b)
    ensures ValidBuffer(b') && Edited(b, b', OffsetOf(b), 0, "  ", OffsetOf(b) + 2)
  {
    var b1 := InsertChar(b, ' ');
    b' := InsertChar(b1, ' ');
    EditsCompose(b, b1, b', " ", " ");
  }

  // Four spaces.
  method InsertTab(b: Buffer) returns (b': Buffer)
    requires ValidBuffer(b)
    ensures ValidBuffer(b') && Edited(b, b', OffsetOf(b), 0, "    ", OffsetOf(b) + 4)
  {
    var b1 := InsertTwoSpaces(b);
    b' := InsertTwoSpaces(b1);
    EditsCompose(b, b1, b', "  ", "  ");
  }

  // ------------------------------------------------------------------
  // Search and replace
  // ------------------------------------------------------------------

  predicate Matches(text: string, pat: string, x: int) {
    0 <= x && x + |pat| <= |text| && text[x..x + |pat|] == pat
  }

  /** The pattern stands at column x of row y. */
  predicate Occurs(rows: seq<Row>, pat: string, y: int, x: int) {
    0 <= y < |rows| && Matches(rows[y].text, pat, x)
  }

  predicate Earlier(y: int, x: int, y': int, x': int) {
    y < y' || (y == y' && x < x')
  }

  /** (y, x) is the cyclically first occurrence strictly after the cursor, the
      cursor's own position coming last. */
  ghost predicate NextOccurrence(b: Buffer, pat: string, y: int, x: int) {
    && Occurs(b.rows, pat, y, x)
    && if Earlier(b.cy, b.cx, y, x)
       then forall v, u :: Occurs(b.rows, pat, v, u) && Earlier(b.cy, b.cx, v, u) ==> !Earlier(v, u, y, x)
       else forall v, u :: Occurs(b.rows, pat, v, u) ==> !Earlier(b.cy, b.cx, v, u) && !Earlier(v, u, y, x)
  }

  // The least column from..to where the pattern matches, or -1.
  method ScanRow(row: Row, pat: string, from: nat, to: int) returns (j: int)
    requires to <= |row.text| - |pat|
    ensures j == -1 || (from <= j <= to && Matches(row.text, pat, j))
    ensures forall k :: from <= k <= to && (j == -1 || k < j) ==> !Matches(row.text, pat, k)
  {
    j := from;
    while j <= to
      invariant from <= j
      invariant forall k :: from <= k <= to && k < j ==> !Matches(row.text, pat, k)
    {
      if row.text[j..j + |pat|] == pat {
        return;
      }
      j := j + 1;
    }
    j := -1;
  }

  method Search(b: Buffer, pat: string) returns (b': Buffer)
    requires ValidBuffer(b)
    ensures ValidBuffer(b') && b' == b.(cy := b'.cy, cx := b'.cx)
    ensures pat == "" || (forall y, x :: !Occurs(b.rows, pat, y, x)) ==> b' == b
    ensures pat != "" && (exists y, x :: Occurs(b.rows, pat, y, x)) ==> NextOccurrence(b, pat, b'.cy, b'.cx)
  {
    if |pat| == 0 {
      return b;
    }
    var i := b.cy;
    while i < |b.rows|
      invariant b.cy <= i <= |b.rows|
      invariant forall y, x :: Occurs(b.rows, pat, y, x) && Earlier(b.cy, b.cx, y, x) ==> y >= i
    {
      var start := if i == b.cy then b.cx + 1 else 0;
      var j := ScanRow(b.rows[i], pat, start, |b.rows[i].text| - |pat|);
      if j >= 0 {
        assert Occurs(b.rows, pat, i, j);
        return b.(cy := i, cx := j);
      }
      i := i + 1;
    }
    i := 0;
    while i <= b.cy
      invariant 0 <= i <= b.cy + 1
      invariant forall y, x :: Occurs(b.rows, pat, y, x) ==> !Earlier(b.cy, b.cx, y, x) && y >= i
    {
      var end := if i == b.cy then b.cx else |b.rows[i].text| - |pat|;
      if end > |b.rows[i].text| - |pat| {
        end := |b.rows[i].text| - |pat|;
      }
      var j := ScanRow(b.rows[i], pat, 0, end);
      if j >= 0 {
        assert Occurs(b.rows, pat, i, j);
        return b.(cy := i, cx := j);
      }
      i := i + 1;
    }
    return b;
  }

  method ReplaceAtCursor(b: Buffer, pat: string, rep: string) returns (b': Buffer)
    requires ValidBuffer(b) && '\n' !in rep
    ensures ValidBuffer(b')
    ensures if pat != "" && Occurs(b.rows, pat, b.cy, b.cx)
            then Edited(b, b', OffsetOf(b), |pat|, rep, OffsetOf(b) + |rep|)
            else b' == b
  {
    b' := b;
    var row := b.rows[b.cy];
    if |pat| == 0 || b.cx + |pat| > |row.text| || row.text[b.cx..b.cx + |pat|] != pat {
      return;
    }
    if |rep| > |pat| {
      row := Ensure(row, |row.text| + (|rep| - |pat|) + 1);
    }
    row := row.(text := Splice(row.text, b.cx, |pat|, rep));
    b' := b.(rows := b.rows[b.cy := row], cx := b.cx + |rep|, modified := true);
    RowEdited(b, b', row, b.cx, |pat|, rep);
  }
}
