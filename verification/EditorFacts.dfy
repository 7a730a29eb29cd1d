// What a key means to the user: where a save goes, when the editor stops, where the
// cursor and the tabs go.
module EditorFacts {
  import opened Arithmetic
  import opened FlatText
  import opened EditBuffer
  import opened EditorStep

  // ------------------------------------------------------------------
  // Saving
  // ------------------------------------------------------------------

  predicate IsReturn(key: int) { key == 13 || key == 10 }

  /** The name a key saves the current tab under, empty when it saves nothing: Ctrl-S, the
      commands save, save-quit and save with a name, and the prompt for a name. */
  function SaveName(s: State, key: int): string
    requires 0 <= s.cur < |s.tabs|
  {
    if s.mode == Edit && key == 19 then Current(s).filename
    else if s.mode == SaveAs && IsReturn(key) then s.prompt
    else if s.mode == Command && IsReturn(key) then
      if s.prompt == "save" || s.prompt == "save-quit" then Current(s).filename
      else if "save " <= s.prompt then s.prompt[5..] else ""
    else ""
  }

  /** The file holds the whole text, the tab its name and no mark. */
  predicate Written(s: State, name: string, t: State)
    requires ValidState(s)
  {
    && t.files == s.files[name := TextOf(Current(s))]
    && t.tabs == s.tabs[s.cur := Current(s).(filename := name, modified := false)] && t.cur == s.cur
  }

  lemma SavedWrites(s: State, writable: bool)
    requires ValidState(s)
    ensures var name := Current(s).filename;
            if writable && name != "" then Written(s, name, Saved(s, writable)) else Saved(s, writable) == s
  {
    assert Current(s).(filename := Current(s).filename) == Current(s);
  }

  lemma NamedThenSaved(s: State, name: string, writable: bool)
    requires ValidState(s)
    ensures var t := Saved(Named(s, name), writable);
            if writable && name != "" then Written(s, name, t)
            else t.files == s.files && Current(t) == Current(s).(filename := name)
  {
  }

  /** The words of the commands, and what follows those that take an argument. */
  predicate Spells(c: string, order: Order) {
    && (order == Quit <==> c == "quit") && (order == ForceQuit <==> c == "quit!")
    && (order == SaveIt <==> c == "save") && (order == SaveAndQuit <==> c == "save-quit")
    && (order.SaveTo? <==> "save " <= c) && (order.SaveTo? ==> order.name == c[5..])
    && (order.OpenFile? <==> "open " <= c) && (order.OpenFile? ==> order.path == c[5..])
    && (order.GotoNumber? <==> "goto " <= c) && (order.GotoNumber? ==> order.digits == c[5..])
  }

  lemma OrderSpelled(c: string)
    ensures Spells(c, OrderOf(c))
  {
    if "save " <= c {
      assert c[0] == "save "[0] && c[4] == "save "[4];
    } else if "open " <= c {
      assert c[0] == "open "[0];
    } else if "goto " <= c {
      assert c[0] == "goto "[0];
    }
  }

  lemma OrderSaves(s: State, c: string, order: Order, writable: bool, t: State)
    requires ValidState(s) && ValidState(t) && s.mode == Command && s.prompt == c && Spells(c, order)
    requires CommandStep(s.(mode := Edit), order, writable, t)
    ensures var name := SaveName(s, 13);
            if writable && name != "" then Written(s, name, t)
            else t.files == s.files && (|t.tabs| == |s.tabs| ==> t.tabs[s.cur].modified == Current(s).modified)
  {
    var u := s.(mode := Edit);
    SavedWrites(u, writable);
    if order.SaveTo? {
      NamedThenSaved(u, c[5..], writable);
    }
  }

  lemma EditSaves(s: State, key: int, writable: bool, page: int, t: State)
    requires ValidState(s) && s.mode == Edit && KeyStep(s, key, writable, page, t)
    ensures var name := SaveName(s, key);
            if writable && name != "" then Written(s, name, t) else t.files == s.files
  {
    if key == 19 {
      SavedWrites(s.(quits := 0), writable);
    }
  }

  lemma PromptSaves(s: State, key: int, writable: bool, page: int, t: State)
    requires ValidState(s) && s.mode != Edit && KeyStep(s, key, writable, page, t)
    ensures var name := SaveName(s, key);
            if writable && name != "" then Written(s, name, t) else t.files == s.files
  {
    if s.mode == Command && IsReturn(key) {
      OrderSpelled(s.prompt);
      OrderSaves(s, s.prompt, OrderOf(s.prompt), writable, t);
    } else if s.mode == SaveAs && IsReturn(key) {
      NamedThenSaved(s.(mode := Edit), s.prompt, writable);
    }
  }

  /** Exactly the keys that save, on a file that can be written, change the files: the file
      of that name then holds the current text, and the tab its name and no mark. */
  lemma SavesExactly(s: State, key: int, writable: bool, page: int, t: State)
    requires ValidState(s) && KeyStep(s, key, writable, page, t)
    ensures var name := SaveName(s, key);
            if writable && name != "" then Written(s, name, t) else t.files == s.files
  {
    if s.mode == Edit {
      EditSaves(s, key, writable, page, t);
    } else {
      PromptSaves(s, key, writable, page, t);
    }
  }

  lemma MarkAfterEdit(s: State, key: int, writable: bool, page: int, t: State)
    requires ValidState(s) && s.mode == Edit && KeyStep(s, key, writable, page, t) && |t.tabs| == |s.tabs|
    requires Current(s).modified && !t.tabs[s.cur].modified
    ensures key == 19 && writable && Current(s).filename != ""
  {
  }

  lemma MarkAfterReplace(b: Buffer, pat: string, rep: string, b': Buffer)
    requires SearchedAndReplaced(b, pat, rep, b') && b.modified
    ensures b'.modified
  {
  }

  lemma MarkAfterPrompt(s: State, key: int, writable: bool, page: int, t: State)
    requires ValidState(s) && s.mode != Edit && KeyStep(s, key, writable, page, t) && |t.tabs| == |s.tabs|
    requires Current(s).modified && !t.tabs[s.cur].modified
    ensures IsReturn(key) && (s.mode == Command || s.mode == SaveAs) && writable && SaveName(s, key) != ""
  {
    if IsReturn(key) && s.mode == ReplaceWith {
      MarkAfterReplace(Current(s), s.search, s.prompt, Current(t));
    } else if IsReturn(key) && s.mode == Command {
      OrderSpelled(s.prompt);
      OrderSaves(s, s.prompt, OrderOf(s.prompt), writable, t);
    }
  }

  /** A tab loses its mark only when its whole text has gone to the file of its name. */
  lemma MarkMeansUnsaved(s: State, key: int, writable: bool, page: int, t: State, k: nat)
    requires ValidState(s) && KeyStep(s, key, writable, page, t)
    requires k < |s.tabs| == |t.tabs| && s.tabs[k].modified && !t.tabs[k].modified
    ensures t.tabs[k].filename in t.files && t.files[t.tabs[k].filename] == TextOf(s.tabs[k])
    ensures k == s.cur && t.tabs[k].rows == s.tabs[k].rows
  {
    KeyKeeps(s, key, writable, page, t);
    SavesExactly(s, key, writable, page, t);
    if s.mode == Edit {
      MarkAfterEdit(s, key, writable, page, t);
    } else {
      MarkAfterPrompt(s, key, writable, page, t);
    }
  }

  // ------------------------------------------------------------------
  // Stopping
  // ------------------------------------------------------------------

  /** The keys that stop the editor. */
  predicate Stops(s: State, key: int, writable: bool)
    requires 0 <= s.cur < |s.tabs|
  {
    if s.mode == Edit then
      (key == 17 && (s.quits > 0 || !Current(s).modified)) || (key == 23 && |s.tabs| == 1)
    else
      s.mode == Command && IsReturn(key) &&
      (s.prompt == "quit!" || (s.prompt == "quit" && !Current(s).modified)
       || (s.prompt == "save-quit" && writable && Current(s).filename != ""))
  }

  lemma StopsExactly(s: State, key: int, writable: bool, page: int, t: State)
    requires ValidState(s) && KeyStep(s, key, writable, page, t)
    ensures t.running <==> s.running && !Stops(s, key, writable)
  {
    if s.mode == Command && IsReturn(key) {
      OrderSpelled(s.prompt);
    }
  }

  // ------------------------------------------------------------------
  // Typing and moving, on the text as one string
  // ------------------------------------------------------------------

  /** The cursor's line lies in the text between two newlines or ends. */
  lemma LineInText(b: Buffer)
    requires ValidBuffer(b)
    ensures var s, at, line := TextOf(b), OffsetOf(b), b.rows[b.cy].text;
            var first, last := at - b.cx, at - b.cx + |line|;
            && 0 <= first <= at <= last <= |s| && s[first..last] == line
            && (first == 0 || s[first - 1] == '\n') && (last == |s| || s[last] == '\n')
  {
    var lines := Texts(b.rows);
    FlatAround(lines, b.cy);
    EndsInNewline(lines, b.cy);
    Between(Before(lines, b.cy), lines[b.cy], From(lines, b.cy + 1));
  }

  lemma EndsInNewline(lines: seq<string>, k: nat)
    requires k < |lines|
    ensures var before, after := Before(lines, k), From(lines, k + 1);
            (before == "" || before[|before| - 1] == '\n') && (after == "" || after[0] == '\n')
  {
  }

  lemma Between(before: string, line: string, after: string)
    requires before == "" || before[|before| - 1] == '\n'
    requires after == "" || after[0] == '\n'
    ensures var s, first, last := before + line + after, |before|, |before| + |line|;
            && s[first..last] == line && (first == 0 || s[first - 1] == '\n')
            && (last == |s| || s[last] == '\n')
  {
  }

  /** A line's start, the nearest one at or before an offset. */
  predicate StartOfLine(s: string, at: int, o: int) {
    0 <= o <= at <= |s| && (o == 0 || s[o - 1] == '\n') && '\n' !in s[o..at]
  }

  predicate EndOfLine(s: string, at: int, o: int) {
    0 <= at <= o <= |s| && (o == |s| || s[o] == '\n') && '\n' !in s[at..o]
  }

  predicate MovedInLine(key: int, text: string, at: int, o: int) {
    && 0 <= at <= |text|
    && (key == 1103 ==> o == if at > 0 && text[at - 1] != '\n' then at - 1 else at)
    && (key == 1102 ==> o == if at < |text| && text[at] != '\n' then at + 1 else at)
    && (key == 1000 ==> StartOfLine(text, at, o)) && (key == 1004 ==> EndOfLine(text, at, o))
  }

  lemma SameLine(key: int, text: string, at: int, x: int, line: string)
    requires 0 <= x <= |line| && 0 <= at - x && at - x + |line| <= |text| && '\n' !in line
    requires text[at - x..at - x + |line|] == line
    requires at - x == 0 || text[at - x - 1] == '\n'
    requires at - x + |line| == |text| || text[at - x + |line|] == '\n'
    ensures var y := if key == 1103 then Max(x - 1, 0) else if key == 1102 then Min(x + 1, |line|)
                     else if key == 1000 then 0 else |line|;
            MovedInLine(key, text, at, at - x + y)
  {
    var first := at - x;
    assert forall k :: first <= k < first + |line| ==> text[k] == text[first..first + |line|][k - first];
  }

  lemma MovedKeepsLine(b: Buffer, key: int, page: int)
    requires ValidBuffer(b) && key in {1103, 1102, 1000, 1004}
    ensures var c, len := Moved(b, key, page), |b.rows[b.cy].text|;
            && c.rows == b.rows && c.cy == b.cy && ValidBuffer(c)
            && c.cx == if key == 1103 then Max(b.cx - 1, 0) else if key == 1102 then Min(b.cx + 1, len)
                       else if key == 1000 then 0 else len
  {
  }

  lemma OffsetInRow(b: Buffer, c: Buffer)
    requires ValidBuffer(b) && ValidBuffer(c) && c.rows == b.rows && c.cy == b.cy
    ensures TextOf(c) == TextOf(b) && OffsetOf(c) - c.cx == OffsetOf(b) - b.cx
  {
  }

  lemma MovedWithin(b: Buffer, c: Buffer, key: int, page: int)
    requires ValidBuffer(b) && key in {1103, 1102, 1000, 1004} && c == Moved(b, key, page)
    ensures ValidBuffer(c) && TextOf(c) == TextOf(b)
    ensures MovedInLine(key, TextOf(b), OffsetOf(b), OffsetOf(c))
  {
    MovedKeepsLine(b, key, page);
    LineInText(b);
    OffsetInRow(b, c);
    SameLine(key, TextOf(b), OffsetOf(b), b.cx, b.rows[b.cy].text);
  }

  /** Left and right stay within the line; home and end go to its ends. */
  lemma MovesInLine(s: State, key: int, writable: bool, page: int, t: State)
    requires ValidState(s) && s.mode == Edit && KeyStep(s, key, writable, page, t)
    requires key in {1103, 1102, 1000, 1004}
    ensures t.cur == s.cur && TextOf(Current(t)) == TextOf(Current(s))
    ensures MovedInLine(key, TextOf(Current(s)), OffsetOf(Current(s)), OffsetOf(Current(t)))
  {
    MovedWithin(Current(s), Current(t), key, page);
  }

  /** Up, down and the page keys change the row within the text; the column stays, or the
      line's end when it is shorter. */
  lemma MovesBetweenLines(s: State, key: int, writable: bool, page: int, t: State)
    requires ValidState(s) && s.mode == Edit && KeyStep(s, key, writable, page, t) && page >= 0
    requires key in {1100, 1101, 1005, 1006}
    ensures t.cur == s.cur
    ensures var b, c, down := Current(s), Current(t), if key == 1100 || key == 1101 then 1 else page;
            && c == b.(cy := c.cy, cx := Min(b.cx, |b.rows[c.cy].text|))
            && c.cy == if key == 1100 || key == 1005 then Max(b.cy - down, 0) else Min(b.cy + down, |b.rows| - 1)
  {
  }

  /** What each editing key does to the text and the offset. */
  function TypedText(key: int, s: string, at: nat): (r: (string, int))
    requires at <= |s|
  {
    if key == 13 || key == 10 then (s[..at] + "\n" + s[at..], at + 1)
    else if key == 9 then (s[..at] + "    " + s[at..], at + 4)
    else if key == 8 || key == 127 then (if at == 0 then (s, 0) else (s[..at - 1] + s[at..], at - 1))
    else if key == 1003 then (if at == |s| then (s, at) else (s[..at] + s[at + 1..], at))
    else if 32 <= key < 127 then (s[..at] + [key as char] + s[at..], at + 1)
    else (s, at)
  }

  lemma FlatAsText(key: int, text: string, at: nat)
    requires at <= |text|
    ensures FlatStep(key, text, at) == TypedText(key, text, at)
  {
    if at > 0 {
      assert text[..at - 1] + "" + text[at..] == text[..at - 1] + text[at..];
    }
    if at < |text| {
      assert text[..at] + "" + text[at + 1..] == text[..at] + text[at + 1..];
    }
  }

  lemma TypesAsText(s: State, key: int, writable: bool, page: int, t: State)
    requires ValidState(s) && s.mode == Edit && KeyStep(s, key, writable, page, t)
    requires key in {8, 9, 10, 13, 127, 1003} || 32 <= key < 127
    ensures t.cur == s.cur
    ensures (TextOf(Current(t)), OffsetOf(Current(t))) == TypedText(key, TextOf(Current(s)), OffsetOf(Current(s)))
  {
    TypedIsFlatStep(key, Current(s), Current(t));
    FlatAsText(key, TextOf(Current(s)), OffsetOf(Current(s)));
  }

  // ------------------------------------------------------------------
  // Tabs and prompts
  // ------------------------------------------------------------------

  /** A new empty tab comes last, up to eight; a closed one leaves the others in order, and
      the next one current; two keys go to the neighbours. */
  lemma TabKeys(s: State, key: int, writable: bool, page: int, t: State)
    requires ValidState(s) && s.mode == Edit && KeyStep(s, key, writable, page, t)
    ensures var n, c := |s.tabs|, s.cur;
            && (key == 20 && n < 8 ==> t.tabs[..|t.tabs| - 1] == s.tabs && t.cur == n && TextOf(Current(t)) == "")
            && (key == 20 && n == 8 ==> t.tabs == s.tabs && t.cur == c)
            && (key == 23 && n > 1 ==>
                  t.tabs == s.tabs[..c] + s.tabs[c + 1..] && t.cur == if c == n - 1 then c - 1 else c)
            && (key == 14 ==> t.tabs == s.tabs && t.cur == if c == n - 1 then c else c + 1)
            && (key == 2 ==> t.tabs == s.tabs && t.cur == if c == 0 then 0 else c - 1)
  {
  }

  /** The keys that open a prompt, empty, and the mode it has. */
  lemma PromptKeys(s: State, key: int, writable: bool, page: int, t: State)
    requires ValidState(s) && s.mode == Edit && KeyStep(s, key, writable, page, t)
    ensures t.mode != Edit <==> key in {6, 18, 7, 16} || (key == 19 && Current(s).filename == "")
    ensures t.mode != Edit ==> t.prompt == "" && t.tabs == s.tabs && t.cur == s.cur
    ensures (key == 6 ==> t.mode == Mode.Search) && (key == 18 ==> t.mode == Mode.Replace)
    ensures (key == 7 ==> t.mode == Goto) && (key == 16 ==> t.mode == Command)
    ensures key == 19 && Current(s).filename == "" ==> t.mode == SaveAs
  {
  }

  // ------------------------------------------------------------------
  // Numbers
  // ------------------------------------------------------------------

  /** The usual decimal text of a number. */
  function DecimalText(n: nat): (r: string)
    ensures r != ""
  {
    var digit := [('0' as int + n % 10) as char];
    if n < 10 then digit else DecimalText(n / 10) + digit
  }

  lemma {:induction false} DecimalReadBack(n: nat)
    ensures Decimal(DecimalText(n)) == n
  {
    var digit := [('0' as int + n % 10) as char];
    if n >= 10 {
      DecimalReadBack(n / 10);
      var text := DecimalText(n / 10) + digit;
      assert text[..|text| - 1] == DecimalText(n / 10);
    } else {
      assert digit[..0] == "" && Decimal("") == 0;
    }
  }

  predicate IsDigit(c: char) { '0' <= c <= '9' }

  /** Characters that are no digits do not count, wherever they stand. */
  lemma {:induction false} OthersSkipped(a: string, c: char, b: string)
    requires !IsDigit(c)
    ensures Decimal(a + [c] + b) == Decimal(a + b)
    decreases |b|
  {
    var s, t := a + [c] + b, a + b;
    if b == "" {
      assert s[..|s| - 1] == a && t == a;
    } else {
      var front := b[..|b| - 1];
      OthersSkipped(a, c, front);
      assert s[..|s| - 1] == a + [c] + front && t[..|t| - 1] == a + front;
    }
  }
}
