// What one key does to the editor: a state, and a step between two of them.
module EditorStep {
  import opened Arithmetic
  import opened FlatText
  import opened EditBuffer
  import opened FileText

  const MAX_TABS: nat := 8
  const MAX_CMD: nat := 256

  const CTRL_B: int := 2
  const CTRL_F: int := 6
  const CTRL_G: int := 7
  const BACKSPACE: int := 8
  const TAB: int := 9
  const NEWLINE: int := 10
  const RETURN: int := 13
  const CTRL_N: int := 14
  const CTRL_P: int := 16
  const CTRL_Q: int := 17
  const CTRL_R: int := 18
  const CTRL_S: int := 19
  const CTRL_T: int := 20
  const CTRL_W: int := 23
  const ESCAPE: int := 27
  const RUBOUT: int := 127
  const HOME: int := 1000
  const DELETE: int := 1003
  const END: int := 1004
  const PAGE_UP: int := 1005
  const PAGE_DOWN: int := 1006
  const UP: int := 1100
  const DOWN: int := 1101
  const RIGHT: int := 1102
  const LEFT: int := 1103

  datatype Mode = Edit | Search | Replace | ReplaceWith | Goto | Command | SaveAs

  predicate IsPrintable(key: int) {
    32 <= key < 127
  }

  predicate Printable(s: string) {
    |s| < MAX_CMD && forall k :: 0 <= k < |s| ==> ' ' <= s[k] <= '~'
  }

  predicate IsMove(key: int) {
    key in {UP, DOWN, RIGHT, LEFT, HOME, END, PAGE_UP, PAGE_DOWN}
  }

  /** 32-bit two's-complement wrap-around. */
  function Int32(x: int): int {
    (x + 0x8000_0000) % 0x1_0000_0000 - 0x8000_0000
  }

  // ------------------------------------------------------------------
  // The state
  // ------------------------------------------------------------------

  datatype State = State(tabs: seq<Buffer>, cur: int, running: bool, mode: Mode, prompt: string, search: string,
                         replace: string, quits: int, files: map<string, string>)

  /** Between 1 and 8 well-formed tabs, printable prompts, and a pending quit only while
      the current tab has unsaved changes. */
  predicate ValidState(s: State) {
    && 1 <= |s.tabs| <= MAX_TABS && 0 <= s.cur < |s.tabs|
    && (forall k :: 0 <= k < |s.tabs| ==> ValidBuffer(s.tabs[k]))
    && Printable(s.prompt) && Printable(s.search) && Printable(s.replace)
    && (s.quits == 0 || (s.quits == 1 && s.mode == Edit && s.tabs[s.cur].modified))
  }

  const EMPTY: Buffer := Buffer([Row("", 128)], 0, 0, false, "")

  function Current(s: State): Buffer
    requires 0 <= s.cur < |s.tabs|
  {
    s.tabs[s.cur]
  }

  function WithCurrent(s: State, b: Buffer): State
    requires 0 <= s.cur < |s.tabs|
  {
    s.(tabs := s.tabs[s.cur := b])
  }

  function Named(s: State, name: string): State
    requires 0 <= s.cur < |s.tabs|
  {
    WithCurrent(s, Current(s).(filename := name))
  }

  // Whether a save can go ahead; `writable` is whether the file opens.
  predicate CanSave(s: State, writable: bool)
    requires 0 <= s.cur < |s.tabs|
  {
    writable && Current(s).filename != ""
  }

  /** The flat text goes to the file of the buffer's name. */
  function Saved(s: State, writable: bool): State
    requires 0 <= s.cur < |s.tabs| && ValidBuffer(Current(s))
  {
    var b := Current(s);
    if CanSave(s, writable) then WithCurrent(s, b.(modified := false)).(files := s.files[b.filename := TextOf(b)])
        else s
  }

  function AtLine(s: State, line: int): State
    requires 0 <= s.cur < |s.tabs|
  {
    WithCurrent(s, Current(s).(cy := line - 1, cx := 0))
  }

  // A tab loaded from a path, unless there are eight already.
  ghost predicate Opened(s: State, path: string, t: State) {
    if |s.tabs| >= MAX_TABS then t == s
    else
      && |t.tabs| == |s.tabs| + 1 && t.tabs[..|s.tabs|] == s.tabs && t == s.(tabs := t.tabs, cur := |s.tabs|)
      && LoadedFrom(t.tabs[|s.tabs|], path, s.files)
  }

  ghost predicate LoadedFrom(b: Buffer, path: string, files: map<string, string>) {
    && ValidBuffer(b) && !b.modified && b.cx == b.cy == 0 && b.filename == path[..Min(|path|, 255)]
    && Texts(b.rows) == if path in files then LoadedLines(files[path]) else [""]
  }

  // ------------------------------------------------------------------
  // Numbers in prompts
  // ------------------------------------------------------------------

  /** The digits of a text as a decimal number; everything else is skipped. */
  function Decimal(s: string): nat {
    if s == "" then 0
    else
      var n, c := Decimal(s[..|s| - 1]), s[|s| - 1];
      if '0' <= c <= '9' then n * 10 + (c as int - '0' as int) else n
  }

  /** Wrapping at every digit is wrapping once. */
  lemma WrapOnce(n: int, d: int)
    ensures Int32(Int32(n) * 10 + d) == Int32(n * 10 + d)
  {
    var k := (n + 0x8000_0000) / 0x1_0000_0000;
    assert Int32(n) == n - k * 0x1_0000_0000;
  }

  // ------------------------------------------------------------------
  // Typing
  // ------------------------------------------------------------------

  /** The keys that edit text. */
  predicate IsTyping(key: int) {
    IsPrintable(key) || key in {RETURN, NEWLINE, RUBOUT, BACKSPACE, DELETE, TAB}
  }

  /** Each typing key is one splice of the flat text at the cursor's offset, or
      nothing at the very start or end. */
  predicate Typed(key: int, b: Buffer, b': Buffer)
    requires ValidBuffer(b) && ValidBuffer(b')
  {
    var at := OffsetOf(b);
    if key == RETURN || key == NEWLINE then Edited(b, b', at, 0, "\n", at + 1)
    else if key == RUBOUT || key == BACKSPACE then (if at > 0 then Edited(b, b', at - 1, 1, "", at - 1) else b' == b)
    else if key == DELETE then (if at < |TextOf(b)| then Edited(b, b', at, 1, "", at) else b' == b)
    else if key == TAB then Edited(b, b', at, 0, "    ", at + 4)
    else IsPrintable(key) && Edited(b, b', at, 0, [key as char], at + 1)
  }

  /** A printable key or a newline, then backspace, restores lines and cursor. */
  lemma TypingThenBackspace(key: int, b0: Buffer, b1: Buffer, b2: Buffer)
    requires ValidBuffer(b0) && ValidBuffer(b1) && ValidBuffer(b2)
    requires IsPrintable(key) || key == RETURN || key == NEWLINE
    requires Typed(key, b0, b1) && Typed(BACKSPACE, b1, b2)
    ensures Texts(b2.rows) == Texts(b0.rows) && b2.cy == b0.cy && b2.cx == b0.cx
  {
    BackspaceUndoes(b0, b1, b2, if IsPrintable(key) then key as char else '\n');
  }

  predicate OnlyTyping(keys: seq<(int, bool)>) {
    forall k :: 0 <= k < |keys| ==> IsTyping(keys[k].0)
  }

  /** The editor a typing key drives when the text is one string and the cursor an offset. */
  function FlatStep(key: int, s: string, at: nat): (string, nat)
    requires at <= |s|
  {
    if key == RETURN || key == NEWLINE then (Splice(s, at, 0, "\n"), at + 1)
    else if key == RUBOUT || key == BACKSPACE then (if at > 0 then (Splice(s, at - 1, 1, ""), at - 1) else (s, at))
    else if key == DELETE then (if at < |s| then (Splice(s, at, 1, ""), at) else (s, at))
    else if key == TAB then (Splice(s, at, 0, "    "), at + 4)
    else if IsPrintable(key) then (Splice(s, at, 0, [key as char]), at + 1)
    else (s, at)
  }

  /** The first n keys of a run. */
  function FlatRun(keys: seq<(int, bool)>, n: nat, s: string, at: nat): (r: (string, nat))
    requires n <= |keys| && at <= |s|
    ensures r.1 <= |r.0|
  {
    if n == 0 then (s, at)
    else var (t, off) := FlatRun(keys, n - 1, s, at); FlatStep(keys[n - 1].0, t, off)
  }

  // ------------------------------------------------------------------
  // Moving and searching
  // ------------------------------------------------------------------

  // The row each key aims at, and the column within it before clamping.
  function Aim(b: Buffer, key: int, page: int): (int, int)
    requires ValidBuffer(b)
  {
    var last := |b.rows| - 1;
    if key == UP then (Max(b.cy - 1, 0), b.cx)
    else if key == DOWN then (Min(b.cy + 1, last), b.cx)
    else if key == RIGHT then (b.cy, b.cx + 1)
    else if key == LEFT then (b.cy, Max(b.cx - 1, 0))
    else if key == HOME then (b.cy, 0)
    else if key == END then (b.cy, |b.rows[b.cy].text|)
    else if key == PAGE_UP then (Min(Max(b.cy - page, 0), last), b.cx)
    else (Max(Min(b.cy + page, last), 0), b.cx)
  }

  function Moved(b: Buffer, key: int, page: int): Buffer
    requires ValidBuffer(b)
  {
    var (y, x) := Aim(b, key, page);
    if 0 <= y < |b.rows| then b.(cy := y, cx := Min(x, |b.rows[y].text|)) else b
  }

  /** The cursor is at the cyclically next occurrence, or where it was when there is none. */
  ghost predicate Searched(b: Buffer, pat: string, b': Buffer) {
    && ValidBuffer(b) && ValidBuffer(b') && b' == b.(cy := b'.cy, cx := b'.cx)
    && (pat == "" || (forall y, x :: !Occurs(b.rows, pat, y, x)) ==> b' == b)
    && (pat != "" && (exists y, x :: Occurs(b.rows, pat, y, x)) ==> NextOccurrence(b, pat, b'.cy, b'.cx))
  }

  /** Search then replace: the cyclically next occurrence becomes the replacement
      and nothing else changes; without an occurrence nothing changes at all. */
  ghost predicate SearchedAndReplaced(b: Buffer, pat: string, rep: string, b': Buffer) {
    && ValidBuffer(b) && ValidBuffer(b')
    && if pat == "" || forall y, x :: !Occurs(b.rows, pat, y, x) then b' == b
       else exists y, x :: NextOccurrence(b, pat, y, x) && ReplacedAt(b, y, x, |pat|, rep, b')
  }

  predicate ReplacedAt(b: Buffer, y: int, x: int, del: nat, rep: string, b': Buffer)
    requires ValidBuffer(b) && ValidBuffer(b')
  {
    var moved := b.(cy := y, cx := x);
    ValidBuffer(moved) && Edited(moved, b', OffsetOf(moved), del, rep, OffsetOf(moved) + |rep|)
  }

  lemma SearchReplaceMeets(b: Buffer, pat: string, rep: string, found: Buffer, b': Buffer)
    requires Searched(b, pat, found) && ValidBuffer(b')
    requires if pat != "" && Occurs(found.rows, pat, found.cy, found.cx)
             then Edited(found, b', OffsetOf(found), |pat|, rep, OffsetOf(found) + |rep|) else b' == found
    ensures SearchedAndReplaced(b, pat, rep, b')
  {
    if pat != "" && exists y, x :: Occurs(b.rows, pat, y, x) {
      assert ReplacedAt(b, found.cy, found.cx, |pat|, rep, b');
    }
  }

  // ------------------------------------------------------------------
  // The step
  // ------------------------------------------------------------------

  predicate HasPrefix(s: string, prefix: string) {
    prefix <= s
  }

  datatype Order = Quit | ForceQuit | SaveIt | SaveAndQuit | SaveTo(name: string) | OpenFile(path: string)
                 | GotoNumber(digits: string) | NoOrder

  /** The command a prompt spells. */
  function OrderOf(c: string): Order {
    if c == "quit" then Quit
    else if c == "quit!" then ForceQuit
    else if c == "save" then SaveIt
    else if c == "save-quit" then SaveAndQuit
    else if HasPrefix(c, "save ") then SaveTo(c[5..])
    else if HasPrefix(c, "open ") then OpenFile(c[5..])
    else if HasPrefix(c, "goto ") then GotoNumber(c[5..])
    else NoOrder
  }

  ghost predicate CommandStep(s: State, order: Order, writable: bool, t: State)
    requires ValidState(s)
  {
    match order
    case Quit => t == s.(running := s.running && Current(s).modified)
    case ForceQuit => t == s.(running := false)
    case SaveIt => t == Saved(s, writable)
    case SaveAndQuit => t == Saved(s, writable).(running := s.running && !CanSave(s, writable))
    case SaveTo(name) => t == Saved(Named(s, name), writable)
    case OpenFile(path) => Opened(s, path, t)
    case GotoNumber(digits) =>
      var line := Int32(Decimal(digits));
      t == if 1 <= line <= |Current(s).rows| then AtLine(s, line) else s
    case NoOrder => t == s
  }

  /** Return in a prompt: what was typed takes effect and the prompt closes, except that
      a search text to replace is followed by a prompt for the replacement. */
  ghost predicate ConfirmStep(s: State, writable: bool, t: State)
    requires ValidState(s) && s.mode != Edit && 0 <= t.cur < |t.tabs|
  {
    var u := s.(mode := Edit);
    if s.mode == Mode.Search then
      Searched(Current(s), s.prompt, Current(t)) && t == WithCurrent(u.(search := s.prompt), Current(t))
    else if s.mode == Mode.Replace then t == s.(search := s.prompt, mode := ReplaceWith, prompt := "")
    else if s.mode == ReplaceWith then
      SearchedAndReplaced(Current(s), s.search, s.prompt, Current(t)) &&
          t == WithCurrent(u.(replace := s.prompt), Current(t))
    else if s.mode == Goto then t == AtLine(u, Max(1, Min(Int32(Decimal(s.prompt)), |Current(s).rows|)))
    else if s.mode == Command then CommandStep(u, OrderOf(s.prompt), writable, t)
    else t == Saved(Named(u, s.prompt), writable)
  }

  ghost predicate PromptStep(s: State, key: int, writable: bool, t: State)
    requires ValidState(s) && s.mode != Edit && 0 <= t.cur < |t.tabs|
  {
    if key == ESCAPE then t == s.(mode := Edit)
    else if key == RETURN || key == NEWLINE then ConfirmStep(s, writable, t)
    else if key == RUBOUT || key == BACKSPACE then t == s.(prompt := s.prompt[..Max(|s.prompt| - 1, 0)])
    else if IsPrintable(key) && |s.prompt| < MAX_CMD - 1 then t == s.(prompt := s.prompt + [key as char])
    else t == s
  }

  function TabStep(s: State, key: int): State
    requires ValidState(s)
  {
    if key == CTRL_T then (if |s.tabs| < MAX_TABS then s.(tabs := s.tabs + [EMPTY], cur := |s.tabs|) else s)
    else if key == CTRL_W then
      if |s.tabs| == 1 then s.(running := false)
      else s.(tabs := s.tabs[..s.cur] + s.tabs[s.cur + 1..], cur := Min(s.cur, |s.tabs| - 2))
    else if key == CTRL_N then s.(cur := Min(s.cur + 1, |s.tabs| - 1))
    else s.(cur := Max(s.cur - 1, 0))
  }

  function Prompting(s: State, m: Mode): State {
    s.(mode := m, prompt := "")
  }

  ghost predicate EditStep(s: State, key: int, writable: bool, page: int, t: State)
    requires ValidState(s) && s.mode == Edit && 0 <= t.cur < |t.tabs|
  {
    var u := s.(quits := 0);
    if key == CTRL_Q then t == if Current(s).modified && s.quits == 0 then s.(quits := 1) else s.(running := false)
    else if key == CTRL_S then t == if Current(s).filename == "" then Prompting(u, SaveAs) else Saved(u, writable)
    else if key == CTRL_F then t == Prompting(u, Mode.Search)
    else if key == CTRL_R then t == Prompting(u, Mode.Replace)
    else if key == CTRL_G then t == Prompting(u, Goto)
    else if key == CTRL_P then t == Prompting(u, Command)
    else if key in {CTRL_T, CTRL_W, CTRL_N, CTRL_B} then t == TabStep(u, key)
    else if IsMove(key) then t == WithCurrent(u, Moved(Current(u), key, page))
    else if IsTyping(key) then
      ValidBuffer(Current(t)) && Typed(key, Current(u), Current(t)) && t == WithCurrent(u, Current(t))
    else t == u
  }

  /** A key other than Ctrl-Q acts as if no quit were pending; only a save asks whether its
      file can be written. */
  lemma WarningForgotten(s: State, key: int, writable: bool, page: int, t: State)
    requires ValidState(s) && s.mode == Edit && ValidState(t) && key != CTRL_Q
    requires EditStep(s.(quits := 0), key, if key == CTRL_S then writable else false, page, t)
    ensures EditStep(s, key, writable, page, t)
  {
  }

  /** One key, in whatever mode. */
  ghost predicate KeyStep(s: State, key: int, writable: bool, page: int, t: State)
    requires ValidState(s)
  {
    && ValidState(t)
    && if s.mode != Edit then PromptStep(s, key, writable, t) else EditStep(s, key, writable, page, t)
  }

  // ------------------------------------------------------------------
  // What every key keeps
  // ------------------------------------------------------------------

  /** The other tabs stay as they are; an opened tab comes last, and a closed one leaves
      the others in order. */
  ghost predicate TabsKept(s: State, t: State)
    requires ValidState(s)
  {
    && (|t.tabs| == |s.tabs| ==> forall k :: 0 <= k < |t.tabs| && k != s.cur ==> t.tabs[k] == s.tabs[k])
    && (|t.tabs| > |s.tabs| ==> t.tabs[..|t.tabs| - 1] == s.tabs)
    && (|t.tabs| < |s.tabs| ==> t.tabs == s.tabs[..s.cur] + s.tabs[s.cur + 1..])
  }

  /** Either no file changes or the current tab has been saved whole under its name. */
  ghost predicate FilesKept(s: State, writable: bool, t: State)
    requires ValidState(s) && ValidState(t)
  {
    t.files == s.files ||
      (writable && t.cur == s.cur && !Current(t).modified && Current(t).rows == Current(s).rows
       && t.files == s.files[Current(t).filename := TextOf(Current(t))])
  }

  predicate TextKept(s: State, t: State)
    requires ValidState(s)
  {
    |t.tabs| == |s.tabs| ==> t.tabs[s.cur].rows == Current(s).rows
  }

  lemma SaveKeeps(s: State, name: string, writable: bool)
    requires ValidState(s) && s.quits == 0
    ensures var t := Saved(Named(s, name), writable);
            ValidState(t) && TabsKept(s, t) && FilesKept(s, writable, t) && TextKept(s, t)
    ensures var t := Saved(s, writable); ValidState(t) && TabsKept(s, t) && FilesKept(s, writable, t) && TextKept(s, t)
  {
  }

  lemma OpenKeeps(s: State, path: string, t: State)
    requires ValidState(s) && Opened(s, path, t)
    ensures TabsKept(s, t) && TextKept(s, t) && t.files == s.files && t.running == s.running
  {
  }

  lemma CommandKeeps(s: State, order: Order, writable: bool, t: State)
    requires ValidState(s) && s.quits == 0 && ValidState(t) && CommandStep(s, order, writable, t)
    ensures TabsKept(s, t) && FilesKept(s, writable, t) && TextKept(s, t)
    ensures s.running && !t.running ==> order == ForceQuit || !Current(t).modified
  {
    if order.OpenFile? {
      OpenKeeps(s, order.path, t);
    } else {
      SaveKeeps(s, if order.SaveTo? then order.name else "", writable);
    }
  }

  lemma PromptKeeps(s: State, key: int, writable: bool, t: State)
    requires ValidState(s) && s.mode != Edit && ValidState(t) && PromptStep(s, key, writable, t)
    ensures TabsKept(s, t) && FilesKept(s, writable, t)
    ensures TextKept(s, t) || (s.mode == ReplaceWith && (key == RETURN || key == NEWLINE))
    ensures s.running && !t.running ==> (s.mode == Command && s.prompt == "quit!") || !Current(t).modified
  {
    var u := s.(mode := Edit);
    if key == RETURN || key == NEWLINE {
      if s.mode == Command {
        CommandKeeps(u, OrderOf(s.prompt), writable, t);
      } else if s.mode == SaveAs {
        SaveKeeps(u, s.prompt, writable);
      }
    }
  }

  lemma TabStepKeeps(s: State, key: int)
    requires ValidState(s) && key in {CTRL_T, CTRL_W, CTRL_N, CTRL_B}
    ensures var t := TabStep(s, key);
            TabsKept(s, t) && TextKept(s, t) && t.files == s.files &&
                (s.running && !t.running ==> key == CTRL_W && |s.tabs| == 1)
  {
  }

  lemma EditKeeps(s: State, key: int, writable: bool, page: int, t: State)
    requires ValidState(s) && s.mode == Edit && ValidState(t) && EditStep(s, key, writable, page, t)
    ensures TabsKept(s, t) && FilesKept(s, writable, t) && (TextKept(s, t) || IsTyping(key))
    ensures s.running && !t.running ==>
              !Current(t).modified || (key == CTRL_Q && s.quits == 1) || (key == CTRL_W && |s.tabs| == 1)
  {
    var u := s.(quits := 0);
    if key == CTRL_S {
      SaveKeeps(u, "", writable);
    } else if key in {CTRL_T, CTRL_W, CTRL_N, CTRL_B} {
      TabStepKeeps(u, key);
    }
  }

  /** No key touches a tab other than the current one, unless it opens or closes one;
      files change only by saves of the current tab; a text changes only by a typing key or
      by replacing the next occurrence; and the editor stops only with nothing unsaved in
      the current tab, on a second Ctrl-Q, on closing the only tab, or on quit!. */
  lemma KeyKeeps(s: State, key: int, writable: bool, page: int, t: State)
    requires ValidState(s) && KeyStep(s, key, writable, page, t)
    ensures TabsKept(s, t) && FilesKept(s, writable, t)
    ensures TextKept(s, t) || (s.mode == Edit && IsTyping(key)) ||
            (s.mode == ReplaceWith && (key == RETURN || key == NEWLINE))
    ensures s.running && !t.running ==>
              !Current(t).modified || (key == CTRL_Q && s.quits == 1) || (key == CTRL_W && |s.tabs| == 1)
              || (s.mode == Command && s.prompt == "quit!")
  {
    if s.mode != Edit {
      PromptKeeps(s, key, writable, t);
    } else {
      EditKeeps(s, key, writable, page, t);
    }
  }

  /** The current tab stands where the flat-text editor does after k keys. */
  predicate InStep(s: State, keys: seq<(int, bool)>, k: nat, text: string, at: nat)
    requires k <= |keys| && at <= |text|
  {
    && ValidState(s) && s.running && s.mode == Edit
    && (TextOf(Current(s)), OffsetOf(Current(s))) == FlatRun(keys, k, text, at)
  }

  /** A typing key does to text and offset what the flat-text editor does. */
  lemma TypedIsFlatStep(key: int, b: Buffer, b': Buffer)
    requires ValidBuffer(b) && ValidBuffer(b') && IsTyping(key) && Typed(key, b, b')
    ensures (TextOf(b'), OffsetOf(b')) == FlatStep(key, TextOf(b), OffsetOf(b))
  {
    OffsetWithin(b);
  }

  lemma StaysInStep(s: State, keys: seq<(int, bool)>, k: nat, page: int, t: State, text: string, at: nat)
    requires k < |keys| && at <= |text| && InStep(s, keys, k, text, at)
    requires IsTyping(keys[k].0) && KeyStep(s, keys[k].0, keys[k].1, page, t)
    ensures t.cur == s.cur && InStep(t, keys, k + 1, text, at)
  {
    TypedIsFlatStep(keys[k].0, Current(s), Current(t));
  }
}
