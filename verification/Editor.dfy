// The editor: tabs, a modal prompt, and one transition per key.
module Editor {
  import opened Arithmetic
  import opened FlatText
  import opened EditBuffer
  import opened FileText
  import opened EditorStep

  // The digits of a prompt as a number; everything else is skipped.
  method ParseLine(s: string) returns (line: int)
    ensures line == Int32(Decimal(s))
  {
    line := 0;
    for i := 0 to |s|
      invariant line == Int32(Decimal(s[..i]))
    {
      assert s[..i + 1][..i] == s[..i];
      WrapOnce(Decimal(s[..i]), s[i] as int - '0' as int);
      if '0' <= s[i] <= '9' {
        line := Int32(line * 10 + (s[i] as int - '0' as int));
      }
    }
    assert s[..|s|] == s;
  }

  // Moves, then clamps; page is the number of text rows on the screen, of any sign.
  method MoveCursor(b: Buffer, key: int, page: int) returns (b': Buffer)
    requires ValidBuffer(b) && IsMove(key)
    ensures ValidBuffer(b') && b' == Moved(b, key, page) && TextOf(b') == TextOf(b)
  {
    var cx, cy := b.cx, b.cy;
    if key == UP {
      if cy > 0 { cy := cy - 1; }
    } else if key == DOWN {
      if cy < |b.rows| - 1 { cy := cy + 1; }
    } else if key == RIGHT {
      cx := cx + 1;
    } else if key == LEFT {
      if cx > 0 { cx := cx - 1; }
    } else if key == HOME {
      cx := 0;
    } else if key == END {
      cx := |b.rows[cy].text|;
    } else if key == PAGE_UP {
      cy := cy - page;
      if cy < 0 { cy := 0; }
    } else {
      cy := cy + page;
      if cy >= |b.rows| { cy := |b.rows| - 1; }
    }
    if cy < 0 { cy := 0; }
    if cy >= |b.rows| { cy := |b.rows| - 1; }
    if cx < 0 { cx := 0; }
    if cx > |b.rows[cy].text| { cx := |b.rows[cy].text|; }
    b' := b.(cx := cx, cy := cy);
  }

  method InitBuffer() returns (b: Buffer)
    ensures ValidBuffer(b) && b == EMPTY && TextOf(b) == ""
  {
    b := Buffer([Row("", 128)], 0, 0, false, "");
  }

  // A buffer for a path; a file that cannot be opened leaves it empty.
  method LoadBuffer(path: string, files: map<string, string>) returns (b: Buffer)
    ensures LoadedFrom(b, path, files)
  {
    b := InitBuffer();
    b := b.(filename := path[..Min(|path|, 255)]);
    if path in files {
      var rows := LoadRows(files[path]);
      b := b.(rows := rows);
    }
  }

  // The bytes a save writes.
  method Render(b: Buffer) returns (content: string)
    requires ValidBuffer(b)
    ensures content == TextOf(b)
  {
    content := "";
    ghost var ts := Texts(b.rows);
    for i := 0 to |b.rows|
      invariant content == if i == 0 then "" else if i < |ts| then Before(ts, i) else Flat(ts)
    {
      content := content + b.rows[i].text;
      if i < |b.rows| - 1 {
        content := content + "\n";
      }
    }
  }

  method Type(key: int, b: Buffer) returns (b': Buffer)
    requires ValidBuffer(b) && IsTyping(key)
    ensures ValidBuffer(b') && Typed(key, b, b')
  {
    if key == RETURN || key == NEWLINE {
      b' := InsertNewline(b);
    } else if key == RUBOUT || key == BACKSPACE {
      b' := DeleteChar(b);
    } else if key == DELETE {
      b' := DeleteForward(b);
    } else if key == TAB {
      b' := InsertTab(b);
    } else {
      b' := InsertChar(b, key as char);
    }
  }

  class Editor {
    var tabs: seq<Buffer>
    var curTab: int
    var screenRows: int
    var running: bool
    var mode: Mode
    var prompt: string
    var search: string
    var replace: string
    var quitCount: int
    var files: map<string, string>

    function Value(): State
      reads this
    {
      State(tabs, curTab, running, mode, prompt, search, replace, quitCount, files)
    }

    predicate Valid()
      reads this
    {
      ValidState(Value())
    }

    constructor (rows: int, disk: map<string, string>)
      ensures Valid() && Value() == State([EMPTY], 0, true, Edit, "", "", "", 0, disk)
    {
      screenRows, running, mode := rows, true, Edit;
      prompt, search, replace, quitCount, files := "", "", "", 0, disk;
      tabs, curTab := [EMPTY], 0;
    }

    method Save(writable: bool) returns (ok: bool)
      requires Valid() && quitCount == 0
      modifies this`tabs, this`files
      ensures Valid() && ok == CanSave(old(Value()), writable) && Value() == Saved(old(Value()), writable)
    {
      var b := tabs[curTab];
      if b.filename == "" || !writable {
        return false;
      }
      var content := Render(b);
      files := files[b.filename := content];
      tabs := tabs[curTab := b.(modified := false)];
      ok := true;
    }

    method Rename(name: string)
      requires Valid() && quitCount == 0
      modifies this`tabs
      ensures Valid() && Value() == Named(old(Value()), name)
    {
      tabs := tabs[curTab := tabs[curTab].(filename := name)];
    }

    // To the start of a line; a number out of range is clamped.
    method GotoLine()
      requires Valid() && quitCount == 0
      modifies this`tabs
      ensures Valid()
      ensures Value() == AtLine(old(Value()), Max(1, Min(Int32(Decimal(prompt)), |old(tabs)[curTab].rows|)))
    {
      var b := tabs[curTab];
      var line := ParseLine(prompt);
      if line < 1 { line := 1; }
      if line > |b.rows| { line := |b.rows|; }
      tabs := tabs[curTab := b.(cy := line - 1, cx := 0)];
    }

    method NewTab()
      requires Valid() && quitCount == 0
      modifies this`tabs, this`curTab
      ensures Valid() && Value() == TabStep(old(Value()), CTRL_T)
    {
      if |tabs| >= MAX_TABS {
        return;
      }
      var b := InitBuffer();
      curTab := |tabs|;
      tabs := tabs + [b];
    }

    method CloseTab()
      requires Valid() && quitCount == 0
      modifies this`tabs, this`curTab, this`running
      ensures Valid() && Value() == TabStep(old(Value()), CTRL_W)
    {
      if |tabs| <= 1 {
        running := false;
        return;
      }
      tabs := tabs[..curTab] + tabs[curTab + 1..];
      if curTab >= |tabs| {
        curTab := |tabs| - 1;
      }
    }

    method OpenTab(path: string)
      requires Valid() && quitCount == 0
      modifies this`tabs, this`curTab
      ensures Valid() && Opened(old(Value()), path, Value())
    {
      if |tabs| < MAX_TABS {
        var loaded := LoadBuffer(path, files);
        curTab := |tabs|;
        tabs := tabs + [loaded];
      }
    }

    // save, save-quit, and save with a name.
    method SaveCommand(writable: bool)
      requires Valid() && quitCount == 0
      requires prompt == "save" || prompt == "save-quit" || HasPrefix(prompt, "save ")
      modifies this`tabs, this`running, this`files
      ensures Valid() && CommandStep(old(Value()), OrderOf(prompt), writable, Value())
    {
      if HasPrefix(prompt, "save ") {
        Rename(prompt[5..]);
      }
      var ok := Save(writable);
      if prompt == "save-quit" && ok {
        running := false;
      }
    }

    method ExecCommand(writable: bool)
      requires Valid() && quitCount == 0
      modifies this`tabs, this`curTab, this`running, this`files
      ensures Valid() && CommandStep(old(Value()), OrderOf(prompt), writable, Value())
    {
      if prompt == "quit" {
        if !tabs[curTab].modified {
          running := false;
        }
      } else if prompt == "quit!" {
        running := false;
      } else if prompt == "save" || prompt == "save-quit" || HasPrefix(prompt, "save ") {
        SaveCommand(writable);
      } else if HasPrefix(prompt, "open ") {
        OpenTab(prompt[5..]);
      } else if HasPrefix(prompt, "goto ") {
        GotoCommand();
      }
    }

    method GotoCommand()
      requires Valid() && quitCount == 0 && HasPrefix(prompt, "goto ")
      modifies this`tabs
      ensures Valid() && CommandStep(old(Value()), GotoNumber(prompt[5..]), false, Value())
    {
      var b := tabs[curTab];
      var line := ParseLine(prompt[5..]);
      if 1 <= line <= |b.rows| {
        tabs := tabs[curTab := b.(cy := line - 1, cx := 0)];
      }
    }

    method FindNext()
      requires Valid() && quitCount == 0
      modifies this`tabs
      ensures Valid() && Value() == WithCurrent(old(Value()), Current(Value()))
      ensures Searched(Current(old(Value())), search, Current(Value()))
    {
      var b := EditBuffer.Search(tabs[curTab], search);
      tabs := tabs[curTab := b];
    }

    method ReplaceNext()
      requires Valid() && quitCount == 0
      modifies this`tabs
      ensures Valid() && Value() == WithCurrent(old(Value()), Current(Value()))
      ensures SearchedAndReplaced(Current(old(Value())), search, replace, Current(Value()))
    {
      var found := EditBuffer.Search(tabs[curTab], search);
      var b := ReplaceAtCursor(found, search, replace);
      SearchReplaceMeets(tabs[curTab], search, replace, found, b);
      tabs := tabs[curTab := b];
    }

    method Confirm(writable: bool)
      requires Valid() && mode != Edit
      modifies this`tabs, this`curTab, this`running, this`mode, this`prompt, this`search, this`replace, this`files
      ensures Valid() && ConfirmStep(old(Value()), writable, Value())
    {
      var was := mode;
      mode := Edit;
      match was {
        case Search =>
          search := prompt;
          FindNext();
        case Replace =>
          search := prompt;
          mode := ReplaceWith;
          prompt := "";
        case ReplaceWith =>
          replace := prompt;
          ReplaceNext();
        case Goto =>
          GotoLine();
        case Command =>
          ExecCommand(writable);
        case SaveAs =>
          Rename(prompt);
          var ok := Save(writable);
      }
    }

    // A key while a prompt is open.
    method PromptKey(key: int, writable: bool)
      requires Valid() && mode != Edit
      modifies this`tabs, this`curTab, this`running, this`mode, this`prompt, this`search, this`replace, this`files
      ensures Valid() && PromptStep(old(Value()), key, writable, Value())
    {
      if key == ESCAPE {
        mode := Edit;
      } else if key == RETURN || key == NEWLINE {
        Confirm(writable);
      } else if key == RUBOUT || key == BACKSPACE {
        if |prompt| > 0 {
          prompt := prompt[..|prompt| - 1];
        }
      } else if IsPrintable(key) {
        if |prompt| < MAX_CMD - 1 {
          prompt := prompt + [key as char];
        }
      }
    }

    method TabKey(key: int)
      requires Valid() && quitCount == 0 && key in {CTRL_T, CTRL_W, CTRL_N, CTRL_B}
      modifies this`tabs, this`curTab, this`running
      ensures Valid() && Value() == TabStep(old(Value()), key)
    {
      if key == CTRL_T {
        NewTab();
      } else if key == CTRL_W {
        CloseTab();
      } else if key == CTRL_N {
        if curTab < |tabs| - 1 {
          curTab := curTab + 1;
        }
      } else if curTab > 0 {
        curTab := curTab - 1;
      }
    }

    method TextKey(key: int)
      requires Valid() && mode == Edit && quitCount == 0 && (IsTyping(key) || IsMove(key))
      modifies this`tabs
      ensures Valid() && EditStep(old(Value()), key, false, screenRows - 3, Value())
    {
      var b;
      if IsMove(key) {
        b := MoveCursor(tabs[curTab], key, screenRows - 3);
      } else {
        b := Type(key, tabs[curTab]);
      }
      tabs := tabs[curTab := b];
    }

    method OpenPrompt(m: Mode)
      requires Valid() && quitCount == 0
      modifies this`mode, this`prompt
      ensures Valid() && Value() == Prompting(old(Value()), m)
    {
      mode, prompt := m, "";
    }

    // With unsaved changes the first Ctrl-Q only warns.
    method QuitKey()
      requires Valid() && mode == Edit
      modifies this`running, this`quitCount
      ensures Valid() && EditStep(old(Value()), CTRL_Q, false, 0, Value())
    {
      if tabs[curTab].modified && quitCount == 0 {
        quitCount := 1;
        return;
      }
      running := false;
    }

    // Saves, or opens a prompt.
    method FileKey(key: int, writable: bool)
      requires Valid() && mode == Edit && quitCount == 0 && key in {CTRL_S, CTRL_F, CTRL_R, CTRL_G, CTRL_P}
      modifies this`tabs, this`mode, this`prompt, this`files
      ensures Valid() && EditStep(old(Value()), key, writable, screenRows - 3, Value())
    {
      if key == CTRL_S {
        if tabs[curTab].filename == "" {
          OpenPrompt(SaveAs);
          return;
        }
        var ok := Save(writable);
      } else if key == CTRL_F {
        OpenPrompt(Mode.Search);
      } else if key == CTRL_R {
        OpenPrompt(Mode.Replace);
      } else if key == CTRL_G {
        OpenPrompt(Goto);
      } else {
        OpenPrompt(Command);
      }
    }

    // A key in edit mode.
    method EditKey(key: int, writable: bool)
      requires Valid() && mode == Edit
      modifies this`tabs, this`curTab, this`running, this`mode, this`prompt, this`quitCount, this`files
      ensures Valid() && EditStep(old(Value()), key, writable, screenRows - 3, Value())
    {
      if key == CTRL_Q {
        QuitKey();
        return;
      }
      quitCount := 0;
      if key in {CTRL_S, CTRL_F, CTRL_R, CTRL_G, CTRL_P} {
        FileKey(key, writable);
      } else if key in {CTRL_T, CTRL_W, CTRL_N, CTRL_B} {
        TabKey(key);
      } else if IsTyping(key) || IsMove(key) {
        TextKey(key);
      }
      WarningForgotten(old(Value()), key, writable, screenRows - 3, Value());
    }

    /** One key, in whatever mode. */
    method ProcessKey(key: int, writable: bool)
      requires Valid()
      modifies this`tabs, this`curTab, this`running, this`mode, this`prompt, this`search, this`replace,
          this`quitCount, this`files
      ensures Valid() && KeyStep(old(Value()), key, writable, screenRows - 3, Value())
    {
      if mode != Edit {
        PromptKey(key, writable);
      } else {
        EditKey(key, writable);
      }
    }

    /** Whatever the keys, the editor stays well formed until it stops; and a run
        of typing keys is a run of the flat-text editor on the current tab. */
    method Run(keys: seq<(int, bool)>)
      requires Valid()
      modifies this
      ensures Valid()
      ensures old(running && mode == Edit) && OnlyTyping(keys) ==>
                curTab == old(curTab) &&
                InStep(Value(), keys, |keys|, old(TextOf(tabs[curTab])), old(OffsetOf(tabs[curTab])))
    {
      ghost var typing := running && mode == Edit && OnlyTyping(keys);
      ghost var s, at := TextOf(tabs[curTab]), OffsetOf(tabs[curTab]);
      var k := 0;
      while running && k < |keys|
        invariant Valid() && k <= |keys|
        invariant typing ==> curTab == old(curTab) && InStep(Value(), keys, k, s, at)
        decreases |keys| - k
      {
        ghost var before := Value();
        ProcessKey(keys[k].0, keys[k].1);
        if typing {
          StaysInStep(before, keys, k, screenRows - 3, Value(), s, at);
        }
        k := k + 1;
      }
    }
  }
}
