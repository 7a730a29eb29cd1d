// Loading a file into rows.  A line is also cut, and the character at the cut
// lost, once 1023 characters are pending.
module FileText {
  import opened FlatText
  import opened EditBuffer

  const MAX_LINE_LEN: nat := 1024

  /** Lines flushed and characters pending after a content has been read. */
  function Loaded(content: string): (r: (seq<string>, string)) {
    if content == "" then ([], "")
    else
      var (done, pending) := Loaded(content[..|content| - 1]);
      var c := content[|content| - 1];
      if c == '\n' || |pending| >= MAX_LINE_LEN - 1 then (done + [pending], "") else (done, pending + [c])
  }

  /** The lines of the loaded buffer: there is always at least one. */
  function LoadedLines(content: string): (lines: seq<string>)
    ensures lines != []
  {
    var (done, pending) := Loaded(content);
    var all := if pending != "" then done + [pending] else done;
    if all == [] then [""] else all
  }

  method LoadRows(content: string) returns (rows: seq<Row>)
    ensures ValidRows(rows) && Texts(rows) == LoadedLines(content)
  {
    rows := [];
    var lineBuf := "";
    for i := 0 to |content|
      invariant ValidRows(rows) && '\n' !in lineBuf
      invariant (Texts(rows), lineBuf) == Loaded(content[..i])
    {
      assert content[..i + 1][..i] == content[..i];
      if content[i] == '\n' || |lineBuf| >= MAX_LINE_LEN - 1 {
        rows := AppendRow(rows, lineBuf);
        lineBuf := "";
      } else {
        lineBuf := lineBuf + [content[i]];
      }
    }
    assert content[..|content|] == content;
    if |lineBuf| > 0 {
      rows := AppendRow(rows, lineBuf);
    }
    if |rows| == 0 {
      rows := AppendRow(rows, "");
    }
  }

  method AppendRow(rows: seq<Row>, text: string) returns (rows': seq<Row>)
    requires ValidRows(rows) && '\n' !in text
    ensures ValidRows(rows') && Texts(rows') == Texts(rows) + [text]
  {
    var row := Ensure(Row("", 128), |text| + 1);
    rows' := rows + [row.(text := text)];
  }

  // ------------------------------------------------------------------
  // What saving and opening again gives back
  // ------------------------------------------------------------------

  predicate AllShort(lines: seq<string>) {
    forall k :: 0 <= k < |lines| ==> |lines[k]| < MAX_LINE_LEN
  }

  /** Lines survive a save and a load exactly when none is over 1023 characters
      and the last is not an empty line of its own. */
  predicate Survives(lines: seq<string>) {
    AllShort(lines) && (|lines| == 1 || (lines != [] && lines[|lines| - 1] != ""))
  }

  /** Reading one short line leaves it pending. */
  lemma {:induction false} LoadPending(content: string, line: string)
    requires Loaded(content).1 == "" && '\n' !in line && |line| < MAX_LINE_LEN
    ensures Loaded(content + line) == (Loaded(content).0, line)
    decreases |line|
  {
    if line == "" {
      assert content + line == content;
    } else {
      var front := line[..|line| - 1];
      LoadPending(content, front);
      assert (content + line)[..|content + line| - 1] == content + front;
      assert line == front + [line[|line| - 1]];
    }
  }

  lemma LoadNewline(content: string)
    ensures Loaded(content + "\n") == (Loaded(content).0 + [Loaded(content).1], "")
  {
    assert (content + "\n")[..|content|] == content;
  }

  lemma {:induction false} LoadBefore(lines: seq<string>, k: nat)
    requires k <= |lines| && NoNewlines(lines) && AllShort(lines)
    ensures Loaded(Before(lines, k)) == (lines[..k], "")
  {
    if k > 0 {
      LoadBefore(lines, k - 1);
      LoadPending(Before(lines, k - 1), lines[k - 1]);
      LoadNewline(Before(lines, k - 1) + lines[k - 1]);
      assert lines[..k] == lines[..k - 1] + [lines[k - 1]];
    }
  }

  /** A load never makes a line longer than 1023 characters. */
  lemma {:induction false} LoadedShort(content: string)
    ensures AllShort(Loaded(content).0) && |Loaded(content).1| < MAX_LINE_LEN
  {
    if content != "" {
      LoadedShort(content[..|content| - 1]);
    }
  }

  /** The exact condition for the lines to come back. */
  lemma SaveThenLoad(lines: seq<string>)
    requires lines != [] && NoNewlines(lines)
    ensures LoadedLines(Flat(lines)) == lines <==> Survives(lines)
  {
    var n := |lines| - 1;
    LoadedShort(Flat(lines));
    if AllShort(lines) {
      LoadBefore(lines, n);
      LoadPending(Before(lines, n), lines[n]);
      assert lines == lines[..n] + [lines[n]];
    }
  }

  // ------------------------------------------------------------------
  // What opening and saving again gives back
  // ------------------------------------------------------------------

  /** No stretch without a line break is longer than 1023 characters. */
  predicate ShortLines(content: string) {
    forall i, j :: 0 <= i <= j <= |content| && '\n' !in content[i..j] ==> j - i < MAX_LINE_LEN
  }

  /** Characters since the last line break. */
  function Run(content: string): (n: nat)
    ensures n <= |content|
  {
    var last := |content| - 1;
    if content == "" || content[last] == '\n' then 0 else Run(content[..last]) + 1
  }

  /** The content with every 1024th character of a line made a line break. */
  function Broken(content: string): (r: string)
    ensures |r| == |content|
  {
    seq(|content|, k requires 0 <= k < |content| =>
      if Run(content[..k]) % MAX_LINE_LEN == MAX_LINE_LEN - 1 then '\n' else content[k])
  }

  /** What is pending is the line's length, modulo the 1024 characters a cut uses up. */
  lemma {:induction false} PendingIsRun(content: string)
    ensures |Loaded(content).1| == Run(content) % MAX_LINE_LEN
  {
    if content != "" {
      PendingIsRun(content[..|content| - 1]);
    }
  }

  lemma BrokenNext(front: string, c: char)
    ensures Broken(front + [c]) == Broken(front) + [if Run(front) % MAX_LINE_LEN == MAX_LINE_LEN - 1 then '\n' else c]
  {
    var content := front + [c];
    assert content[..|front|] == front;
    forall k | 0 <= k < |front|
      ensures Broken(content)[k] == Broken(front)[k]
    {
      assert content[..k] == front[..k];
    }
  }

  /** What is loaded is the content with those line breaks, for every content. */
  lemma {:induction false} LoadedText(content: string)
    ensures var (done, pending) := Loaded(content);
            Before(done, |done|) + pending == Broken(content)
  {
    if content != "" {
      var front, c := content[..|content| - 1], content[|content| - 1];
      assert content == front + [c];
      LoadedText(front);
      LoadedNext(content, front, c);
      PendingIsRun(front);
      BrokenNext(front, c);
    }
  }

  lemma {:induction false} RunGrows(content: string, i: nat, j: nat)
    requires i <= j <= |content| && '\n' !in content[i..j]
    ensures Run(content[..j]) == Run(content[..i]) + (j - i)
    decreases j - i
  {
    if i < j {
      assert forall k :: i <= k < j ==> content[k] == content[i..j][k - i];
      assert content[i..j - 1] == content[i..j][..j - 1 - i];
      RunGrows(content, i, j - 1);
      assert content[..j][..j - 1] == content[..j - 1];
    }
  }

  lemma {:induction false} RunHasNoBreak(content: string)
    ensures '\n' !in content[|content| - Run(content)..]
  {
    var last := |content| - 1;
    if content != "" && content[last] != '\n' {
      var front := content[..last];
      RunHasNoBreak(front);
      assert content[|content| - Run(content)..] == front[|front| - Run(front)..] + [content[last]];
    }
  }

  /** Nothing is lost exactly when every line is short. */
  lemma BrokenOnlyWhenLong(content: string)
    ensures Broken(content) == content <==> ShortLines(content)
  {
    if Broken(content) == content {
      forall i, j | 0 <= i <= j <= |content| && '\n' !in content[i..j]
        ensures j - i < MAX_LINE_LEN
      {
        if j - i >= MAX_LINE_LEN {
          LongIsBroken(content, i, j);
        }
      }
    }
    if ShortLines(content) {
      forall k | 0 <= k < |content|
        ensures Broken(content)[k] == content[k]
      {
        ShortIsUnbroken(content, k);
      }
    }
  }

  // A long stretch has a 1024th character in it, which is not a line break.
  lemma LongIsBroken(content: string, i: nat, j: nat)
    requires i <= j <= |content| && '\n' !in content[i..j] && j - i >= MAX_LINE_LEN
    ensures Broken(content) != content
  {
    var run := Run(content[..i]);
    var m := MAX_LINE_LEN - 1 - run % MAX_LINE_LEN;
    ToNextCut(run, m);
    CutAt(content, i, j, m);
  }

  lemma CutAt(content: string, i: nat, j: nat, m: nat)
    requires i + m < j <= |content| && '\n' !in content[i..j]
    requires (Run(content[..i]) + m) % MAX_LINE_LEN == MAX_LINE_LEN - 1
    ensures Broken(content)[i + m] != content[i + m]
  {
    assert content[i..i + m] == content[i..j][..m];
    RunGrows(content, i, i + m);
    assert content[i..j][m] == content[i + m];
  }

  lemma ToNextCut(run: nat, m: nat)
    requires m == MAX_LINE_LEN - 1 - run % MAX_LINE_LEN
    ensures (run + m) % MAX_LINE_LEN == MAX_LINE_LEN - 1
  {
  }

  lemma ShortIsUnbroken(content: string, k: nat)
    requires ShortLines(content) && k < |content|
    ensures Broken(content)[k] == content[k]
  {
    if content[k] != '\n' {
      LineSoFar(content, k);
    }
  }

  lemma LineSoFar(content: string, k: nat)
    requires k < |content| && content[k] != '\n'
    ensures '\n' !in content[k - Run(content[..k])..k + 1]
  {
    var from := k - Run(content[..k]);
    RunHasNoBreak(content[..k]);
    assert content[from..k + 1] == content[..k][from..] + [content[k]];
  }

  /** One more character loaded is that character, or a line break, more text. */
  lemma LoadedNext(content: string, front: string, c: char)
    requires content == front + [c]
    ensures var (done, pending) := Loaded(front);
            var (done', pending') := Loaded(content);
            Before(done', |done'|) + pending' ==
            Before(done, |done|) + pending + [if c == '\n' || |pending| >= MAX_LINE_LEN - 1 then '\n' else c]
  {
    assert content[..|content| - 1] == front;
    var (done, pending) := Loaded(front);
    if c == '\n' || |pending| >= MAX_LINE_LEN - 1 {
      Flushed(done, pending);
    } else {
      assert Before(done, |done|) + (pending + [c]) == Before(done, |done|) + pending + [c];
    }
  }

  lemma Flushed(done: seq<string>, pending: string)
    ensures Before(done + [pending], |done| + 1) + "" == Before(done, |done|) + pending + ['\n']
  {
    BeforeCongruence(done, done + [pending], |done|);
  }

  /** Opening and saving gives back the content with its long lines broken, and without a
      final line break. */
  lemma LoadThenSaveText(content: string)
    ensures var flat, text := Flat(LoadedLines(content)), Broken(content);
            if text != "" && text[|text| - 1] == '\n' then flat + "\n" == text else flat == text
  {
    LoadedText(content);
    var (done, pending) := Loaded(content);
    if pending != "" {
      FlatPending(done, pending);
      LoadedClean(content);
      assert (Before(done, |done|) + pending)[|Broken(content)| - 1] == pending[|pending| - 1];
    } else if done != [] {
      FlatClosed(done);
    }
  }

  lemma {:induction false} LoadedClean(content: string)
    ensures '\n' !in Loaded(content).1
  {
    if content != "" {
      LoadedClean(content[..|content| - 1]);
    }
  }

  /** It changes nothing but a last newline iff no line is over 1023 characters. */
  lemma LoadThenSave(content: string)
    ensures Flat(LoadedLines(content)) == content || Flat(LoadedLines(content)) + "\n" == content <==>
            ShortLines(content)
  {
    LoadThenSaveText(content);
    BrokenOnlyWhenLong(content);
  }

  /** A line of 1024 characters is opened without its last one. */
  lemma LongLineCut(content: string)
    requires |content| == MAX_LINE_LEN && '\n' !in content
    ensures LoadedLines(content) == [content[..MAX_LINE_LEN - 1]]
  {
    var line := content[..MAX_LINE_LEN - 1];
    assert "" + line == line;
    LoadPending("", line);
  }

  lemma FlatPending(done: seq<string>, pending: string)
    ensures Flat(done + [pending]) == Before(done, |done|) + pending
  {
    var all := done + [pending];
    BeforeCongruence(done, all, |done|);
    assert all[|all| - 1] == pending;
  }

  lemma FlatClosed(done: seq<string>)
    requires done != []
    ensures Flat(done) + "\n" == Before(done, |done|)
  {
  }
}
