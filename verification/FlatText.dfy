// The text of a buffer as one string: its lines joined by newlines, with the
// cursor as an offset into it.
module FlatText {

  /** The first k lines, each with its newline. */
  function Before(lines: seq<string>, k: nat): string
    requires k <= |lines|
  {
    if k == 0 then "" else Before(lines, k - 1) + lines[k - 1] + "\n"
  }

  /** The lines from k on, each after a newline. */
  function From(lines: seq<string>, k: nat): string
    requires k <= |lines|
    decreases |lines| - k
  {
    if k == |lines| then "" else "\n" + lines[k] + From(lines, k + 1)
  }

  function Flat(lines: seq<string>): string
    requires lines != []
  {
    Before(lines, |lines| - 1) + lines[|lines| - 1]
  }

  function Offset(lines: seq<string>, cy: nat, cx: nat): nat
    requires cy < |lines|
  {
    |Before(lines, cy)| + cx
  }

  /** del characters at position `at` replaced by ins. */
  function Splice(s: string, at: nat, del: nat, ins: string): string
    requires at + del <= |s|
  {
    s[..at] + ins + s[at + del..]
  }

  predicate NoNewlines(lines: seq<string>) {
    forall k :: 0 <= k < |lines| ==> '\n' !in lines[k]
  }

  /** The text around any one line. */
  lemma {:induction false} FlatAround(lines: seq<string>, k: nat)
    requires k < |lines|
    ensures Flat(lines) == Before(lines, k) + lines[k] + From(lines, k + 1)
    decreases |lines| - k
  {
    if k == |lines| - 1 {
      assert From(lines, k + 1) == "";
    } else {
      FlatAround(lines, k + 1);
      Associate(Before(lines, k), lines[k], "\n", lines[k + 1], From(lines, k + 2));
    }
  }

  lemma Associate(a: string, b: string, c: string, d: string, e: string)
    ensures (a + b + c) + d + e == a + b + (c + d + e)
  {
  }

  lemma {:induction false} BeforeCongruence(a: seq<string>, b: seq<string>, k: nat)
    requires k <= |a| && k <= |b| && forall i :: 0 <= i < k ==> a[i] == b[i]
    ensures Before(a, k) == Before(b, k)
  {
    if k > 0 {
      BeforeCongruence(a, b, k - 1);
    }
  }

  /** Equal tails give equal texts, wherever they start. */
  lemma {:induction false} FromCongruence(a: seq<string>, i: nat, b: seq<string>, j: nat)
    requires i <= |a| && j <= |b| && a[i..] == b[j..]
    ensures From(a, i) == From(b, j)
    decreases |a| - i
  {
    if i < |a| {
      assert a[i..][0] == b[j..][0] && a[i..][1..] == a[i + 1..] && b[j..][1..] == b[j + 1..];
      FromCongruence(a, i + 1, b, j + 1);
    }
  }

  // ------------------------------------------------------------------
  // The text and the offset determine the lines and the cursor
  // ------------------------------------------------------------------

  /** A newline-free start cannot reach past the other side's first newline. */
  lemma NotLonger(x: string, rest: string, y: string, rest': string)
    requires x + rest == y + rest' && '\n' !in y && (rest == "" || rest[0] == '\n')
    ensures |y| <= |x|
  {
    assert forall i :: 0 <= i < |y| ==> (y + rest')[i] != '\n';
    assert rest != "" ==> (x + rest)[|x|] == '\n';
  }

  lemma FirstNewline(a: seq<string>, b: seq<string>)
    requires a != [] && b != [] && NoNewlines(a) && NoNewlines(b)
    requires a[0] + From(a, 1) == b[0] + From(b, 1)
    ensures a[0] == b[0] && From(a, 1) == From(b, 1)
  {
    NotLonger(a[0], From(a, 1), b[0], From(b, 1));
    NotLonger(b[0], From(b, 1), a[0], From(a, 1));
    assert (a[0] + From(a, 1))[..|a[0]|] == a[0] && (b[0] + From(b, 1))[..|b[0]|] == b[0];
    assert (a[0] + From(a, 1))[|a[0]|..] == From(a, 1) && (b[0] + From(b, 1))[|b[0]|..] == From(b, 1);
  }

  lemma FromTail(a: seq<string>)
    requires |a| > 1
    ensures From(a, 1) == "\n" + (a[1..][0] + From(a[1..], 1))
  {
    FromCongruence(a, 2, a[1..], 1);
  }

  lemma {:induction false} FlatFromStart(a: seq<string>)
    requires a != []
    ensures Flat(a) == a[0] + From(a, 1)
  {
    FlatAround(a, 0);
  }

  lemma {:induction false} FlatInjective(a: seq<string>, b: seq<string>)
    requires a != [] && b != [] && NoNewlines(a) && NoNewlines(b)
    requires Flat(a) == Flat(b)
    ensures a == b
    decreases |a|
  {
    FlatFromStart(a);
    FlatFromStart(b);
    FirstNewline(a, b);
    if |a| == 1 || |b| == 1 {
      assert From(a, 1) == "" <==> |a| == 1;
      assert From(b, 1) == "" <==> |b| == 1;
    } else {
      FromTail(a);
      FromTail(b);
      FlatFromStart(a[1..]);
      FlatFromStart(b[1..]);
      assert Flat(a[1..]) == From(a, 1)[1..] && Flat(b[1..]) == From(b, 1)[1..];
      FlatInjective(a[1..], b[1..]);
      assert a == [a[0]] + a[1..] && b == [b[0]] + b[1..];
    }
  }

  lemma {:induction false} BeforeGrows(lines: seq<string>, i: nat, j: nat)
    requires i < j <= |lines|
    ensures |Before(lines, i)| + |lines[i]| < |Before(lines, j)|
    decreases j
  {
    if i < j - 1 {
      BeforeGrows(lines, i, j - 1);
    }
  }

  lemma OffsetInjective(lines: seq<string>, cy: nat, cx: nat, dy: nat, dx: nat)
    requires cy < |lines| && dy < |lines| && cx <= |lines[cy]| && dx <= |lines[dy]|
    requires Offset(lines, cy, cx) == Offset(lines, dy, dx)
    ensures cy == dy && cx == dx
  {
    if cy < dy {
      BeforeGrows(lines, cy, dy);
    } else if dy < cy {
      BeforeGrows(lines, dy, cy);
    }
  }

  // ------------------------------------------------------------------
  // Each line edit is one splice
  // ------------------------------------------------------------------

  /** Rewriting one line rewrites its part of the text. */
  lemma EditLine(lines: seq<string>, k: nat, at: nat, del: nat, ins: string)
    requires k < |lines| && at + del <= |lines[k]|
    ensures at + del <= |lines[k]| && Offset(lines, k, at) + del <= |Flat(lines)|
    ensures Flat(lines[k := Splice(lines[k], at, del, ins)]) == Splice(Flat(lines), Offset(lines, k, at), del, ins)
    ensures Before(lines[k := Splice(lines[k], at, del, ins)], k) == Before(lines, k)
  {
    var l := lines[k];
    var after := lines[k := Splice(l, at, del, ins)];
    FlatAround(lines, k);
    FlatAround(after, k);
    BeforeCongruence(lines, after, k);
    assert after[k + 1..] == lines[k + 1..];
    FromCongruence(lines, k + 1, after, k + 1);
    SpliceInside(Before(lines, k), l, From(lines, k + 1), at, del, ins);
  }

  lemma SpliceInside(p: string, l: string, q: string, at: nat, del: nat, ins: string)
    requires at + del <= |l|
    ensures p + Splice(l, at, del, ins) + q == Splice(p + l + q, |p| + at, del, ins)
  {
    var s := p + l + q;
    assert s[..|p| + at] == p + l[..at];
    assert s[|p| + at + del..] == l[at + del..] + q;
    Associate(p, l[..at], ins, l[at + del..], q);
    assert p + Splice(l, at, del, ins) + q == p + l[..at] + ins + l[at + del..] + q;
  }

  function SplitLine(lines: seq<string>, k: nat, at: nat): seq<string>
    requires k < |lines| && at <= |lines[k]|
  {
    lines[..k] + [lines[k][..at], lines[k][at..]] + lines[k + 1..]
  }

  /** Splitting a line is inserting one newline. */
  lemma SplitIsSplice(lines: seq<string>, k: nat, at: nat)
    requires k < |lines| && at <= |lines[k]|
    ensures Offset(lines, k, at) <= |Flat(lines)|
    ensures Flat(SplitLine(lines, k, at)) == Splice(Flat(lines), Offset(lines, k, at), 0, "\n")
    ensures Offset(SplitLine(lines, k, at), k + 1, 0) == Offset(lines, k, at) + 1
  {
    var l := lines[k];
    FlatAround(lines, k);
    AroundSplit(lines, k, at);
    var p, q := Before(lines, k), From(lines, k + 1);
    SpliceInside(p, l, q, at, 0, "\n");
    Regroup(p, l[..at], l[at..], q);
    assert Splice(l, at, 0, "\n") == l[..at] + "\n" + l[at..];
  }

  lemma AroundSplit(lines: seq<string>, k: nat, at: nat)
    requires k < |lines| && at <= |lines[k]|
    ensures var after := SplitLine(lines, k, at);
            && Before(after, k + 1) == Before(lines, k) + lines[k][..at] + "\n"
            && Flat(after) == (Before(lines, k) + lines[k][..at] + "\n") + lines[k][at..] + From(lines, k + 1)
  {
    var l, after := lines[k], SplitLine(lines, k, at);
    FlatAround(after, k + 1);
    BeforeCongruence(lines, after, k);
    assert after[k + 2..] == lines[k + 1..];
    FromCongruence(lines, k + 1, after, k + 2);
    assert after[k] == l[..at] && after[k + 1] == l[at..];
    assert Before(after, k + 1) == Before(lines, k) + l[..at] + "\n";
  }

  lemma Regroup(p: string, x: string, y: string, q: string)
    ensures (p + x + "\n") + y + q == p + (x + "\n" + y) + q
  {
  }

  function JoinLines(lines: seq<string>, k: nat): seq<string>
    requires k + 1 < |lines|
  {
    lines[..k] + [lines[k] + lines[k + 1]] + lines[k + 2..]
  }

  /** Joining two lines is deleting the newline between them. */
  lemma JoinIsSplice(lines: seq<string>, k: nat)
    requires k + 1 < |lines|
    ensures Offset(lines, k, |lines[k]|) + 1 == Offset(lines, k + 1, 0) <= |Flat(lines)|
    ensures Flat(JoinLines(lines, k)) == Splice(Flat(lines), Offset(lines, k, |lines[k]|), 1, "")
    ensures Before(JoinLines(lines, k), k) == Before(lines, k)
  {
    var joined := JoinLines(lines, k);
    var at := Offset(lines, k, |lines[k]|);
    SplitUndoesJoin(lines, k);
    BeforeCongruence(lines, joined, k);
    SplitIsSplice(joined, k, |lines[k]|);
    UndoSplice(Flat(joined), at, "\n");
    FlatAround(lines, k + 1);
  }

  lemma SplitUndoesJoin(lines: seq<string>, k: nat)
    requires k + 1 < |lines|
    ensures |lines[k]| <= |JoinLines(lines, k)[k]|
    ensures SplitLine(JoinLines(lines, k), k, |lines[k]|) == lines
  {
    var joined, l := JoinLines(lines, k), lines[k];
    assert joined[k] == l + lines[k + 1];
    assert joined[k][..|l|] == l && joined[k][|l|..] == lines[k + 1];
    assert joined[..k] == lines[..k] && joined[k + 1..] == lines[k + 2..];
    assert lines == lines[..k] + [l, lines[k + 1]] + lines[k + 2..];
  }

  /** Taking an insertion out again restores the text. */
  lemma UndoSplice(s: string, at: nat, ins: string)
    requires at <= |s|
    ensures at + |ins| <= |Splice(s, at, 0, ins)|
    ensures Splice(Splice(s, at, 0, ins), at, |ins|, "") == s
  {
    var t := Splice(s, at, 0, ins);
    assert t[..at] == s[..at] && t[at + |ins|..] == s[at..];
  }
}
