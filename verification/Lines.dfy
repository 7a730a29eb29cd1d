// Reading a file into lines: each line is kept as a C string.
module Lines {

  const MAX_LINES: nat := 2048

  /** The part of the characters before the first NUL: all that strcmp and fputs see. */
  function CString(s: string): (r: string)
    ensures '\0' !in r && r <= s
    ensures '\0' !in s ==> r == s
  {
    if s == [] || s[0] == '\0' then [] else [s[0]] + CString(s[1..])
  }

  function CStrings(ls: seq<string>): (r: seq<string>)
    ensures |r| == |ls| && forall k :: 0 <= k < |ls| ==> r[k] == CString(ls[k])
  {
    seq(|ls|, k requires 0 <= k < |ls| => CString(ls[k]))
  }

  lemma CStringsAppend(ls: seq<string>, x: string)
    ensures CStrings(ls + [x]) == CStrings(ls) + [CString(x)]
  {
  }

  function Concat(ls: seq<string>): string {
    if ls == [] then [] else Concat(ls[..|ls| - 1]) + ls[|ls| - 1]
  }

  /** Every line but possibly the last ends at its only newline; none is empty. */
  predicate WellSplit(ls: seq<string>) {
    forall k :: 0 <= k < |ls| ==>
      |ls[k]| > 0 && '\n' !in ls[k][..|ls[k]| - 1] && (k < |ls| - 1 ==> ls[k][|ls[k]| - 1] == '\n')
  }

  /** The lines of a content, and what follows the last newline. */
  function Split(c: string): (seq<string>, string) {
    if c == [] then ([], [])
    else
      var (ls, rest) := Split(c[..|c| - 1]);
      var x := c[|c| - 1];
      if x == '\n' then (ls + [rest + [x]], []) else (ls, rest + [x])
  }

  function LinesOf(c: string): (ls: seq<string>) {
    var (ls, rest) := Split(c);
    if rest == [] then ls else ls + [rest]
  }

  predicate Closed(line: string) {
    |line| > 0 && '\n' !in line[..|line| - 1] && line[|line| - 1] == '\n'
  }

  lemma {:induction false} SplitShape(c: string)
    ensures var (ls, rest) := Split(c);
            Concat(ls) + rest == c && '\n' !in rest && forall k :: 0 <= k < |ls| ==> Closed(ls[k])
  {
    if c != [] {
      var front, x := c[..|c| - 1], c[|c| - 1];
      SplitShape(front);
      var (ls, rest) := Split(front);
      assert c == front + [x];
      if x == '\n' {
        var line := rest + [x];
        assert line[..|line| - 1] == rest;
        assert (ls + [line])[..|ls|] == ls;
      }
    }
  }

  /** Splitting loses nothing and cuts exactly after the newlines. */
  lemma LinesShape(c: string)
    ensures Concat(LinesOf(c)) == c && WellSplit(LinesOf(c))
  {
    SplitShape(c);
    var (ls, rest) := Split(c);
    if rest != [] {
      assert (ls + [rest])[..|ls|] == ls;
    }
  }

  lemma SplitNext(c: string, k: nat)
    requires k < |c|
    ensures var (ls, rest) := Split(c[..k]);
            Split(c[..k + 1]) == if c[k] == '\n' then (ls + [rest + [c[k]]], []) else (ls, rest + [c[k]])
  {
    assert c[..k + 1][..k] == c[..k];
  }

  class DiffLines {
    var items: seq<string>
    var capacity: nat

    predicate Valid()
      reads this
    {
      |items| <= capacity && |items| <= MAX_LINES && capacity <= 2 * MAX_LINES
    }

    constructor ()
      ensures Valid() && items == []
    {
      items, capacity := [], 0;
    }

    // 0 on success, -2 when the table is full.
    method Add(data: string) returns (result: int)
      requires Valid()
      modifies this
      ensures Valid()
      ensures result == if |old(items)| < MAX_LINES then 0 else -2
      ensures items == if result == 0 then old(items) + [CString(data)] else old(items)
    {
      if |items| >= MAX_LINES {
        return -2;
      }
      if |items| >= capacity {
        capacity := if capacity > 0 then capacity * 2 else 64;
      }
      items := items + [CString(data)];
      result := 0;
    }

    /** Fails iff the content has more than 2048 lines; otherwise holds its lines. */
    method Read(content: string) returns (result: int)
      requires Valid() && items == []
      modifies this
      ensures Valid()
      ensures result == if |LinesOf(content)| <= MAX_LINES then 0 else -2
      ensures result == 0 ==> items == CStrings(LinesOf(content))
    {
      var buffer: string := [];
      var k := 0;
      result := 0;
      while k < |content|
        invariant 0 <= k <= |content| && Valid() && result == 0
        invariant (items, buffer) == (CStrings(Split(content[..k]).0), Split(content[..k]).1)
      {
        var c := content[k];
        SplitNext(content, k);
        k := k + 1;
        buffer := buffer + [c];
        CStringsAppend(Split(content[..k - 1]).0, buffer);
        if c == '\n' {
          result := Add(buffer);
          buffer := [];
          if result < 0 {
            MoreLines(content, k);
            return;
          }
        }
      }
      assert content[..k] == content;
      if |buffer| > 0 {
        CStringsAppend(Split(content).0, buffer);
        result := Add(buffer);
      }
    }
  }

  /** The lines closed in a prefix stay lines of the whole. */
  lemma {:induction false} MoreLines(content: string, k: nat)
    requires k <= |content|
    ensures |Split(content[..k]).0| <= |LinesOf(content)|
    decreases |content| - k
  {
    if k == |content| {
      assert content[..k] == content;
    } else {
      SplitNext(content, k);
      MoreLines(content, k + 1);
    }
  }

  /** Contents with the same lines are the same. */
  lemma SameLinesSameContent(c: string, d: string)
    ensures c == d <==> LinesOf(c) == LinesOf(d)
  {
    LinesShape(c);
    LinesShape(d);
  }

  lemma {:induction false} NulFreeLines(c: string)
    requires '\0' !in c
    ensures CStrings(LinesOf(c)) == LinesOf(c)
  {
    LinesShape(c);
    NulFreeConcat(LinesOf(c));
  }

  lemma {:induction false} NulFreeConcat(ls: seq<string>)
    requires '\0' !in Concat(ls)
    ensures CStrings(ls) == ls
  {
    if ls != [] {
      var front := ls[..|ls| - 1];
      NulFreeConcat(front);
      assert forall k :: 0 <= k < |front| ==> CString(ls[k]) == CStrings(front)[k] == front[k] == ls[k];
    }
  }
}
