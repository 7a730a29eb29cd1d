// The comparison: a bottom-up table of common-subsequence lengths in one flat
// array, then a walk that turns it into hunks.
module Diff {
  import opened Arithmetic
  import opened Lines
  import opened Subsequences
  import opened Words

  // The numbers and lines a hunk prints: 1-based inclusive ranges, except the
  // single position of a deletion (right) or an addition (left).
  datatype Hunk =
    | Change(l1: int, l2: int, r1: int, r2: int, removed: seq<string>, added: seq<string>)
    | Delete(l1: int, l2: int, r: int, removed: seq<string>)
    | Add(l: int, r1: int, r2: int, added: seq<string>)
  {
    /** The same hunk read as a change of the right side into the left. */
    function Reverse(): Hunk {
      match this
      case Change(l1, l2, r1, r2, removed, added) => Change(r1, r2, l1, l2, added, removed)
      case Delete(l1, l2, r, removed) => Add(r, l1, l2, removed)
      case Add(l, r1, r2, added) => Delete(r1, r2, l, added)
    }

    /** First left line it touches (0-based) and the one after the last. */
    function Span(): (int, int) {
      match this
      case Change(l1, l2, _, _, _, _) => (l1 - 1, l2)
      case Delete(l1, l2, _, _) => (l1 - 1, l2)
      case Add(l, _, _, _) => (l, l)
    }

    function Removed(): seq<string> {
      if this.Add? then [] else removed
    }

    function Added(): seq<string> {
      if this.Delete? then [] else added
    }
  }

  function Reversed(hs: seq<Hunk>): (r: seq<Hunk>)
    ensures |r| == |hs| && forall k :: 0 <= k < |hs| ==> r[k] == hs[k].Reverse()
  {
    seq(|hs|, k requires 0 <= k < |hs| => hs[k].Reverse())
  }

  datatype Patching = Patching(pos: nat, out: seq<string>) | Rejected

  /** One hunk applied after the earlier ones: the lines up to it are copied, its
      removed lines must be there, and the position moves past them. */
  function PatchHunk(p: Patching, h: Hunk, left: seq<string>): Patching {
    var (s, e) := h.Span();
    if p.Patching? && p.pos <= s <= e <= |left| && left[s..e] == h.Removed()
    then Patching(e, p.out + left[p.pos..s] + h.Added())
    else Rejected
  }

  function PatchHunks(hs: seq<Hunk>, left: seq<string>): Patching {
    if hs == [] then Patching(0, []) else PatchHunk(PatchHunks(hs[..|hs| - 1], left), hs[|hs| - 1], left)
  }

  /** hs is a patch that turns left into right. */
  predicate Patches(hs: seq<Hunk>, left: seq<string>, right: seq<string>) {
    var p := PatchHunks(hs, left);
    p.Patching? && p.pos <= |left| && p.out + left[p.pos..] == right
  }

  /** Each hunk says something, and kept lines lie between neighbours. */
  predicate Separated(hs: seq<Hunk>) {
    && (forall k :: 0 <= k < |hs| ==> |hs[k].Removed()| + |hs[k].Added()| > 0)
    && (forall k :: 0 < k < |hs| ==> hs[k - 1].Span().1 < hs[k].Span().0)
  }

  function LinesRemoved(hs: seq<Hunk>): nat {
    if hs == [] then 0 else LinesRemoved(hs[..|hs| - 1]) + |hs[|hs| - 1].Removed()|
  }

  function LinesAdded(hs: seq<Hunk>): nat {
    if hs == [] then 0 else LinesAdded(hs[..|hs| - 1]) + |hs[|hs| - 1].Added()|
  }

  // ------------------------------------------------------------------
  // The table
  // ------------------------------------------------------------------

  function Cell(i: nat, j: nat, n: nat): nat {
    i * (n + 1) + j
  }

  lemma CellInRange(i: nat, j: nat, m: nat, n: nat)
    requires i <= m && j <= n
    ensures Cell(i, j, n) < (m + 1) * (n + 1)
  {
    assert i * (n + 1) <= m * (n + 1);
  }

  lemma CellsDistinct(i: nat, j: nat, i': nat, j': nat, n: nat)
    requires j <= n && j' <= n && Cell(i, j, n) == Cell(i', j', n)
    ensures i == i' && j == j'
  {
    var d := i' - i;
    assert d * (n + 1) == i' * (n + 1) - i * (n + 1);
    if d > 0 {
      AtLeast(d, n + 1);
    } else if d < 0 {
      AtLeast(-d, n + 1);
    }
  }

  /** Every cell from (i, j) on, row by row, and the whole last column, is right. */
  ghost predicate Filled(t: seq<uint16>, left: seq<string>, right: seq<string>, i: nat, j: nat) {
    && |t| == (|left| + 1) * (|right| + 1)
    && forall x: nat, y: nat :: x <= |left| && y <= |right| && (x > i || (x == i && y >= j) || y == |right|) ==>
      Cell(x, y, |right|) < |t| && t[Cell(x, y, |right|)] as int == Lcs(left, x, right, y)
  }

  lemma FilledStep(t: seq<uint16>, t': seq<uint16>, left: seq<string>, right: seq<string>, i: nat, j: nat)
    requires i <= |left| && j < |right| && Filled(t, left, right, i, j + 1)
    requires Cell(i, j, |right|) < |t|
    requires |t'| == |t| && forall c :: 0 <= c < |t| && c != Cell(i, j, |right|) ==> t'[c] == t[c]
    requires t'[Cell(i, j, |right|)] as int == Lcs(left, i, right, j)
    ensures Filled(t', left, right, i, j)
  {
    forall x: nat, y: nat | x <= |left| && y <= |right| && (x > i || (x == i && y >= j) || y == |right|)
      ensures Cell(x, y, |right|) < |t'| && t'[Cell(x, y, |right|)] as int == Lcs(left, x, right, y)
    {
      CellInRange(x, y, |left|, |right|);
      if Cell(x, y, |right|) == Cell(i, j, |right|) {
        CellsDistinct(x, y, i, j, |right|);
      }
    }
  }

  lemma EmptyTable(t: seq<uint16>, left: seq<string>, right: seq<string>)
    requires |t| == (|left| + 1) * (|right| + 1) && forall c :: 0 <= c < |t| ==> t[c] == 0
    ensures Filled(t, left, right, |left|, 0)
  {
    forall x: nat, y: nat | x <= |left| && y <= |right| && (x >= |left| || y == |right|)
      ensures Cell(x, y, |right|) < |t| && t[Cell(x, y, |right|)] as int == Lcs(left, x, right, y)
    {
      CellInRange(x, y, |left|, |right|);
    }
  }

  // Fills one cell from the three after it.
  method FillCell(table: array<uint16>, left: seq<string>, right: seq<string>, i: nat, j: nat)
    requires |left| <= MAX_LINES && i < |left| && j < |right|
    requires Filled(table[..], left, right, i, j + 1)
    modifies table
    ensures Filled(table[..], left, right, i, j)
  {
    var n := |right|;
    ghost var before := table[..];
    CellInRange(i, j, |left|, n);
    CellInRange(i + 1, j, |left|, n);
    CellInRange(i, j + 1, |left|, n);
    CellInRange(i + 1, j + 1, |left|, n);
    if left[i] == right[j] {
      table[Cell(i, j, n)] := table[Cell(i + 1, j + 1, n)] + 1;
    } else if table[Cell(i + 1, j, n)] >= table[Cell(i, j + 1, n)] {
      table[Cell(i, j, n)] := table[Cell(i + 1, j, n)];
    } else {
      table[Cell(i, j, n)] := table[Cell(i, j + 1, n)];
    }
    FilledStep(before, table[..], left, right, i, j);
  }

  // No cell outgrows 16 bits, because there are at most 2048 lines.
  method FillTable(left: seq<string>, right: seq<string>) returns (table: array<uint16>)
    requires |left| <= MAX_LINES
    ensures Filled(table[..], left, right, 0, 0)
  {
    table := new uint16[(|left| + 1) * (|right| + 1)](_ => 0);
    EmptyTable(table[..], left, right);
    var i := |left|;
    while i > 0
      invariant 0 <= i <= |left|
      invariant Filled(table[..], left, right, i, 0)
    {
      i := i - 1;
      var j := |right|;
      while j > 0
        invariant 0 <= j <= |right|
        invariant Filled(table[..], left, right, i, j)
      {
        j := j - 1;
        FillCell(table, left, right, i, j);
      }
    }
  }

  // ------------------------------------------------------------------
  // The walk
  // ------------------------------------------------------------------

  // The hunk printed for left[ls..i] against right[rs..j].
  function MakeHunk(left: seq<string>, right: seq<string>, ls: nat, i: nat, rs: nat, j: nat): Hunk
    requires ls <= i <= |left| && rs <= j <= |right|
  {
    if i > ls && j > rs then Change(ls + 1, i, rs + 1, j, left[ls..i], right[rs..j])
    else if i > ls then Delete(ls + 1, i, rs, left[ls..i])
    else Add(ls, rs + 1, j, right[rs..j])
  }

  /** The hunks so far, with the lines since the last one, turn left[..i] into right[..j]. */
  predicate PatchedUpTo(hs: seq<Hunk>, left: seq<string>, right: seq<string>, i: nat, j: nat) {
    var p := PatchHunks(hs, left);
    && p.Patching? && p.pos <= i <= |left| && j <= |right|
    && p.out + left[p.pos..i] == right[..j]
    && (hs != [] ==> p.pos == hs[|hs| - 1].Span().1)
  }

  lemma KeepLine(hs: seq<Hunk>, left: seq<string>, right: seq<string>, i: nat, j: nat)
    requires PatchedUpTo(hs, left, right, i, j) && i < |left| && j < |right| && left[i] == right[j]
    ensures PatchedUpTo(hs, left, right, i + 1, j + 1)
  {
    var p := PatchHunks(hs, left);
    AddOne(p.out, left[p.pos..i], left[i]);
    assert left[p.pos..i + 1] == left[p.pos..i] + [left[i]];
    assert right[..j + 1] == right[..j] + [right[j]];
    assert p.out + left[p.pos..i + 1] == right[..j + 1];
  }

  lemma AddOne(x: seq<string>, y: seq<string>, z: string)
    ensures x + (y + [z]) == (x + y) + [z]
  {
  }

  lemma AppendHunk(hs: seq<Hunk>, left: seq<string>, right: seq<string>, ls: nat, i: nat, rs: nat, j: nat)
    requires ls <= i <= |left| && rs <= j <= |right| && (ls < i || rs < j)
    requires PatchedUpTo(hs, left, right, ls, rs)
    ensures PatchedUpTo(hs + [MakeHunk(left, right, ls, i, rs, j)], left, right, i, j)
  {
    var h := MakeHunk(left, right, ls, i, rs, j);
    assert (hs + [h])[..|hs|] == hs;
    var p := PatchHunks(hs, left);
    assert right[..j] == right[..rs] + right[rs..j];
    assert left[i..i] == [];
  }

  lemma ReversedAppend(hs: seq<Hunk>, left: seq<string>, right: seq<string>, ls: nat, i: nat, rs: nat, j: nat)
    requires ls <= i <= |left| && rs <= j <= |right| && (ls < i || rs < j)
    ensures Reversed(hs + [MakeHunk(left, right, ls, i, rs, j)]) == Reversed(hs) + [MakeHunk(right, left, rs, j, ls, i)]
  {
  }

  /** What the walk keeps at every line pair it stands on, with `kept` equal lines so far. */
  ghost predicate WalkAt(hs: seq<Hunk>, left: seq<string>, right: seq<string>, i: nat, j: nat, kept: nat) {
    && PatchedUpTo(hs, left, right, i, j)
    && PatchedUpTo(Reversed(hs), right, left, j, i)
    && Separated(hs) && LinesRemoved(hs) + kept == i && LinesAdded(hs) + kept == j
  }

  /** Those and the most that can still be kept are the most there are. */
  ghost predicate BestKept(left: seq<string>, right: seq<string>, i: nat, j: nat, kept: nat)
    requires i <= |left| && j <= |right|
  {
    kept + Lcs(left, i, right, j) == Lcs(left, 0, right, 0)
  }

  /** A new hunk may start here: no earlier one ends at this left line. */
  predicate Detached(hs: seq<Hunk>, i: int) {
    hs == [] || hs[|hs| - 1].Span().1 < i
  }

  lemma WalkKeeps(hs: seq<Hunk>, left: seq<string>, right: seq<string>, i: nat, j: nat, kept: nat)
    requires i < |left| && j < |right| && left[i] == right[j] && Walking(hs, left, right, i, j, kept)
    ensures Walking(hs, left, right, i + 1, j + 1, kept + 1)
  {
    KeepLine(hs, left, right, i, j);
    KeepLine(Reversed(hs), right, left, j, i);
  }

  lemma CountsAppend(hs: seq<Hunk>, h: Hunk)
    ensures LinesRemoved(hs + [h]) == LinesRemoved(hs) + |h.Removed()|
    ensures LinesAdded(hs + [h]) == LinesAdded(hs) + |h.Added()|
  {
    assert (hs + [h])[..|hs|] == hs;
  }

  lemma SeparatedAppend(hs: seq<Hunk>, h: Hunk)
    requires Separated(hs) && |h.Removed()| + |h.Added()| > 0 && Detached(hs, h.Span().0)
    ensures Separated(hs + [h])
  {
  }

  // The hunk for left[ls..i] against right[rs..j], after the earlier ones.
  method Emit(hs: seq<Hunk>, left: seq<string>, right: seq<string>, ls: nat, i: nat, rs: nat, j: nat, ghost kept: nat)
      returns (more: seq<Hunk>)
    requires ls <= i <= |left| && rs <= j <= |right| && (ls < i || rs < j)
    requires WalkAt(hs, left, right, ls, rs, kept) && Detached(hs, ls)
    ensures WalkAt(more, left, right, i, j, kept)
  {
    var h := MakeHunk(left, right, ls, i, rs, j);
    AppendHunk(hs, left, right, ls, i, rs, j);
    ReversedAppend(hs, left, right, ls, i, rs, j);
    AppendHunk(Reversed(hs), right, left, rs, j, ls, i);
    CountsAppend(hs, h);
    SeparatedAppend(hs, h);
    more := hs + [h];
  }

  // From a mismatch to the next pair of equal lines, or to both ends.
  method SkipMismatch(table: array<uint16>, left: seq<string>, right: seq<string>, ls: nat, rs: nat)
      returns (i: nat, j: nat)
    requires Filled(table[..], left, right, 0, 0)
    requires ls <= |left| && rs <= |right| && (ls < |left| || rs < |right|)
    requires !(ls < |left| && rs < |right| && left[ls] == right[rs])
    ensures ls <= i <= |left| && rs <= j <= |right| && (ls < i || rs < j)
    ensures Lcs(left, ls, right, rs) == Lcs(left, i, right, j)
    ensures (i == |left| && j == |right|) || (i < |left| && j < |right| && left[i] == right[j])
  {
    var n := |right|;
    i, j := ls, rs;
    while i < |left| || j < |right|
      invariant ls <= i <= |left| && rs <= j <= |right|
      invariant (i, j) != (ls, rs) || !(i < |left| && j < |right| && left[i] == right[j])
      invariant Lcs(left, ls, right, rs) == Lcs(left, i, right, j)
      decreases |left| - i + |right| - j
    {
      if i < |left| && j < |right| && left[i] == right[j] {
        break;
      }
      if i < |left| && j < |right| {
        CellInRange(i + 1, j, |left|, n);
        CellInRange(i, j + 1, |left|, n);
      }
      if j >= |right| || (i < |left| && table[Cell(i + 1, j, n)] >= table[Cell(i, j + 1, n)]) {
        i := i + 1;
      } else {
        j := j + 1;
      }
    }
  }

  /** The hunks patch left into right and, reversed, right into left; they are
      separate, and remove and add everything but a longest common subsequence. */
  ghost predicate IsMinimalDiff(hs: seq<Hunk>, left: seq<string>, right: seq<string>) {
    && Patches(hs, left, right) && Patches(Reversed(hs), right, left) && Separated(hs)
    && LinesRemoved(hs) == |left| - Lcs(left, 0, right, 0)
    && LinesAdded(hs) == |right| - Lcs(left, 0, right, 0)
  }

  method Walk(table: array<uint16>, left: seq<string>, right: seq<string>) returns (hs: seq<Hunk>)
    requires Filled(table[..], left, right, 0, 0)
    ensures IsMinimalDiff(hs, left, right)
  {
    hs := [];
    var i, j := 0, 0;
    ghost var kept := 0;
    WalkStarts(left, right);
    while i < |left| || j < |right|
      invariant i <= |left| && j <= |right|
      invariant Walking(hs, left, right, i, j, kept)
      decreases |left| - i + |right| - j
    {
      hs, i, j, kept := WalkOn(table, hs, left, right, i, j, kept);
    }
    WalkDone(hs, left, right, kept);
  }

  // One equal pair of lines, or one mismatch, skipped and printed.
  method WalkOn(table: array<uint16>, hs: seq<Hunk>, left: seq<string>, right: seq<string>, ls: nat, rs: nat,
                ghost kept: nat)
      returns (more: seq<Hunk>, i: nat, j: nat, ghost kept': nat)
    requires Filled(table[..], left, right, 0, 0)
    requires ls <= |left| && rs <= |right| && (ls < |left| || rs < |right|) && Walking(hs, left, right, ls, rs, kept)
    ensures ls <= i <= |left| && rs <= j <= |right| && (ls < i || rs < j) && Walking(more, left, right, i, j, kept')
  {
    more, kept' := hs, kept;
    if ls < |left| && rs < |right| && left[ls] == right[rs] {
      WalkKeeps(hs, left, right, ls, rs, kept);
      i, j, kept' := ls + 1, rs + 1, kept + 1;
    } else {
      i, j := SkipMismatch(table, left, right, ls, rs);
      more := EmitNext(hs, left, right, ls, i, rs, j, kept);
    }
  }

  ghost predicate Walking(hs: seq<Hunk>, left: seq<string>, right: seq<string>, i: nat, j: nat, kept: nat)
    requires i <= |left| && j <= |right|
  {
    var standing := WalkAt(hs, left, right, i, j, kept) && MayStop(hs, left, right, i, j);
    standing && BestKept(left, right, i, j, kept)
  }

  // At a mismatch, no hunk ends where the walk stands.
  predicate MayStop(hs: seq<Hunk>, left: seq<string>, right: seq<string>, i: nat, j: nat) {
    Detached(hs, i) || (i == |left| && j == |right|) || (i < |left| && j < |right| && left[i] == right[j])
  }

  // The hunk of a mismatch, after a walk that may stop there.
  method EmitNext(hs: seq<Hunk>, left: seq<string>, right: seq<string>, ls: nat, i: nat, rs: nat, j: nat,
                  ghost kept: nat)
      returns (more: seq<Hunk>)
    requires ls <= i <= |left| && rs <= j <= |right| && (ls < i || rs < j) && Walking(hs, left, right, ls, rs, kept)
    requires !(ls < |left| && rs < |right| && left[ls] == right[rs])
    requires (i == |left| && j == |right|) || (i < |left| && j < |right| && left[i] == right[j])
    requires Lcs(left, ls, right, rs) == Lcs(left, i, right, j)
    ensures Walking(more, left, right, i, j, kept)
  {
    more := Emit(hs, left, right, ls, i, rs, j, kept);
  }

  lemma WalkStarts(left: seq<string>, right: seq<string>)
    ensures Walking([], left, right, 0, 0, 0)
  {
    assert left[0..0] == [] && right[0..0] == [] && left[..0] == [] && right[..0] == [];
  }

  lemma WalkDone(hs: seq<Hunk>, left: seq<string>, right: seq<string>, kept: nat)
    requires Walking(hs, left, right, |left|, |right|, kept)
    ensures IsMinimalDiff(hs, left, right)
  {
    assert right[..|right|] == right && left[..|left|] == left;
  }

  /** Exit status 0 iff there is no difference; the hunks are printed unless brief. */
  method Compare(left: seq<string>, right: seq<string>, brief: bool) returns (status: int, hs: seq<Hunk>)
    requires |left| <= MAX_LINES && |right| <= MAX_LINES
    ensures status == if left == right then 0 else 1
    ensures if status == 1 && !brief then IsMinimalDiff(hs, left, right) else hs == []
  {
    var table := FillTable(left, right);
    FullLcsMeansEqual(left, 0, right, 0);
    assert left[0..] == left && right[0..] == right;
    CellInRange(0, 0, |left|, |right|);
    assert Cell(0, 0, |right|) == 0;
    var different := table[0] as int != |left| || |left| != |right|;
    if !different {
      return 0, [];
    }
    if brief {
      return 1, [];
    }
    hs := Walk(table, left, right);
    status := 1;
  }

  /** No edit script from left to right deletes and inserts fewer lines. */
  lemma NoScriptIsCheaper(hs: seq<Hunk>, left: seq<string>, right: seq<string>, es: seq<Edit<string>>)
    requires IsMinimalDiff(hs, left, right) && Play(es, left) == (true, right)
    ensures LinesRemoved(hs) + LinesAdded(hs) <= Cost(es)
  {
    assert left[0..] == left && right[0..] == right;
    ScriptCost(es, left, 0, right, 0);
  }

  // ------------------------------------------------------------------
  // From file contents
  // ------------------------------------------------------------------

  /** The whole command on two contents: 2 when either has too many lines. */
  method DiffContents(left: string, right: string, brief: bool) returns (status: int, hs: seq<Hunk>)
    ensures status == 2 <==> |LinesOf(left)| > MAX_LINES || |LinesOf(right)| > MAX_LINES
    ensures status != 2 ==> status == if CStrings(LinesOf(left)) == CStrings(LinesOf(right)) then 0 else 1
    ensures status == 1 && !brief ==> IsMinimalDiff(hs, CStrings(LinesOf(left)), CStrings(LinesOf(right)))
  {
    var l := new DiffLines();
    var result := l.Read(left);
    if result < 0 {
      return 2, [];
    }
    var r := new DiffLines();
    result := r.Read(right);
    if result < 0 {
      return 2, [];
    }
    status, hs := Compare(l.items, r.items, brief);
  }

  /** Without NULs, equal lines mean equal files and the patch rebuilds the file. */
  lemma NulFreeVerdict(left: string, right: string, hs: seq<Hunk>)
    requires '\0' !in left && '\0' !in right
    ensures CStrings(LinesOf(left)) == CStrings(LinesOf(right)) <==> left == right
    ensures IsMinimalDiff(hs, CStrings(LinesOf(left)), CStrings(LinesOf(right))) ==>
              var p := PatchHunks(hs, LinesOf(left));
              p.Patching? && p.pos <= |LinesOf(left)| && Concat(p.out + LinesOf(left)[p.pos..]) == right
  {
    NulFreeLines(left);
    NulFreeLines(right);
    SameLinesSameContent(left, right);
    LinesShape(right);
  }

  /** Two lines with the same characters up to the first NUL, or the end, of both. */
  ghost predicate AgreeToNul(x: string, y: string) {
    exists k: nat :: StopsAt(x, k) && StopsAt(y, k) && x[..k] == y[..k]
  }

  predicate StopsAt(x: string, k: nat) {
    k <= |x| && '\0' !in x[..k] && (k == |x| || x[k] == '\0')
  }

  lemma {:induction false} CStringStops(x: string)
    ensures StopsAt(x, |CString(x)|)
    ensures forall k: nat :: StopsAt(x, k) ==> CString(x) == x[..k]
  {
    if x != [] && x[0] != '\0' {
      CStringStops(x[1..]);
      var n := |CString(x[1..])|;
      assert x[..n + 1] == [x[0]] + x[1..][..n];
      forall k: nat | StopsAt(x, k)
        ensures CString(x) == x[..k]
      {
        assert x[..k] == [x[0]] + x[1..][..k - 1];
        assert StopsAt(x[1..], k - 1);
      }
    } else {
      assert forall k: nat :: 0 < k <= |x| ==> x[..k][0] == '\0';
    }
  }

  /** So different files count as equal exactly when they have as many lines and the lines
      agree, pair by pair, up to the first NUL. */
  lemma EqualVerdict(left: string, right: string)
    ensures CStrings(LinesOf(left)) == CStrings(LinesOf(right)) <==>
            |LinesOf(left)| == |LinesOf(right)| &&
            forall k :: 0 <= k < |LinesOf(left)| ==> AgreeToNul(LinesOf(left)[k], LinesOf(right)[k])
  {
    var ls, rs := LinesOf(left), LinesOf(right);
    if |ls| == |rs| {
      forall k | 0 <= k < |ls|
        ensures AgreeToNul(ls[k], rs[k]) <==> CStrings(ls)[k] == CStrings(rs)[k]
      {
        CStringStops(ls[k]);
        CStringStops(rs[k]);
        if CString(ls[k]) == CString(rs[k]) {
          assert StopsAt(ls[k], |CString(ls[k])|) && StopsAt(rs[k], |CString(ls[k])|);
        }
      }
      if CStrings(ls) == CStrings(rs) {
        assert forall k :: 0 <= k < |ls| ==> CStrings(ls)[k] == CStrings(rs)[k];
      }
    }
  }

  /** With a NUL the comparison stops there: these two files differ but count as equal. */
  lemma NulHidesTheRest()
    ensures "a\0b" != "a\0c"
    ensures CStrings(LinesOf("a\0b")) == CStrings(LinesOf("a\0c"))
  {
    OneLine("a\0b");
    OneLine("a\0c");
    assert CString("a\0b") == "a" == CString("a\0c");
  }

  lemma {:induction false} OneLine(c: string)
    requires '\n' !in c && c != []
    ensures LinesOf(c) == [c]
  {
    NoBreak(c);
  }

  lemma {:induction false} NoBreak(c: string)
    requires '\n' !in c
    ensures Split(c) == ([], c)
  {
    if c != [] {
      NoBreak(c[..|c| - 1]);
      assert c == c[..|c| - 1] + [c[|c| - 1]];
    }
  }
}
