// Searching the lines is searching the text as one string, from the cursor on and round.
module FlatSearch {
  import opened FlatText
  import opened EditBuffer
  import opened EditorStep

  /** The pattern stands at an offset. */
  predicate At(s: string, pat: string, o: int) {
    0 <= o && o + |pat| <= |s| && s[o..o + |pat|] == pat
  }

  /** The first place behind an offset, or the first of all when there is none behind it. */
  ghost predicate NextPlace(s: string, pat: string, at: int, o: int) {
    && At(s, pat, o)
    && (if o > at then forall p :: At(s, pat, p) && p > at ==> o <= p
        else forall p :: At(s, pat, p) ==> p <= at && o <= p)
  }

  lemma OccursAt(b: Buffer, pat: string, y: int, x: int)
    requires ValidBuffer(b) && Occurs(b.rows, pat, y, x)
    ensures At(TextOf(b), pat, Offset(Texts(b.rows), y, x))
  {
    var lines := Texts(b.rows);
    FlatAround(lines, y);
    Inner(Before(lines, y), lines[y], From(lines, y + 1), x, pat);
  }

  lemma Inner(before: string, line: string, after: string, x: int, pat: string)
    requires 0 <= x && x + |pat| <= |line| && line[x..x + |pat|] == pat
    ensures At(before + line + after, pat, |before| + x)
  {
    MiddlePart(before, line, after, x, |pat|);
  }

  lemma MiddlePart(before: string, line: string, after: string, x: int, n: nat)
    requires 0 <= x && x + n <= |line|
    ensures (before + line + after)[|before| + x..|before| + x + n] == line[x..x + n]
  {
    var s, o := before + line + after, |before| + x;
    var u, v := s[o..o + n], line[x..x + n];
    forall k | 0 <= k < n
      ensures u[k] == v[k]
    {
      assert u[k] == s[o + k] == line[x + k];
    }
  }

  /** Every offset lies in a line, or at its end. */
  lemma {:induction false} LineAt(lines: seq<string>, n: nat, o: int) returns (y: nat, x: nat)
    requires 0 < n <= |lines| && 0 <= o <= |Before(lines, n - 1)| + |lines[n - 1]|
    ensures y < n && x <= |lines[y]| && Offset(lines, y, x) == o
  {
    if o >= |Before(lines, n - 1)| {
      y, x := n - 1, o - |Before(lines, n - 1)|;
    } else {
      y, x := LineAt(lines, n - 1, o);
    }
  }

  lemma PlaceOccurs(b: Buffer, pat: string, o: int) returns (y: nat, x: nat)
    requires ValidBuffer(b) && pat != "" && '\n' !in pat && At(TextOf(b), pat, o)
    ensures Occurs(b.rows, pat, y, x) && Offset(Texts(b.rows), y, x) == o
  {
    var lines := Texts(b.rows);
    y, x := LineAt(lines, |lines|, o);
    FlatAround(lines, y);
    StaysInLine(Before(lines, y), lines[y], From(lines, y + 1), x, pat);
  }

  lemma StaysInLine(before: string, line: string, after: string, x: nat, pat: string)
    requires x <= |line| && pat != "" && '\n' !in pat && (after == "" || after[0] == '\n')
    requires At(before + line + after, pat, |before| + x)
    ensures x + |pat| <= |line| && line[x..x + |pat|] == pat
  {
    var s, o := before + line + after, |before| + x;
    forall i | o <= i < o + |pat|
      ensures s[i] != '\n'
    {
      assert s[i] == s[o..o + |pat|][i - o] == pat[i - o];
    }
    assert after != "" ==> s[|before| + |line|] == '\n';
    MiddlePart(before, line, after, x, |pat|);
  }

  lemma OffsetsInOrder(lines: seq<string>, y: nat, x: nat, v: nat, u: nat)
    requires y < |lines| && v < |lines| && x <= |lines[y]| && u <= |lines[v]|
    ensures Earlier(y, x, v, u) <==> Offset(lines, y, x) < Offset(lines, v, u)
  {
    if y < v {
      BeforeGrows(lines, y, v);
    } else if v < y {
      BeforeGrows(lines, v, y);
    }
  }

  lemma NextIsNext(b: Buffer, pat: string, y: int, x: int)
    requires ValidBuffer(b) && pat != "" && '\n' !in pat && NextOccurrence(b, pat, y, x)
    ensures NextPlace(TextOf(b), pat, OffsetOf(b), Offset(Texts(b.rows), y, x))
  {
    var lines, s, at, o := Texts(b.rows), TextOf(b), OffsetOf(b), Offset(Texts(b.rows), y, x);
    OccursAt(b, pat, y, x);
    OffsetsInOrder(lines, b.cy, b.cx, y, x);
    forall p | At(s, pat, p)
      ensures if o > at then p > at ==> o <= p else p <= at && o <= p
    {
      var v, u := PlaceOccurs(b, pat, p);
      OffsetsInOrder(lines, b.cy, b.cx, v, u);
      OffsetsInOrder(lines, v, u, y, x);
    }
  }

  /** A search puts the cursor at the next place of the pattern in the text, and leaves it
      where it was when there is none. */
  lemma SearchIsFlat(b: Buffer, pat: string, c: Buffer)
    requires Searched(b, pat, c) && pat != "" && '\n' !in pat
    ensures TextOf(c) == TextOf(b)
    ensures if exists o :: At(TextOf(b), pat, o) then NextPlace(TextOf(b), pat, OffsetOf(b), OffsetOf(c)) else c == b
  {
    if o :| At(TextOf(b), pat, o) {
      var y, x := PlaceOccurs(b, pat, o);
      assert Occurs(b.rows, pat, y, x);
      NextIsNext(b, pat, c.cy, c.cx);
    } else {
      forall y, x
        ensures !Occurs(b.rows, pat, y, x)
      {
        if Occurs(b.rows, pat, y, x) {
          OccursAt(b, pat, y, x);
        }
      }
    }
  }

  /** Search and replace puts the replacement at that place, and nothing else changes. */
  lemma ReplaceIsFlat(b: Buffer, pat: string, rep: string, c: Buffer)
    requires SearchedAndReplaced(b, pat, rep, c) && pat != "" && '\n' !in pat
    ensures (forall o :: !At(TextOf(b), pat, o)) ==> c == b
    ensures (exists o :: At(TextOf(b), pat, o)) ==>
              exists o :: NextPlace(TextOf(b), pat, OffsetOf(b), o) && OffsetOf(c) == o + |rep|
                && TextOf(c) == TextOf(b)[..o] + rep + TextOf(b)[o + |pat|..]
  {
    if forall y, x :: !Occurs(b.rows, pat, y, x) {
      forall o
        ensures !At(TextOf(b), pat, o)
      {
        if At(TextOf(b), pat, o) {
          var y, x := PlaceOccurs(b, pat, o);
        }
      }
    } else {
      var y, x :| NextOccurrence(b, pat, y, x) && ReplacedAt(b, y, x, |pat|, rep, c);
      NextIsNext(b, pat, y, x);
      OccursAt(b, pat, y, x);
      var o := Offset(Texts(b.rows), y, x);
      assert NextPlace(TextOf(b), pat, OffsetOf(b), o) && OffsetOf(c) == o + |rep|;
    }
  }
}
