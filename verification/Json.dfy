// JSON text as section 2 of RFC 8259 lays it out, and the scanners that walk over it.
module Json {

  predicate IsSpace(c: char) {
    c == ' ' || c == '\t' || c == '\n' || c == '\r'
  }

  predicate AllSpace(s: string) {
    forall k :: 0 <= k < |s| ==> IsSpace(s[k])
  }

  // ------------------------------------------------------------------
  // Values with their exact layout
  // ------------------------------------------------------------------

  // One character of a string literal, or a backslash and what it escapes (the
  // four digits after \u count as characters of their own).
  datatype Piece = Plain(c: char) | Escaped(c: char)

  datatype Value =
    | Literal(text: string)
    | Text(body: seq<Piece>)
    | Array(items: Items, inner: string)
    | Object(members: Members, inner: string)

  datatype Items = NoItems | Item(before: string, value: Value, after: string, more: Items)

  datatype Members =
    | NoMembers
    | Member(before: string, key: seq<Piece>, beforeColon: string, afterColon: string,
             value: Value, after: string, more: Members)

  predicate WellFormedBody(body: seq<Piece>) {
    forall k :: 0 <= k < |body| ==>
      body[k].c != '\0' && (body[k].Plain? ==> body[k].c != '"' && body[k].c != '\\')
  }

  /** Numbers, true, false and null: no structural character and no space. */
  predicate WellFormedLiteral(s: string) {
    s != "" && forall k :: 0 <= k < |s| ==>
      !IsSpace(s[k]) && s[k] !in {'\0', ',', ':', '"', '[', ']', '{', '}'}
  }

  predicate WellFormed(v: Value) {
    match v
    case Literal(text) => WellFormedLiteral(text)
    case Text(body) => WellFormedBody(body)
    case Array(items, inner) => AllSpace(inner) && WellFormedItems(items)
    case Object(members, inner) => AllSpace(inner) && WellFormedMembers(members)
  }

  predicate WellFormedItems(items: Items) {
    match items
    case NoItems => true
    case Item(before, value, after, more) =>
      AllSpace(before) && AllSpace(after) && WellFormed(value) && WellFormedItems(more)
  }

  predicate WellFormedMembers(ms: Members) {
    match ms
    case NoMembers => true
    case Member(before, key, beforeColon, afterColon, value, after, more) =>
      AllSpace(before) && AllSpace(beforeColon) && AllSpace(afterColon) && AllSpace(after) &&
      WellFormedBody(key) && WellFormed(value) && WellFormedMembers(more)
  }

  // Each text is written in front of what follows it.

  function BodyText(body: seq<Piece>, rest: string): string {
    if body == [] then rest
    else if body[0].Plain? then [body[0].c] + BodyText(body[1..], rest)
    else ['\\', body[0].c] + BodyText(body[1..], rest)
  }

  function ValueText(v: Value, rest: string): string
    decreases v, 1
  {
    match v
    case Literal(text) => text + rest
    case Text(body) => "\"" + BodyText(body, "\"" + rest)
    case Array(items, inner) => "[" + ItemsText(items, inner + ("]" + rest))
    case Object(members, inner) => "{" + MembersText(members, inner + ("}" + rest))
  }

  function ItemsText(items: Items, rest: string): string
    decreases items, 0
  {
    match items
    case NoItems => rest
    case Item(before, value, after, more) => before + ValueText(value, after + NextItem(more, rest))
  }

  function NextItem(items: Items, rest: string): string
    decreases items, 1
  {
    if items.NoItems? then rest else "," + ItemsText(items, rest)
  }

  // A member's name and colon, before its value.
  function KeyText(before: string, key: seq<Piece>, beforeColon: string, afterColon: string, rest: string): string {
    before + ("\"" + BodyText(key, "\"" + (beforeColon + (":" + (afterColon + rest)))))
  }

  function MembersText(ms: Members, rest: string): string
    decreases ms, 0
  {
    match ms
    case NoMembers => rest
    case Member(before, key, beforeColon, afterColon, value, after, more) =>
      KeyText(before, key, beforeColon, afterColon, ValueText(value, after + NextMember(more, rest)))
  }

  function NextMember(ms: Members, rest: string): string
    decreases ms, 1
  {
    if ms.NoMembers? then rest else "," + MembersText(ms, rest)
  }

  // ------------------------------------------------------------------
  // Scanners, on what is left of the text
  // ------------------------------------------------------------------

  predicate Starts(t: string, c: char) {
    t != "" && t[0] == c
  }

  function SkipSpace(t: string): (r: string)
    ensures |r| <= |t| && (r == "" || !IsSpace(r[0]))
    ensures t != "" && IsSpace(t[0]) ==> |r| < |t|
  {
    if t != "" && IsSpace(t[0]) then SkipSpace(t[1..]) else t
  }

  /** Up to the closing quote of a string. */
  function ToQuote(t: string): (r: string)
    ensures |r| <= |t| && (r == "" || r[0] == '"')
  {
    if t == "" || t[0] == '"' then t
    else if t[0] == '\\' && |t| > 1 then ToQuote(t[2..])
    else ToQuote(t[1..])
  }

  function PastQuote(t: string): (r: string)
    ensures |r| <= |t|
  {
    var q := ToQuote(t);
    if q == "" then q else q[1..]
  }

  /** Past the bracket that closes the current depth. */
  function SkipNested(t: string, depth: nat): (r: string)
    ensures |r| <= |t|
    decreases |t|
  {
    if t == "" || depth == 0 then t
    else if t[0] == '[' || t[0] == '{' then SkipNested(t[1..], depth + 1)
    else if t[0] == ']' || t[0] == '}' then SkipNested(t[1..], depth - 1)
    else if t[0] == '"' then SkipNested(PastQuote(t[1..]), depth)
    else SkipNested(t[1..], depth)
  }

  predicate IsDelimiter(c: char) {
    c == ',' || c == '}' || c == ']'
  }

  function ToDelimiter(t: string): (r: string)
    ensures |r| <= |t| && (t != "" && !IsDelimiter(t[0]) ==> |r| < |t|)
  {
    if t == "" || IsDelimiter(t[0]) then t else ToDelimiter(t[1..])
  }

  function SkipValue(t: string): (r: string)
    ensures |r| <= |SkipSpace(t)|
    ensures SkipSpace(t) != "" && !IsDelimiter(SkipSpace(t)[0]) ==> |r| < |t|
  {
    var u := SkipSpace(t);
    if Starts(u, '"') then PastQuote(u[1..])
    else if Starts(u, '[') || Starts(u, '{') then SkipNested(u[1..], 1)
    else ToDelimiter(u)
  }

  function Unescape(c: char): char {
    if c == 'n' then '\n' else if c == 't' then '\t' else c
  }

  /** The characters up to the closing quote after `out`, cut at max - 1; and the rest. */
  function StringLoop(t: string, max: nat, out: string): (r: (string, string))
    ensures |r.1| <= |t|
    ensures |out| < max ==> |r.0| < max
    decreases |t|
  {
    if t == "" || t[0] == '"' then (out, t)
    else if t[0] == '\\' && |t| > 1 then StringLoop(t[2..], max, Put(out, Unescape(t[1]), max))
    else StringLoop(t[1..], max, Put(out, t[0], max))
  }

  function Put(out: string, c: char, max: nat): string {
    if |out| + 1 < max then out + [c] else out
  }

  /** A whole string literal; the opening quote must be there. */
  function ParseString(t: string, max: nat): (r: (string, string))
    requires Starts(t, '"')
    ensures |r.1| < |t|
  {
    var (out, q) := StringLoop(t[1..], max, "");
    (out, if q == "" then q else q[1..])
  }

  /** Reading a string ends where skipping it does, whatever the room for it. */
  lemma {:induction false} LoopEnds(t: string, max: nat, out: string)
    ensures StringLoop(t, max, out).1 == ToQuote(t)
    decreases |t|
  {
    if t == "" || t[0] == '"' {
    } else if t[0] == '\\' && |t| > 1 {
      LoopEnds(t[2..], max, Put(out, Unescape(t[1]), max));
    } else {
      LoopEnds(t[1..], max, Put(out, t[0], max));
    }
  }

  // ------------------------------------------------------------------
  // The scanners stop exactly where the values do
  // ------------------------------------------------------------------

  lemma {:induction false} SpaceSkipped(w: string, t: string)
    requires AllSpace(w)
    ensures SkipSpace(w + t) == SkipSpace(t)
  {
    if w == "" {
      assert w + t == t;
    } else {
      assert (w + t)[1..] == w[1..] + t;
      SpaceSkipped(w[1..], t);
    }
  }

  lemma {:induction false} NestedSpace(w: string, t: string, depth: nat)
    requires AllSpace(w) && depth > 0
    ensures SkipNested(w + t, depth) == SkipNested(t, depth)
  {
    if w == "" {
      assert w + t == t;
    } else {
      assert (w + t)[1..] == w[1..] + t;
      NestedSpace(w[1..], t, depth);
    }
  }

  lemma {:induction false} NestedLiteral(s: string, t: string, depth: nat)
    requires (s == "" || WellFormedLiteral(s)) && depth > 0
    ensures SkipNested(s + t, depth) == SkipNested(t, depth)
  {
    if s == "" {
      assert s + t == t;
    } else {
      assert (s + t)[1..] == s[1..] + t;
      NestedLiteral(s[1..], t, depth);
    }
  }

  lemma {:induction false} BodyEnds(body: seq<Piece>, rest: string)
    requires WellFormedBody(body)
    ensures ToQuote(BodyText(body, "\"" + rest)) == "\"" + rest
    ensures PastQuote(BodyText(body, "\"" + rest)) == rest
  {
    var t := BodyText(body, "\"" + rest);
    if body != [] {
      BodyEnds(body[1..], rest);
      var tail := BodyText(body[1..], "\"" + rest);
      if body[0].Plain? {
        assert t[1..] == tail;
      } else {
        assert t[2..] == tail;
      }
    }
  }

  /** Inside any container, a nested value of any shape is passed over whole. */
  lemma {:induction false} NestedValue(v: Value, rest: string, depth: nat)
    requires WellFormed(v) && depth > 0
    ensures SkipNested(ValueText(v, rest), depth) == SkipNested(rest, depth)
    decreases v
  {
    var t := ValueText(v, rest);
    match v
    case Literal(text) => NestedLiteral(text, rest, depth);
    case Text(body) =>
      BodyEnds(body, rest);
      assert t[1..] == BodyText(body, "\"" + rest);
    case Array(items, inner) =>
      var close := "]" + rest;
      assert t[1..] == ItemsText(items, inner + close);
      NestedItems(items, inner + close, depth + 1);
      NestedSpace(inner, close, depth + 1);
      assert close[1..] == rest;
    case Object(members, inner) =>
      var close := "}" + rest;
      assert t[1..] == MembersText(members, inner + close);
      NestedMembers(members, inner + close, depth + 1);
      NestedSpace(inner, close, depth + 1);
      assert close[1..] == rest;
  }

  lemma {:induction false} NestedItems(items: Items, rest: string, depth: nat)
    requires WellFormedItems(items) && depth > 0
    ensures SkipNested(ItemsText(items, rest), depth) == SkipNested(rest, depth)
    decreases items
  {
    match items
    case NoItems =>
    case Item(before, value, after, more) =>
      var next := NextItem(more, rest);
      NestedSpace(before, ValueText(value, after + next), depth);
      NestedValue(value, after + next, depth);
      NestedSpace(after, next, depth);
      NestedItems(more, rest, depth);
      if !more.NoItems? {
        assert next[1..] == ItemsText(more, rest);
      }
  }

  lemma NestedKey(before: string, key: seq<Piece>, beforeColon: string, afterColon: string, rest: string, depth: nat)
    requires AllSpace(before) && AllSpace(beforeColon) && AllSpace(afterColon) && WellFormedBody(key) && depth > 0
    ensures SkipNested(KeyText(before, key, beforeColon, afterColon, rest), depth) == SkipNested(rest, depth)
  {
    var val := afterColon + rest;
    var colon := beforeColon + (":" + val);
    var name := "\"" + BodyText(key, "\"" + colon);
    NestedSpace(before, name, depth);
    assert name[1..] == BodyText(key, "\"" + colon);
    BodyEnds(key, colon);
    NestedSpace(beforeColon, ":" + val, depth);
    assert (":" + val)[1..] == val;
    NestedSpace(afterColon, rest, depth);
  }

  lemma {:induction false} NestedMembers(ms: Members, rest: string, depth: nat)
    requires WellFormedMembers(ms) && depth > 0
    ensures SkipNested(MembersText(ms, rest), depth) == SkipNested(rest, depth)
    decreases ms
  {
    match ms
    case NoMembers =>
    case Member(before, key, beforeColon, afterColon, value, after, more) =>
      var next := NextMember(more, rest);
      NestedKey(before, key, beforeColon, afterColon, ValueText(value, after + next), depth);
      NestedValue(value, after + next, depth);
      NestedSpace(after, next, depth);
      NestedMembers(more, rest, depth);
      if !more.NoMembers? {
        assert next[1..] == MembersText(more, rest);
      }
  }

  /** Only spaces stand before the next comma or closing bracket. */
  predicate DelimiterNext(t: string) {
    SkipSpace(t) != "" && IsDelimiter(SkipSpace(t)[0])
  }

  lemma {:induction false} LiteralEnds(s: string, t: string)
    requires (s == "" || WellFormedLiteral(s)) && DelimiterNext(t)
    ensures ToDelimiter(s + t) == SkipSpace(t)
    decreases |s|, |t|
  {
    if s != "" {
      assert (s + t)[1..] == s[1..] + t;
      LiteralEnds(s[1..], t);
    } else {
      assert s + t == t;
      if IsSpace(t[0]) {
        assert "" + t[1..] == t[1..];
        LiteralEnds("", t[1..]);
      }
    }
  }

  /** Skipping a value ends exactly past it, up to the spaces after a literal. */
  lemma ValueSkipped(v: Value, rest: string)
    requires WellFormed(v) && DelimiterNext(rest)
    ensures SkipSpace(SkipValue(ValueText(v, rest))) == SkipSpace(rest)
    ensures !v.Literal? ==> SkipValue(ValueText(v, rest)) == rest
  {
    var t := ValueText(v, rest);
    if v.Literal? {
      assert t[0] == v.text[0];
      LiteralEnds(v.text, rest);
      SpaceAgain(rest);
    } else {
      ContainerSkipped(v, rest);
    }
  }

  lemma SpaceAgain(t: string)
    ensures SkipSpace(SkipSpace(t)) == SkipSpace(t)
  {
  }

  /** A string, array or object is skipped exactly, whatever follows it. */
  lemma ContainerSkipped(v: Value, rest: string)
    requires WellFormed(v) && !v.Literal?
    ensures SkipValue(ValueText(v, rest)) == rest
  {
    var t := ValueText(v, rest);
    match v
    case Text(body) =>
      assert t[1..] == BodyText(body, "\"" + rest);
      BodyEnds(body, rest);
    case Array(items, inner) =>
      var close := "]" + rest;
      assert t[1..] == ItemsText(items, inner + close);
      NestedItems(items, inner + close, 1);
      NestedSpace(inner, close, 1);
      assert close[1..] == rest;
    case Object(members, inner) =>
      var close := "}" + rest;
      assert t[1..] == MembersText(members, inner + close);
      NestedMembers(members, inner + close, 1);
      NestedSpace(inner, close, 1);
      assert close[1..] == rest;
  }

  // ------------------------------------------------------------------
  // What a string literal is read as
  // ------------------------------------------------------------------

  /** The characters the reader makes of a body. */
  function ReadAs(body: seq<Piece>): (r: string)
    ensures |r| == |body|
  {
    if body == [] then ""
    else [if body[0].Plain? then body[0].c else Unescape(body[0].c)] + ReadAs(body[1..])
  }

  /** The characters RFC 8259 section 7 gives the two-character escapes. */
  function Meaning(p: Piece): char {
    if p.Plain? then p.c
    else match p.c
      case 'b' => '\U{0008}'
      case 'f' => '\U{000C}'
      case 'n' => '\n'
      case 'r' => '\r'
      case 't' => '\t'
      case _ => p.c
  }

  function Meanings(body: seq<Piece>): (r: string)
    ensures |r| == |body|
  {
    if body == [] then "" else [Meaning(body[0])] + Meanings(body[1..])
  }

  /** The reader gets a string right iff it uses none of the escapes b, f and r. */
  lemma {:induction false} ReadCorrectly(body: seq<Piece>)
    ensures ReadAs(body) == Meanings(body) <==>
            forall k :: 0 <= k < |body| && body[k].Escaped? ==> body[k].c !in {'b', 'f', 'r'}
  {
    if body != [] {
      ReadCorrectly(body[1..]);
      assert forall k :: 1 <= k < |body| ==> body[k] == body[1..][k - 1];
      assert ReadAs(body)[1..] == ReadAs(body[1..]) && Meanings(body)[1..] == Meanings(body[1..]);
      assert ReadAs(body)[0] == Meanings(body)[0] <==> (body[0].Escaped? ==> body[0].c !in {'b', 'f', 'r'});
      if ReadAs(body[1..]) == Meanings(body[1..]) && ReadAs(body)[0] == Meanings(body)[0] {
        assert ReadAs(body) == Meanings(body);
      }
    }
  }

  /** s cut to fit a field of max bytes. */
  function Fit(s: string, max: nat): string {
    if |s| < max then s else if max == 0 then "" else s[..max - 1]
  }

  lemma {:induction false} LoopReads(body: seq<Piece>, rest: string, max: nat, out: string)
    requires WellFormedBody(body) && |out| < max
    ensures StringLoop(BodyText(body, "\"" + rest), max, out) == (Fit(out + ReadAs(body), max), "\"" + rest)
  {
    var t := BodyText(body, "\"" + rest);
    if body == [] {
      assert out + "" == out;
    } else {
      var tail := BodyText(body[1..], "\"" + rest);
      var c := if body[0].Plain? then body[0].c else Unescape(body[0].c);
      if body[0].Plain? {
        assert t[1..] == tail;
      } else {
        assert t[2..] == tail;
      }
      LoopReads(body[1..], rest, max, Put(out, c, max));
      FitStep(out, c, ReadAs(body[1..]), max);
    }
  }

  lemma FitStep(out: string, c: char, more: string, max: nat)
    requires |out| < max
    ensures Fit(Put(out, c, max) + more, max) == Fit(out + ([c] + more), max)
  {
    assert out + ([c] + more) == (out + [c]) + more;
    if |out| + 1 >= max {
      assert (out + [c] + more)[..max - 1] == out == (out + more)[..max - 1];
    }
  }

  /** A literal is read whole when it fits its field, cut to fit otherwise. */
  lemma StringRead(body: seq<Piece>, rest: string, max: nat)
    requires WellFormedBody(body) && max > 0
    ensures ParseString(ValueText(Text(body), rest), max) == (Fit(ReadAs(body), max), rest)
  {
    var t := ValueText(Text(body), rest);
    assert t[1..] == BodyText(body, "\"" + rest);
    LoopReads(body, rest, max, "");
    assert "" + ReadAs(body) == ReadAs(body);
  }
}
