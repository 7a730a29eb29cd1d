// Reading a package index: which packages are visited, with which fields.
module PkgIndex {
  import opened Json

  datatype Pkg = Pkg(name: string, version: string, description: string, author: string,
                     license: string, depends: string, arch: string, category: string)

  const NoPkg: Pkg := Pkg("", "", "", "", "", "", "", "")

  const KEY_SIZE: nat := 64
  const DEPENDS_SIZE: nat := 128

  predicate IsField(key: string) {
    key in {"name", "version", "description", "author", "license", "depends", "arch", "category"}
  }

  function FieldSize(key: string): (n: nat)
    ensures n > 0
  {
    if key == "name" || key == "author" then 64
    else if key == "version" || key == "license" || key == "category" then 32
    else if key == "arch" then 16
    else 128
  }

  function SetField(pkg: Pkg, key: string, s: string): Pkg {
    if key == "name" then pkg.(name := s)
    else if key == "version" then pkg.(version := s)
    else if key == "description" then pkg.(description := s)
    else if key == "author" then pkg.(author := s)
    else if key == "license" then pkg.(license := s)
    else if key == "depends" then pkg.(depends := s)
    else if key == "arch" then pkg.(arch := s)
    else if key == "category" then pkg.(category := s)
    else pkg
  }

  // One more dependency, comma-separated, when it fits.
  function AddDepend(acc: string, s: string): (r: string) {
    if s == "" then acc
    else
      var sep := if 0 < |acc| < DEPENDS_SIZE - 1 then acc + "," else acc;
      if |sep| + |s| < DEPENDS_SIZE - 1 then sep + s else sep
  }

  // ------------------------------------------------------------------
  // What an index means
  // ------------------------------------------------------------------

  /** The strings of a dependency array, joined; other items count for nothing. */
  function Depends(items: Items, acc: string): string {
    match items
    case NoItems => acc
    case Item(_, value, _, more) =>
      Depends(more, if value.Text? then AddDepend(acc, Fit(ReadAs(value.body), KEY_SIZE)) else acc)
  }

  function ApplyMember(pkg: Pkg, key: string, v: Value): Pkg {
    if v.Text? && IsField(key) then SetField(pkg, key, Fit(ReadAs(v.body), FieldSize(key)))
    else if v.Array? && key == "depends" then pkg.(depends := Depends(v.items, ""))
    else pkg
  }

  /** The package an object describes: known members in order, the last one winning. */
  function PackageOf(ms: Members, pkg: Pkg): Pkg {
    match ms
    case NoMembers => pkg
    case Member(_, key, _, _, value, _, more) =>
      PackageOf(more, ApplyMember(pkg, Fit(ReadAs(key), KEY_SIZE), value))
  }

  predicate AllObjects(items: Items) {
    items.NoItems? || (items.value.Object? && AllObjects(items.more))
  }

  function PackagesOf(items: Items): seq<Pkg>
    requires AllObjects(items)
  {
    if items.NoItems? then [] else [PackageOf(items.value.members, NoPkg)] + PackagesOf(items.more)
  }

  predicate IsPackages(key: seq<Piece>, v: Value) {
    Fit(ReadAs(key), KEY_SIZE) == "packages" && v.Array?
  }

  /** The first array under "packages", if there is one. */
  function FindPackages(ms: Members): (r: Members)
    ensures r.Member? ==> IsPackages(r.key, r.value)
  {
    if ms.NoMembers? || IsPackages(ms.key, ms.value) then ms else FindPackages(ms.more)
  }

  /** An index is an array of package objects, or an object holding one under "packages". */
  predicate IsIndex(v: Value) {
    || (v.Array? && AllObjects(v.items))
    || (v.Object? && FindPackages(v.members).Member? && AllObjects(FindPackages(v.members).value.items))
  }

  function IndexItems(v: Value): (items: Items)
    requires IsIndex(v)
    ensures AllObjects(items)
  {
    if v.Array? then v.items else FindPackages(v.members).value.items
  }

  // ------------------------------------------------------------------
  // The reader, on what is left of the text
  // ------------------------------------------------------------------

  // `Stuck` is a loop of the reader that would never advance again.
  datatype Outcome<T> = Done(value: T, rest: string) | Failed | Stuck

  function SkipComma(t: string): (r: string)
    ensures |r| <= |t| && (Starts(t, ',') ==> |r| < |t|) && (!Starts(t, ',') ==> r == t)
  {
    if Starts(t, ',') then SkipSpace(t[1..]) else t
  }

  // One turn of the loop over a dependency list: it leaves the loop, or comes round again.
  datatype Turn = Leave(deps: string, rest: string) | Again(deps: string, rest: string)

  function DependsTurn(t: string, acc: string): (r: Turn)
    ensures |r.rest| <= |t|
  {
    if t == "" || t[0] == ']' then Leave(acc, t)
    else
      var u := SkipComma(t);
      if Starts(u, ']') then Leave(acc, u)
      else if Starts(u, '"') then
        var (s, rest) := ParseString(u, KEY_SIZE);
        Again(AddDepend(acc, s), SkipSpace(rest))
      else Again(acc, SkipSpace(SkipValue(u)))
  }

  // Turn after turn, as long as they move on.
  function DependsLoop(t: string, acc: string): (r: Outcome<string>)
    ensures r.Done? ==> |r.rest| <= |t|
    ensures !r.Failed?
    decreases |t|
  {
    match DependsTurn(t, acc)
    case Leave(deps, rest) => Done(deps, rest)
    case Again(deps, rest) => if |rest| < |t| then DependsLoop(rest, deps) else Stuck
  }

  function ValueStep(key: string, t: string, pkg: Pkg): (r: Outcome<Pkg>)
    ensures r.Done? ==> |r.rest| <= |t|
    ensures !r.Failed?
  {
    if Starts(t, '"') then
      if IsField(key) then
        var (s, rest) := ParseString(t, FieldSize(key));
        Done(SetField(pkg, key, s), rest)
      else Done(pkg, SkipValue(t))
    else if Starts(t, '[') && key == "depends" then
      match DependsLoop(SkipSpace(t[1..]), "")
      case Done(deps, rest) => Done(pkg.(depends := deps), if Starts(rest, ']') then rest[1..] else rest)
      case _ => Stuck
    else Done(pkg, SkipValue(t))
  }

  // The key, the colon and the spaces around it.
  function KeyStep(t: string): (r: Outcome<string>)
    ensures r.Done? ==> |r.rest| < |t|
    ensures !r.Stuck?
  {
    if !Starts(t, '"') then Failed
    else
      var (key, rest) := ParseString(t, KEY_SIZE);
      var u := SkipSpace(rest);
      if Starts(u, ':') then Done(key, SkipSpace(u[1..])) else Failed
  }

  function ObjectLoop(t: string, pkg: Pkg): (r: Outcome<Pkg>)
    ensures r.Done? ==> |r.rest| <= |t|
    decreases |t|
  {
    if t == "" then Done(pkg, t)
    else if t[0] == '}' then Done(pkg, t[1..])
    else
      var u := SkipComma(SkipSpace(t));
      if Starts(u, '}') then Done(pkg, u[1..])
      else match KeyStep(u)
        case Done(key, v) =>
          (match ValueStep(key, v, pkg)
           case Done(pkg', rest) => ObjectLoop(SkipSpace(rest), pkg')
           case Failed => Failed
           case Stuck => Stuck)
        case _ => Failed
  }

  function ParseObject(t: string): (r: Outcome<Pkg>)
    ensures r.Done? ==> |r.rest| < |t|
  {
    var u := SkipSpace(t);
    if Starts(u, '{') then ObjectLoop(SkipSpace(u[1..]), NoPkg) else Failed
  }

  // To the bracket of the packages array, or to wherever the members end.
  function TopLoop(t: string): (r: Outcome<()>)
    ensures r.Done? ==> |r.rest| <= |t|
    decreases |t|
  {
    if t == "" || t[0] == '}' then Done((), t)
    else
      var u := SkipComma(t);
      if Starts(u, '}') then Done((), u)
      else match KeyStep(u)
        case Done(key, v) =>
          if key == "packages" && Starts(v, '[') then Done((), v) else TopLoop(SkipSpace(SkipValue(v)))
        case _ => Failed
  }

  // What the visitor is given, in order; it stops the walk by a non-zero result.
  datatype Visit = Visit(status: int, seen: seq<Pkg>, stuck: bool)

  function VisitLoop(t: string, visitor: Pkg -> int, seen: seq<Pkg>): Visit
    decreases |t|
  {
    if t == "" then Visit(-1, seen, false)
    else if t[0] == ']' then Visit(0, seen, false)
    else
      var u := SkipComma(t);
      if Starts(u, ']') then Visit(0, seen, false)
      else match ParseObject(u)
        case Done(pkg, rest) =>
          if visitor(pkg) != 0 then Visit(visitor(pkg), seen + [pkg], false)
          else VisitLoop(SkipSpace(rest), visitor, seen + [pkg])
        case Failed => Visit(-1, seen, false)
        case Stuck => Visit(-1, seen, true)
  }

  function VisitIndex(t: string, visitor: Pkg -> int): Visit {
    var u := SkipSpace(t);
    match if Starts(u, '{') then TopLoop(SkipSpace(u[1..])) else Done((), u)
    case Done(_, v) => if Starts(v, '[') then VisitLoop(SkipSpace(v[1..]), visitor, []) else Visit(-1, [], false)
    case _ => Visit(-1, [], false)
  }

  // ------------------------------------------------------------------
  // The reader reads what the index means
  // ------------------------------------------------------------------

  lemma ValueStarts(v: Value, rest: string)
    requires WellFormed(v)
    ensures var t := ValueText(v, rest);
            && t != "" && SkipSpace(t) == t && !IsDelimiter(t[0])
            && (Starts(t, '"') <==> v.Text?) && (Starts(t, '[') <==> v.Array?) && (Starts(t, '{') <==> v.Object?)
  {
    var t := ValueText(v, rest);
    if v.Literal? {
      assert t[0] == v.text[0];
    }
  }

  lemma Closing(inner: string, c: char, rest: string)
    requires AllSpace(inner) && IsDelimiter(c)
    ensures SkipSpace(inner + ([c] + rest)) == [c] + rest && ([c] + rest)[1..] == rest
    ensures DelimiterNext(inner + ([c] + rest))
  {
    SpaceSkipped(inner, [c] + rest);
  }

  /** Past the spaces after an item comes a comma or the closing bracket. */
  lemma AfterItem(after: string, more: Items, inner: string, c: char, rest: string)
    requires AllSpace(after) && AllSpace(inner) && IsDelimiter(c)
    ensures var next := NextItem(more, inner + ([c] + rest));
            DelimiterNext(after + next) && SkipSpace(after + next) == SkipSpace(next)
  {
    SpaceSkipped(after, NextItem(more, inner + ([c] + rest)));
    Closing(inner, c, rest);
  }

  // What one item adds to the dependencies.
  function DependsWith(value: Value, acc: string): string {
    if value.Text? then AddDepend(acc, Fit(ReadAs(value.body), KEY_SIZE)) else acc
  }

  lemma ItemTurn(value: Value, tail: string, acc: string)
    requires WellFormed(value) && DelimiterNext(tail)
    ensures DependsTurn(ValueText(value, tail), acc) == Again(DependsWith(value, acc), SkipSpace(tail))
    ensures |SkipSpace(tail)| < |ValueText(value, tail)|
  {
    ValueStarts(value, tail);
    ValueSkipped(value, tail);
    TurnMoves(ValueText(value, tail), acc);
    if value.Text? {
      StringRead(value.body, tail, KEY_SIZE);
    }
  }

  lemma CommaTurn(t: string, acc: string)
    requires SkipSpace(t) != "" && SkipSpace(t)[0] != ']' && SkipSpace(t)[0] != ','
    ensures SkipSpace("," + t) == "," + t && DependsTurn("," + t, acc) == DependsTurn(SkipSpace(t), acc)
  {
    CommaSkipped(t);
  }

  lemma {:induction false} DependsRead(items: Items, inner: string, rest: string, acc: string)
    requires WellFormedItems(items) && AllSpace(inner)
    ensures DependsLoop(SkipSpace(ItemsText(items, inner + ("]" + rest))), acc) == Done(Depends(items, acc), "]" + rest)
    ensures DependsLoop(SkipSpace(NextItem(items, inner + ("]" + rest))), acc) == Done(Depends(items, acc), "]" + rest)
    decreases items
  {
    var close := inner + ("]" + rest);
    Closing(inner, ']', rest);
    match items
    case NoItems =>
    case Item(before, value, after, more) =>
      var tail := after + NextItem(more, close);
      var t := ValueText(value, tail);
      SpaceSkipped(before, t);
      ValueStarts(value, tail);
      AfterItem(after, more, inner, ']', rest);
      ItemTurn(value, tail, acc);
      DependsRead(more, inner, rest, DependsWith(value, acc));
      assert DependsLoop(t, acc) == Done(Depends(items, acc), "]" + rest);
      CommaTurn(ItemsText(items, close), acc);
  }

  lemma ValueRead(key: string, v: Value, tail: string, pkg: Pkg)
    requires WellFormed(v) && DelimiterNext(tail)
    ensures ValueStep(key, ValueText(v, tail), pkg).Done?
    ensures ValueStep(key, ValueText(v, tail), pkg).value == ApplyMember(pkg, key, v)
    ensures SkipSpace(ValueStep(key, ValueText(v, tail), pkg).rest) == SkipSpace(tail)
  {
    ValueStarts(v, tail);
    ValueSkipped(v, tail);
    if v.Text? {
      StringRead(v.body, tail, FieldSize(key));
    } else if v.Array? {
      DependsRead(v.items, v.inner, tail, "");
      assert ValueText(v, tail)[1..] == ItemsText(v.items, v.inner + ("]" + tail));
      assert ("]" + tail)[1..] == tail;
    }
  }

  lemma KeyRead(before: string, key: seq<Piece>, beforeColon: string, afterColon: string, v: Value, tail: string)
    requires AllSpace(before) && AllSpace(beforeColon) && AllSpace(afterColon)
    requires WellFormedBody(key) && WellFormed(v)
    ensures var t := SkipSpace(KeyText(before, key, beforeColon, afterColon, ValueText(v, tail)));
            Starts(t, '"') && SkipSpace(t) == t && KeyStep(t) == Done(Fit(ReadAs(key), KEY_SIZE), ValueText(v, tail))
  {
    var val := ValueText(v, tail);
    var colon := beforeColon + (":" + (afterColon + val));
    SpaceSkipped(before, ValueText(Text(key), colon));
    StringRead(key, colon, KEY_SIZE);
    SpaceSkipped(beforeColon, ":" + (afterColon + val));
    assert (":" + (afterColon + val))[1..] == afterColon + val;
    SpaceSkipped(afterColon, val);
    ValueStarts(v, tail);
  }

  lemma AfterMember(after: string, more: Members, inner: string, rest: string)
    requires AllSpace(after) && AllSpace(inner)
    ensures var next := NextMember(more, inner + ("}" + rest));
            DelimiterNext(after + next) && SkipSpace(after + next) == SkipSpace(next)
  {
    SpaceSkipped(after, NextMember(more, inner + ("}" + rest)));
    Closing(inner, '}', rest);
  }

  /** An object of any layout, with any further members, is read as its package. */
  lemma {:induction false} MembersRead(ms: Members, inner: string, rest: string, pkg: Pkg)
    requires WellFormedMembers(ms) && AllSpace(inner)
    ensures ObjectLoop(SkipSpace(MembersText(ms, inner + ("}" + rest))), pkg) == Done(PackageOf(ms, pkg), rest)
    ensures ObjectLoop(SkipSpace(NextMember(ms, inner + ("}" + rest))), pkg) == Done(PackageOf(ms, pkg), rest)
    decreases ms
  {
    var close := inner + ("}" + rest);
    Closing(inner, '}', rest);
    match ms
    case NoMembers =>
    case Member(before, key, beforeColon, afterColon, value, after, more) =>
      var tail := after + NextMember(more, close);
      KeyRead(before, key, beforeColon, afterColon, value, tail);
      AfterMember(after, more, inner, rest);
      var name := Fit(ReadAs(key), KEY_SIZE);
      ValueRead(name, value, tail, pkg);
      MembersRead(more, inner, rest, ApplyMember(pkg, name, value));
      var text := MembersText(ms, close);
      CommaSkipped(text);
  }

  lemma CommaSkipped(t: string)
    ensures SkipComma("," + t) == SkipSpace(t) && SkipSpace("," + t) == "," + t
  {
    assert ("," + t)[1..] == t;
  }

  lemma ObjectRead(v: Value, rest: string)
    requires WellFormed(v) && v.Object?
    ensures ParseObject(ValueText(v, rest)) == Done(PackageOf(v.members, NoPkg), rest)
  {
    ValueStarts(v, rest);
    assert ValueText(v, rest)[1..] == MembersText(v.members, v.inner + ("}" + rest));
    MembersRead(v.members, v.inner, rest, NoPkg);
  }

  /** The packages seen: all of them, or up to the first the visitor stops at. */
  function Visited(pkgs: seq<Pkg>, visitor: Pkg -> int, seen: seq<Pkg>): Visit {
    if pkgs == [] then Visit(0, seen, false)
    else if visitor(pkgs[0]) != 0 then Visit(visitor(pkgs[0]), seen + [pkgs[0]], false)
    else Visited(pkgs[1..], visitor, seen + [pkgs[0]])
  }

  lemma {:induction false} ItemsVisited(items: Items, inner: string, rest: string, visitor: Pkg -> int, seen: seq<Pkg>)
    requires WellFormedItems(items) && AllObjects(items) && AllSpace(inner)
    ensures VisitLoop(SkipSpace(ItemsText(items, inner + ("]" + rest))), visitor, seen) ==
            Visited(PackagesOf(items), visitor, seen)
    ensures VisitLoop(SkipSpace(NextItem(items, inner + ("]" + rest))), visitor, seen) ==
            Visited(PackagesOf(items), visitor, seen)
    decreases items
  {
    var close := inner + ("]" + rest);
    Closing(inner, ']', rest);
    match items
    case NoItems =>
    case Item(before, value, after, more) =>
      var tail := after + NextItem(more, close);
      ValueStarts(value, tail);
      SpaceSkipped(before, ValueText(value, tail));
      CommaSkipped(ItemsText(items, close));
      AfterItem(after, more, inner, ']', rest);
      ObjectRead(value, tail);
      var pkg := PackageOf(value.members, NoPkg);
      assert PackagesOf(items)[0] == pkg && PackagesOf(items)[1..] == PackagesOf(more);
      ItemsVisited(more, inner, rest, visitor, seen + [pkg]);
  }

  /** Everything before the packages array is passed over. */
  lemma {:induction false} PackagesReached(ms: Members, inner: string, rest: string)
    requires WellFormedMembers(ms) && AllSpace(inner) && FindPackages(ms).Member?
    ensures var found := FindPackages(ms);
            var at := ValueText(found.value, found.after + NextMember(found.more, inner + ("}" + rest)));
            && TopLoop(SkipSpace(MembersText(ms, inner + ("}" + rest)))) == Done((), at)
            && TopLoop(SkipSpace(NextMember(ms, inner + ("}" + rest)))) == Done((), at)
            && WellFormed(found.value)
    decreases ms
  {
    var close := inner + ("}" + rest);
    var Member(before, key, beforeColon, afterColon, value, after, more) := ms;
    var tail := after + NextMember(more, close);
    KeyRead(before, key, beforeColon, afterColon, value, tail);
    CommaSkipped(MembersText(ms, close));
    ValueStarts(value, tail);
    if !IsPackages(key, value) {
      AfterMember(after, more, inner, rest);
      ValueSkipped(value, tail);
      PackagesReached(more, inner, rest);
    }
  }

  /** For every well-formed index, in any layout and with anything after it, exactly
      its packages are visited, in order and with their fields; nothing gets stuck. */
  lemma IndexVisited(before: string, v: Value, rest: string, visitor: Pkg -> int)
    requires WellFormed(v) && IsIndex(v) && AllSpace(before)
    ensures VisitIndex(before + ValueText(v, rest), visitor) == Visited(PackagesOf(IndexItems(v)), visitor, [])
  {
    var t := ValueText(v, rest);
    SpaceSkipped(before, t);
    ValueStarts(v, rest);
    if v.Array? {
      assert t[1..] == ItemsText(v.items, v.inner + ("]" + rest));
      ItemsVisited(v.items, v.inner, rest, visitor, []);
    } else {
      assert t[1..] == MembersText(v.members, v.inner + ("}" + rest));
      PackagesReached(v.members, v.inner, rest);
      var found := FindPackages(v.members);
      var tail := found.after + NextMember(found.more, v.inner + ("}" + rest));
      ValueStarts(found.value, tail);
      assert ValueText(found.value, tail)[1..] == ItemsText(found.value.items, found.value.inner + ("]" + tail));
      ItemsVisited(found.value.items, found.value.inner, tail, visitor, []);
    }
  }

  // ------------------------------------------------------------------
  // Dependencies, and the one way to get stuck
  // ------------------------------------------------------------------

  /** The non-empty strings among the items. */
  function Names(items: Items): seq<string> {
    match items
    case NoItems => []
    case Item(_, value, _, more) =>
      (if value.Text? && ReadAs(value.body) != "" then [ReadAs(value.body)] else []) + Names(more)
  }

  function JoinFrom(acc: string, names: seq<string>): (r: string)
    ensures |acc| <= |r|
    decreases |names|
  {
    if names == [] then acc
    else JoinFrom((if acc == "" then "" else acc + ",") + names[0], names[1..])
  }

  /** When everything fits, the dependencies are the names joined by commas. */
  lemma {:induction false} DependsJoined(items: Items, acc: string)
    requires forall k :: 0 <= k < |Names(items)| ==> |Names(items)[k]| < KEY_SIZE
    requires |JoinFrom(acc, Names(items))| < DEPENDS_SIZE - 1
    ensures Depends(items, acc) == JoinFrom(acc, Names(items))
    decreases items
  {
    match items
    case NoItems =>
    case Item(_, value, _, more) =>
      var names := Names(items);
      if value.Text? && ReadAs(value.body) != "" {
        var s := ReadAs(value.body);
        assert names[0] == s && names[1..] == Names(more);
        var next := (if acc == "" then "" else acc + ",") + s;
        assert AddDepend(acc, Fit(s, KEY_SIZE)) == next;
        assert forall k :: 0 <= k < |Names(more)| ==> Names(more)[k] == names[k + 1];
        DependsJoined(more, next);
      } else {
        assert names == Names(more);
        DependsJoined(more, acc);
      }
  }

  /** The loop, n turns on. */
  function AfterTurns(t: string, acc: string, n: nat): Turn
    decreases n
  {
    if n == 0 then Again(acc, t)
    else
      match DependsTurn(t, acc)
      case Leave(deps, rest) => Leave(deps, rest)
      case Again(deps, rest) => AfterTurns(rest, deps, n - 1)
  }

  /** A closing brace stands where an item is looked for, before any closing bracket: the
      list is scanned item by item, each skipped with one comma before it. */
  predicate BraceAhead(t: string)
    decreases |t|
  {
    && t != "" && t[0] != ']'
    && (t[0] == '}' || (!Starts(SkipComma(t), ']') && (TurnMoves(t, ""); BraceAhead(ItemPassed(t)))))
  }

  function ItemPassed(t: string): (r: string) {
    SkipSpace(SkipValue(SkipComma(t)))
  }

  /** A turn at a closing brace changes nothing; any other turn moves on, past one item. */
  lemma TurnMoves(t: string, acc: string)
    requires t != "" && t[0] != ']'
    ensures t[0] == '}' ==> DependsTurn(t, acc) == Again(acc, t)
    ensures t[0] != '}' ==> |ItemPassed(t)| < |t|
    ensures t[0] != '}' && !Starts(SkipComma(t), ']') ==>
              DependsTurn(t, acc).Again? && DependsTurn(t, acc).rest == ItemPassed(t)
  {
    var u := SkipComma(t);
    if Starts(u, '"') {
      LoopEnds(u[1..], KEY_SIZE, "");
    }
    if Starts(u, '}') {
      assert SkipSpace(u) == u && SkipValue(u) == u;
    }
  }

  /** The loop never ends exactly when such a brace is ahead. */
  lemma {:induction false} StuckAtBrace(t: string, acc: string)
    ensures DependsLoop(t, acc).Stuck? <==> BraceAhead(t)
    decreases |t|
  {
    if t != "" && t[0] != ']' {
      TurnMoves(t, acc);
      if t[0] != '}' && !Starts(SkipComma(t), ']') {
        StuckAtBrace(ItemPassed(t), DependsTurn(t, acc).deps);
      }
    }
  }

  /** It leaves with a result exactly when some number of turns does. */
  lemma {:induction false} LoopIsTurns(t: string, acc: string)
    ensures DependsLoop(t, acc).Done? ==>
            exists n: nat :: AfterTurns(t, acc, n) == Leave(DependsLoop(t, acc).value, DependsLoop(t, acc).rest)
    ensures DependsLoop(t, acc).Stuck? ==> forall n: nat :: AfterTurns(t, acc, n).Again?
    decreases |t|
  {
    var turn := DependsTurn(t, acc);
    if turn.Leave? {
      assert AfterTurns(t, acc, 1) == turn;
    } else if |turn.rest| < |t| {
      LoopIsTurns(turn.rest, turn.deps);
      OneTurnMore(t, acc);
    } else {
      TurnMoves(t, acc);
      forall n: nat
        ensures AfterTurns(t, acc, n).Again?
      {
        RoundForEver(t, acc, n);
      }
    }
  }

  lemma OneTurnMore(t: string, acc: string)
    requires DependsTurn(t, acc).Again?
    ensures forall n: nat ::
              AfterTurns(t, acc, n + 1) == AfterTurns(DependsTurn(t, acc).rest, DependsTurn(t, acc).deps, n)
  {
  }

  lemma {:induction false} RoundForEver(t: string, acc: string, n: nat)
    requires DependsTurn(t, acc) == Again(acc, t)
    ensures AfterTurns(t, acc, n) == Again(acc, t)
  {
    if n > 0 {
      RoundForEver(t, acc, n - 1);
    }
  }

  /** So the loop over a dependency list comes to an end exactly when no brace is ahead. */
  lemma DependsReturns(t: string, acc: string)
    ensures (exists n: nat :: AfterTurns(t, acc, n).Leave?) <==> !BraceAhead(t)
  {
    StuckAtBrace(t, acc);
    LoopIsTurns(t, acc);
  }

  /** Reading a value never returns exactly for a dependency list with a brace ahead. */
  lemma ValueReturns(key: string, t: string, pkg: Pkg)
    ensures ValueStep(key, t, pkg).Stuck? <==> key == "depends" && Starts(t, '[') && BraceAhead(SkipSpace(t[1..]))
  {
    if Starts(t, '[') {
      StuckAtBrace(SkipSpace(t[1..]), "");
    }
  }

  // ------------------------------------------------------------------
  // An index that is never read to its end
  // ------------------------------------------------------------------

  /** An index that starts with `[{"depends":[}` sends the reader round for ever, before any
      package is visited. */
  lemma IndexWithoutEnd(rest: string, visitor: Pkg -> int)
    ensures VisitIndex("[{\"depends\":[}" + rest, visitor) == Visit(-1, [], true)
  {
    var key := "\"" + ("depends" + ("\"" + (":" + ("[}" + rest))));
    var entry := "{" + key;
    StartInPieces(rest);
    EntryWithoutEnd(key, rest);
    assert ("[" + entry)[1..] == entry;
    assert VisitLoop(entry, visitor, []) == Visit(-1, [], true);
  }

  lemma StartInPieces(rest: string)
    ensures "[{\"depends\":[}" + rest == "[" + ("{" + ("\"" + ("depends" + ("\"" + (":" + ("[}" + rest))))))
  {
    var start := "[{\"depends\":[}";
    assert start == "[" + ("{" + ("\"" + ("depends" + ("\"" + (":" + "[}")))));
    FrontOf("[", "{" + ("\"" + ("depends" + ("\"" + (":" + "[}")))), rest);
    FrontOf("{", "\"" + ("depends" + ("\"" + (":" + "[}"))), rest);
    FrontOf("\"", "depends" + ("\"" + (":" + "[}")), rest);
    FrontOf("depends", "\"" + (":" + "[}"), rest);
    FrontOf("\"", ":" + "[}", rest);
    FrontOf(":", "[}", rest);
  }

  lemma FrontOf(a: string, b: string, c: string)
    ensures a + b + c == a + (b + c)
  {
  }

  lemma EntryWithoutEnd(key: string, rest: string)
    requires key == "\"" + ("depends" + ("\"" + (":" + ("[}" + rest))))
    ensures ParseObject("{" + key).Stuck?
  {
    MemberWithoutEnd(key, rest);
    assert ("{" + key)[1..] == key;
    assert ObjectLoop(key, NoPkg).Stuck?;
  }

  lemma MemberWithoutEnd(key: string, rest: string)
    requires key == "\"" + ("depends" + ("\"" + (":" + ("[}" + rest))))
    ensures KeyStep(key) == Done("depends", "[}" + rest) && ValueStep("depends", "[}" + rest, NoPkg).Stuck?
  {
    var list := "[}" + rest;
    var colon := ":" + list;
    DependsKey(colon);
    assert colon[1..] == list && list[1..] == "}" + rest;
    ValueReturns("depends", list, NoPkg);
  }

  lemma DependsKey(rest: string)
    ensures ParseString("\"" + ("depends" + ("\"" + rest)), KEY_SIZE) == ("depends", rest)
  {
    var body := [Plain('d'), Plain('e'), Plain('p'), Plain('e'), Plain('n'), Plain('d'), Plain('s')];
    PlainText(body, "depends", "\"" + rest);
    StringRead(body, rest, KEY_SIZE);
  }

  lemma {:induction false} PlainText(body: seq<Piece>, s: string, rest: string)
    requires |body| == |s| && forall k :: 0 <= k < |s| ==> body[k] == Plain(s[k])
    ensures ReadAs(body) == s && BodyText(body, rest) == s + rest
  {
    if s == "" {
      assert s + rest == rest;
    } else {
      PlainText(body[1..], s[1..], rest);
      assert s == [s[0]] + s[1..];
      assert s + rest == [s[0]] + (s[1..] + rest);
    }
  }
}
