// The reader as it runs: a position that only moves forward through one
// NUL-terminated text, and buffers filled as it goes.
module JsonReader {
  import opened Json
  import opened PkgIndex
  import opened IndexScan

  method SkipWs(s: string, p: nat) returns (q: nat)
    requires p <= |s|
    ensures p <= q <= |s| && s[q..] == SkipSpace(s[p..])
  {
    q := p;
    while q < |s| && IsSpace(s[q])
      invariant p <= q <= |s| && SkipSpace(s[q..]) == SkipSpace(s[p..])
    {
      assert s[q..][1..] == s[q + 1..];
      q := q + 1;
    }
  }

  // To the closing quote or the end.
  method FindQuote(s: string, p: nat) returns (q: nat)
    requires p <= |s|
    ensures p <= q <= |s| && s[q..] == ToQuote(s[p..])
  {
    q := p;
    while q < |s| && s[q] != '"'
      invariant p <= q <= |s| && ToQuote(s[q..]) == ToQuote(s[p..])
    {
      assert s[q..][1..] == s[q + 1..];
      if s[q] == '\\' && q + 1 < |s| {
        assert s[q..][2..] == s[q + 2..];
        q := q + 1;
      }
      q := q + 1;
    }
  }

  // The characters up to the closing quote or the end, as many as fit.
  method ReadBody(s: string, p: nat, max: nat) returns (out: string, q: nat)
    requires p <= |s| && max > 0
    ensures p <= q <= |s| && StringLoop(s[p..], max, "") == (out, s[q..])
    ensures |out| < max
  {
    q, out := p, "";
    while q < |s| && s[q] != '"'
      invariant p <= q <= |s| && |out| < max
      invariant StringLoop(s[q..], max, out) == StringLoop(s[p..], max, "")
      decreases |s| - q
    {
      out, q := ReadPiece(s, q, max, out);
    }
  }

  // One character, or a backslash and what it escapes.
  method ReadPiece(s: string, p: nat, max: nat, acc: string) returns (out: string, q: nat)
    requires p < |s| && s[p] != '"' && |acc| < max
    ensures p < q <= |s| && |out| < max && StringLoop(s[q..], max, out) == StringLoop(s[p..], max, acc)
  {
    StringStep(s, p, max, acc);
    var escaped := s[p] == '\\' && p + 1 < |s|;
    q := if escaped then p + 2 else p + 1;
    out := acc;
    if |acc| < max - 1 {
      out := acc + [if escaped then Unescape(s[p + 1]) else s[p]];
    }
  }

  method ReadString(s: string, p: nat, max: nat) returns (out: string, q: nat)
    requires p < |s| && s[p] == '"' && max > 0
    ensures p < q <= |s| && (out, s[q..]) == ParseString(s[p..], max)
    ensures |out| < max
  {
    assert s[p..][1..] == s[p + 1..];
    out, q := ReadBody(s, p + 1, max);
    if q < |s| {
      assert s[q..][1..] == s[q + 1..];
      q := q + 1;
    }
  }

  lemma StringStep(s: string, q: nat, max: nat, out: string)
    requires q < |s| && s[q] != '"'
    ensures StringLoop(s[q..], max, out) ==
            if s[q] == '\\' && q + 1 < |s| then StringLoop(s[q + 2..], max, Put(out, Unescape(s[q + 1]), max))
            else StringLoop(s[q + 1..], max, Put(out, s[q], max))
  {
    assert s[q..][1..] == s[q + 1..];
    if q + 1 < |s| {
      assert s[q..][2..] == s[q + 2..];
    }
  }

  // From an opening quote to past the closing one.
  method SkipString(s: string, p: nat) returns (q: nat)
    requires p < |s| && s[p] == '"'
    ensures p < q <= |s| && s[q..] == PastQuote(s[p..][1..])
  {
    assert s[p..][1..] == s[p + 1..];
    q := FindQuote(s, p + 1);
    if q < |s| {
      assert s[q..][1..] == s[q + 1..];
      q := q + 1;
    }
  }

  method SkipBrackets(s: string, p: nat) returns (q: nat)
    requires p <= |s|
    ensures p <= q <= |s| && s[q..] == SkipNested(s[p..], 1)
  {
    q := p;
    var depth: nat := 1;
    while q < |s| && depth > 0
      invariant p <= q <= |s| && SkipNested(s[q..], depth) == SkipNested(s[p..], 1)
    {
      NestedStep(s, q, depth);
      if s[q] == '"' {
        q := SkipString(s, q);
      } else {
        if s[q] == '[' || s[q] == '{' {
          depth := depth + 1;
        } else if s[q] == ']' || s[q] == '}' {
          depth := depth - 1;
        }
        q := q + 1;
      }
    }
  }

  lemma NestedStep(s: string, q: nat, depth: nat)
    requires q < |s| && depth > 0
    ensures SkipNested(s[q..], depth) ==
            if s[q] == '"' then SkipNested(PastQuote(s[q..][1..]), depth)
            else SkipNested(s[q + 1..], if s[q] == '[' || s[q] == '{' then depth + 1
                                        else if s[q] == ']' || s[q] == '}' then depth - 1 else depth)
  {
    assert s[q..][1..] == s[q + 1..];
  }

  method SkipJsonValue(s: string, p: nat) returns (q: nat)
    requires p <= |s|
    ensures p <= q <= |s| && s[q..] == SkipValue(s[p..])
  {
    q := SkipWs(s, p);
    if q < |s| && s[q] == '"' {
      q := SkipString(s, q);
    } else if q < |s| && (s[q] == '[' || s[q] == '{') {
      assert s[q..][1..] == s[q + 1..];
      q := SkipBrackets(s, q + 1);
    } else {
      q := FindDelimiter(s, q);
    }
  }

  method FindDelimiter(s: string, p: nat) returns (q: nat)
    requires p <= |s|
    ensures p <= q <= |s| && s[q..] == ToDelimiter(s[p..])
  {
    q := p;
    while q < |s| && !IsDelimiter(s[q])
      invariant p <= q <= |s| && ToDelimiter(s[q..]) == ToDelimiter(s[p..])
    {
      assert s[q..][1..] == s[q + 1..];
      q := q + 1;
    }
  }

  method SkipOneComma(s: string, p: nat) returns (q: nat)
    requires p <= |s|
    ensures p <= q <= |s| && s[q..] == SkipComma(s[p..]) && (p < |s| && s[p] == ',' ==> p < q)
  {
    q := p;
    if p < |s| && s[p] == ',' {
      assert s[p..][1..] == s[p + 1..];
      q := SkipWs(s, p + 1);
    }
  }

  // The result of a step that may fail, or never come back in the source.
  datatype Step = Moved(q: nat) | Broken | Looping

  /** Agrees with an outcome at the position reached. */
  predicate Agrees<T>(step: Step, s: string, p: nat, o: Outcome<T>) {
    match o
    case Done(_, rest) => step.Moved? && p <= step.q <= |s| && s[step.q..] == rest
    case Failed => step == Broken
    case Stuck => step == Looping
  }

  // One turn of the loop, not yet at the closing bracket.
  method TakeDepend(s: string, p: nat, deps: string) returns (turn: Turn, q: nat)
    requires p < |s| && s[p] != ']'
    ensures p <= q <= |s| && turn == DependsTurn(s[p..], deps) && turn.rest == s[q..]
  {
    var u := SkipOneComma(s, p);
    if u < |s| && s[u] == ']' {
      return Leave(deps, s[u..]), u;
    }
    if u < |s| && s[u] == '"' {
      var tmp, r := ReadString(s, u, KEY_SIZE);
      q := SkipWs(s, r);
      turn := Again(AddDepend(deps, tmp), s[q..]);
    } else {
      var r := SkipJsonValue(s, u);
      q := SkipWs(s, r);
      turn := Again(deps, s[q..]);
    }
  }

  /** The source's loop has no exit for a turn that does not move; here it reports
      `Looping`, which is where the source goes round for ever. */
  method ReadDepends(s: string, p: nat) returns (deps: string, step: Step)
    requires p <= |s|
    ensures Agrees(step, s, p, DependsLoop(s[p..], ""))
    ensures step.Moved? ==> deps == DependsLoop(s[p..], "").value
    ensures step.Looping? <==> BraceAhead(s[p..])
    ensures step.Looping? <==> forall n: nat :: AfterTurns(s[p..], "", n).Again?
  {
    ghost var goal := DependsLoop(s[p..], "");
    StuckAtBrace(s[p..], "");
    LoopIsTurns(s[p..], "");
    deps := "";
    var q := p;
    while q < |s| && s[q] != ']'
      invariant p <= q <= |s| && DependsLoop(s[q..], deps) == goal
      decreases |s| - q
    {
      var turn, next := TakeDepend(s, q, deps);
      if turn.Leave? {
        return deps, Moved(next);
      }
      if next == q {
        return deps, Looping;
      }
      deps, q := turn.deps, next;
    }
    step := Moved(q);
  }

  method ReadKey(s: string, p: nat) returns (key: string, step: Step)
    requires p <= |s|
    ensures Agrees(step, s, p, KeyStep(s[p..]))
    ensures step.Moved? ==> key == KeyStep(s[p..]).value && step.q > p
  {
    if p == |s| || s[p] != '"' {
      return "", Broken;
    }
    var q;
    key, q := ReadString(s, p, KEY_SIZE);
    q := SkipWs(s, q);
    if q == |s| || s[q] != ':' {
      return key, Broken;
    }
    assert s[q..][1..] == s[q + 1..];
    q := SkipWs(s, q + 1);
    step := Moved(q);
  }

  /** Somewhere from p on a bracket opens a list with a brace ahead. */
  ghost predicate BraceInList(s: string, p: nat) {
    exists k :: p <= k < |s| && s[k] == '[' && BraceAhead(SkipSpace(s[k + 1..]))
  }

  // From the opening bracket past the closing one.
  method ReadDependList(s: string, p: nat, pkg: Pkg) returns (pkg': Pkg, step: Step)
    requires p < |s| && s[p] == '['
    ensures Agrees(step, s, p, ValueStep("depends", s[p..], pkg))
    ensures step.Moved? ==> pkg' == ValueStep("depends", s[p..], pkg).value
    ensures step.Looping? ==> BraceInList(s, p)
  {
    assert s[p..][1..] == s[p + 1..];
    pkg' := pkg;
    var q := NextToken(s, p);
    var deps;
    deps, step := ReadDepends(s, q);
    if step.Moved? {
      q := step.q;
      pkg' := pkg.(depends := deps);
      if q < |s| && s[q] == ']' {
        assert s[q..][1..] == s[q + 1..];
        step := Moved(q + 1);
      }
    }
  }

  method ReadValue(s: string, p: nat, key: string, pkg: Pkg) returns (pkg': Pkg, step: Step)
    requires p <= |s|
    ensures Agrees(step, s, p, ValueStep(key, s[p..], pkg))
    ensures step.Moved? ==> pkg' == ValueStep(key, s[p..], pkg).value
    ensures step.Looping? ==> BraceInList(s, p)
  {
    pkg' := pkg;
    var q := p;
    if p < |s| && s[p] == '"' {
      if IsField(key) {
        var value;
        value, q := ReadString(s, p, FieldSize(key));
        pkg' := SetField(pkg, key, value);
      } else {
        q := SkipJsonValue(s, p);
      }
    } else if p < |s| && s[p] == '[' && key == "depends" {
      pkg', step := ReadDependList(s, p, pkg);
      return;
    } else {
      q := SkipJsonValue(s, p);
    }
    step := Moved(q);
  }

  // One member of a package object, and the spaces after it.
  method ReadMember(s: string, p: nat, pkg: Pkg) returns (pkg': Pkg, step: Step)
    requires p <= |s|
    ensures step.Moved? ==> p < step.q <= |s| && KeyStep(s[p..]).Done?
    ensures step.Moved? ==>
              var v := ValueStep(KeyStep(s[p..]).value, KeyStep(s[p..]).rest, pkg);
              v.Done? && pkg' == v.value && s[step.q..] == SkipSpace(v.rest)
    ensures step.Broken? ==> KeyStep(s[p..]).Failed?
    ensures step.Looping? ==> BraceInList(s, p)
    ensures step.Looping? ==>
              KeyStep(s[p..]).Done? && ValueStep(KeyStep(s[p..]).value, KeyStep(s[p..]).rest, pkg).Stuck?
  {
    pkg' := pkg;
    var key;
    key, step := ReadKey(s, p);
    if !step.Moved? {
      return;
    }
    pkg', step := ReadValue(s, step.q, key, pkg);
    if step.Moved? {
      var q := SkipWs(s, step.q);
      step := Moved(q);
    }
  }

  method ReadMembers(s: string, p: nat) returns (pkg: Pkg, step: Step)
    requires p <= |s|
    ensures Agrees(step, s, p, ObjectLoop(s[p..], NoPkg))
    ensures step.Moved? ==> pkg == ObjectLoop(s[p..], NoPkg).value
    ensures step.Looping? ==> BraceInList(s, p)
  {
    pkg := NoPkg;
    var q := p;
    ghost var goal := ObjectLoop(s[q..], NoPkg);
    while q < |s| && s[q] != '}'
      invariant p <= q <= |s| && ObjectLoop(s[q..], pkg) == goal
      decreases |s| - q
    {
      var u := SkipWs(s, q);
      u := SkipOneComma(s, u);
      if u < |s| && s[u] == '}' {
        assert s[u..][1..] == s[u + 1..];
        return pkg, Moved(u + 1);
      }
      pkg, step := ReadMember(s, u, pkg);
      if !step.Moved? {
        return;
      }
      q := step.q;
    }
    if q < |s| {
      assert s[q..][1..] == s[q + 1..];
      q := q + 1;
    }
    step := Moved(q);
  }

  method ReadObject(s: string, p: nat) returns (pkg: Pkg, step: Step)
    requires p <= |s|
    ensures Agrees(step, s, p, ParseObject(s[p..]))
    ensures step.Moved? ==> pkg == ParseObject(s[p..]).value && step.q > p
    ensures step.Looping? ==> BraceInList(s, p)
  {
    pkg := NoPkg;
    var q := SkipWs(s, p);
    ObjectOpens(s, p, q);
    if q == |s| || s[q] != '{' {
      return pkg, Broken;
    }
    q := SkipWs(s, q + 1);
    pkg, step := ReadMembers(s, q);
  }

  lemma ObjectOpens(s: string, p: nat, q: nat)
    requires p <= q <= |s| && s[q..] == SkipSpace(s[p..])
    ensures ParseObject(s[p..]) ==
            if q < |s| && s[q] == '{' then ObjectLoop(SkipSpace(s[q + 1..]), NoPkg) else Failed
  {
    if q < |s| {
      assert s[q..][1..] == s[q + 1..];
    }
  }

  // To the bracket of the packages array, or to where the members end.
  method FindArray(s: string, p: nat) returns (step: Step)
    requires p <= |s|
    ensures Agrees(step, s, p, TopLoop(s[p..]))
  {
    var q := p;
    while q < |s| && s[q] != '}'
      invariant p <= q <= |s| && TopLoop(s[q..]) == TopLoop(s[p..])
      decreases |s| - q
    {
      var u := SkipOneComma(s, q);
      if u < |s| && s[u] == '}' {
        return Moved(u);
      }
      var key;
      key, step := ReadKey(s, u);
      if !step.Moved? {
        return;
      }
      q := step.q;
      if key == "packages" && q < |s| && s[q] == '[' {
        return;
      }
      q := SkipJsonValue(s, q);
      q := SkipWs(s, q);
    }
    step := Moved(q);
  }

  method VisitArray(s: string, p: nat, visitor: Pkg -> int) returns (v: Visit)
    requires p <= |s|
    ensures v == VisitLoop(s[p..], visitor, [])
    ensures v.stuck ==> BraceInList(s, p)
  {
    var seen := [];
    var q := p;
    while q < |s| && s[q] != ']'
      invariant p <= q <= |s| && VisitLoop(s[q..], visitor, seen) == VisitLoop(s[p..], visitor, [])
      decreases |s| - q
    {
      var u := SkipOneComma(s, q);
      if u < |s| && s[u] == ']' {
        return Visit(0, seen, false);
      }
      var pkg, step := ReadObject(s, u);
      match step {
        case Broken => return Visit(-1, seen, false);
        case Looping => return Visit(-1, seen, true);
        case Moved(r) =>
          var result := visitor(pkg);
          if result != 0 {
            return Visit(result, seen + [pkg], false);
          }
          seen := seen + [pkg];
          q := SkipWs(s, r);
      }
    }
    v := Visit(if q < |s| then 0 else -1, seen, false);
  }

  /** Visits exactly the packages of the index; for every well-formed index that is
      what PkgIndex.IndexVisited says it is.  A stuck visit is one the source never comes
      back from: exactly one whose scan comes to a brace where a dependency is looked for,
      past packages the visitor does not stop at. */
  method VisitPkgIndex(s: string, visitor: Pkg -> int) returns (v: Visit)
    ensures v == VisitIndex(s, visitor)
    ensures v.stuck <==> ScanIndex(s).Brace? && AllPass(IndexPackages(s), visitor)
    ensures v.stuck ==> BraceInList(s, 0)
  {
    IndexReturns(s, visitor);
    assert s[0..] == s;
    var q := SkipWs(s, 0);
    if q < |s| && s[q] == '{' {
      var step := EnterObject(s, q);
      if !step.Moved? {
        return Visit(-1, [], false);
      }
      q := step.q;
    }
    if q == |s| || s[q] != '[' {
      return Visit(-1, [], false);
    }
    q := NextToken(s, q);
    v := VisitArray(s, q, visitor);
  }

  method NextToken(s: string, p: nat) returns (q: nat)
    requires p < |s|
    ensures p < q <= |s| && s[q..] == SkipSpace(s[p..][1..])
  {
    assert s[p..][1..] == s[p + 1..];
    q := SkipWs(s, p + 1);
  }

  method EnterObject(s: string, p: nat) returns (step: Step)
    requires p < |s|
    ensures Agrees(step, s, p, TopLoop(SkipSpace(s[p..][1..])))
  {
    var q := NextToken(s, p);
    step := FindArray(s, q);
  }
}
