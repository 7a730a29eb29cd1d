// The texts on which reading a package index never ends.  The scan follows the reader from
// place to place and looks at no field but the keys.
module IndexScan {
  import opened Json
  import opened PkgIndex

  // Where a part of the text ends, that it is faulty, or that a closing brace stands in it
  // where a dependency is looked for.
  datatype Scan = Past(rest: string) | Bad | Brace

  function ScanList(t: string): (s: Scan)
    ensures s.Past? ==> |s.rest| <= |t|
    decreases |t|
  {
    if t == "" || t[0] == ']' then Past(t)
    else if t[0] == '}' then Brace
    else if Starts(SkipComma(t), ']') then Past(SkipComma(t))
    else
      TurnMoves(t, "");
      ScanList(ItemPassed(t))
  }

  function ScanValue(key: string, t: string): (s: Scan)
    ensures s.Past? ==> |s.rest| <= |t|
  {
    if key == "depends" && Starts(t, '[') then
      match ScanList(SkipSpace(t[1..]))
      case Past(rest) => Past(if Starts(rest, ']') then rest[1..] else rest)
      case _ => Brace
    else Past(SkipValue(t))
  }

  function ScanMembers(t: string): (s: Scan)
    ensures s.Past? ==> |s.rest| <= |t|
    decreases |t|
  {
    if t == "" then Past(t)
    else if t[0] == '}' then Past(t[1..])
    else
      var u := SkipComma(SkipSpace(t));
      if Starts(u, '}') then Past(u[1..])
      else match KeyStep(u)
        case Done(key, v) =>
          (match ScanValue(key, v)
           case Past(rest) => ScanMembers(SkipSpace(rest))
           case _ => Brace)
        case _ => Bad
  }

  function ScanObject(t: string): (s: Scan)
    ensures s.Past? ==> |s.rest| < |t|
  {
    var u := SkipSpace(t);
    if Starts(u, '{') then ScanMembers(SkipSpace(u[1..])) else Bad
  }

  function ScanPackages(t: string): Scan
    decreases |t|
  {
    if t == "" then Bad
    else if t[0] == ']' then Past(t)
    else
      var u := SkipComma(t);
      if Starts(u, ']') then Past(u)
      else match ScanObject(u)
        case Past(rest) => ScanPackages(SkipSpace(rest))
        case Bad => Bad
        case Brace => Brace
  }

  /** The whole index, from the bracket of its package list on. */
  function ScanIndex(t: string): Scan {
    var u := SkipSpace(t);
    match if Starts(u, '{') then TopLoop(SkipSpace(u[1..])) else Done((), u)
    case Done(_, v) => if Starts(v, '[') then ScanPackages(SkipSpace(v[1..])) else Bad
    case _ => Bad
  }

  // ------------------------------------------------------------------
  // The reader goes where the scan goes
  // ------------------------------------------------------------------

  predicate SameEnd<T>(o: Outcome<T>, s: Scan) {
    match o
    case Done(_, rest) => s == Past(rest)
    case Failed => s == Bad
    case Stuck => s == Brace
  }

  lemma {:induction false} ListScanned(t: string, acc: string)
    ensures SameEnd(DependsLoop(t, acc), ScanList(t)) && (ScanList(t).Brace? <==> BraceAhead(t))
    decreases |t|
  {
    if t != "" && t[0] != ']' {
      TurnMoves(t, acc);
      if t[0] != '}' && !Starts(SkipComma(t), ']') {
        ListScanned(ItemPassed(t), DependsTurn(t, acc).deps);
      }
    }
  }

  lemma ValueScanned(key: string, t: string, pkg: Pkg)
    ensures SameEnd(ValueStep(key, t, pkg), ScanValue(key, t))
  {
    if Starts(t, '"') {
      LoopEnds(t[1..], FieldSize(key), "");
      assert SkipSpace(t) == t;
    } else if Starts(t, '[') {
      ListScanned(SkipSpace(t[1..]), "");
    }
  }

  lemma {:induction false} MembersScanned(t: string, pkg: Pkg)
    ensures SameEnd(ObjectLoop(t, pkg), ScanMembers(t))
    decreases |t|
  {
    if t != "" && t[0] != '}' {
      var u := SkipComma(SkipSpace(t));
      if !Starts(u, '}') && KeyStep(u).Done? {
        var key, v := KeyStep(u).value, KeyStep(u).rest;
        ValueScanned(key, v, pkg);
        var value := ValueStep(key, v, pkg);
        if value.Done? {
          MembersScanned(SkipSpace(value.rest), value.value);
        }
      }
    }
  }

  lemma ObjectScanned(t: string)
    ensures SameEnd(ParseObject(t), ScanObject(t))
  {
    var u := SkipSpace(t);
    if Starts(u, '{') {
      MembersScanned(SkipSpace(u[1..]), NoPkg);
    }
  }

  /** The packages of a list before its end, a fault or a brace. */
  function PackagesBefore(t: string): seq<Pkg>
    decreases |t|
  {
    if t == "" || t[0] == ']' || Starts(SkipComma(t), ']') then []
    else match ParseObject(SkipComma(t))
      case Done(pkg, rest) => [pkg] + PackagesBefore(SkipSpace(rest))
      case _ => []
  }

  function IndexPackages(t: string): seq<Pkg> {
    var u := SkipSpace(t);
    match if Starts(u, '{') then TopLoop(SkipSpace(u[1..])) else Done((), u)
    case Done(_, v) => if Starts(v, '[') then PackagesBefore(SkipSpace(v[1..])) else []
    case _ => []
  }

  predicate AllPass(pkgs: seq<Pkg>, visitor: Pkg -> int) {
    forall k :: 0 <= k < |pkgs| ==> visitor(pkgs[k]) == 0
  }

  // What a visit has to do with the scan of the same list and the packages in it.
  ghost predicate Follows(v: Visit, s: Scan, pkgs: seq<Pkg>, visitor: Pkg -> int, seen: seq<Pkg>) {
    var all := AllPass(pkgs, visitor);
    (v.stuck <==> s.Brace? && all) && (all ==> v.seen == seen + pkgs)
  }

  lemma {:induction false} PackagesScanned(t: string, visitor: Pkg -> int, seen: seq<Pkg>)
    ensures Follows(VisitLoop(t, visitor, seen), ScanPackages(t), PackagesBefore(t), visitor, seen)
    decreases |t|
  {
    assert seen + [] == seen;
    if t != "" && t[0] != ']' && !Starts(SkipComma(t), ']') {
      var o := ParseObject(SkipComma(t));
      ObjectScanned(SkipComma(t));
      if o.Done? {
        if visitor(o.value) == 0 {
          PackagesScanned(SkipSpace(o.rest), visitor, seen + [o.value]);
        }
        OneMoreScanned(t, o.value, SkipSpace(o.rest), visitor, seen);
      }
    }
  }

  lemma OneMoreScanned(t: string, pkg: Pkg, rest: string, visitor: Pkg -> int, seen: seq<Pkg>)
    requires t != "" && t[0] != ']' && !Starts(SkipComma(t), ']')
    requires ParseObject(SkipComma(t)).Done? && ParseObject(SkipComma(t)).value == pkg
    requires SkipSpace(ParseObject(SkipComma(t)).rest) == rest
    requires ScanObject(SkipComma(t)) == Past(ParseObject(SkipComma(t)).rest)
    requires visitor(pkg) == 0 ==>
               Follows(VisitLoop(rest, visitor, seen + [pkg]), ScanPackages(rest), PackagesBefore(rest), visitor,
                   seen + [pkg])
    ensures Follows(VisitLoop(t, visitor, seen), ScanPackages(t), PackagesBefore(t), visitor, seen)
  {
    var more := PackagesBefore(rest);
    PassInTurn(pkg, more, visitor);
    assert seen + [pkg] + more == seen + ([pkg] + more);
  }

  lemma PassInTurn(pkg: Pkg, more: seq<Pkg>, visitor: Pkg -> int)
    ensures AllPass([pkg] + more, visitor) <==> visitor(pkg) == 0 && AllPass(more, visitor)
  {
    var all := [pkg] + more;
    assert all[0] == pkg && forall k :: 0 <= k < |more| ==> more[k] == all[k + 1];
  }

  /** Reading an index never ends exactly when the scan comes to such a brace and the visitor
      stops at none of the packages before it; then those are what it has seen. */
  lemma IndexReturns(t: string, visitor: Pkg -> int)
    ensures VisitIndex(t, visitor).stuck <==> ScanIndex(t).Brace? && AllPass(IndexPackages(t), visitor)
    ensures VisitIndex(t, visitor).stuck ==> VisitIndex(t, visitor).seen == IndexPackages(t)
  {
    var u := SkipSpace(t);
    var top := if Starts(u, '{') then TopLoop(SkipSpace(u[1..])) else Done((), u);
    if top.Done? && Starts(top.rest, '[') {
      var list := SkipSpace(top.rest[1..]);
      PackagesScanned(list, visitor, []);
      assert [] + PackagesBefore(list) == PackagesBefore(list);
    }
  }
}
