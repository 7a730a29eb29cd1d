// Which members of an object fill which field of its package.
module PkgFields {
  import opened Json
  import opened PkgIndex
  import opened IndexMeaning

  // A string as it is read into a buffer of that size, or whole as RFC 8259 means it.
  function StringOf(body: seq<Piece>, size: nat, whole: bool): string {
    if whole then Meanings(body) else Fit(ReadAs(body), size)
  }

  /** A member under this key with a string, or with an array when it is the dependencies. */
  predicate Gives(key: seq<Piece>, v: Value, field: string, whole: bool) {
    StringOf(key, 64, whole) == field && (v.Text? || (v.Array? && field == "depends"))
  }

  function Content(v: Value, size: nat, whole: bool): string {
    if v.Text? then StringOf(v.body, size, whole)
    else if v.Array? then (if whole then JoinFrom("", MeantNames(v.items)) else Depends(v.items, ""))
    else ""
  }

  predicate Given(ms: Members, field: string, whole: bool) {
    ms.Member? && (Gives(ms.key, ms.value, field, whole) || Given(ms.more, field, whole))
  }

  /** The content of the last member for a field, empty when there is none. */
  function Last(ms: Members, field: string, size: nat, whole: bool): string {
    if !Given(ms, field, whole) then ""
    else if Given(ms.more, field, whole) then Last(ms.more, field, size, whole)
    else Content(ms.value, size, whole)
  }

  /** The eight fields with their sizes. */
  function Fields(ms: Members, whole: bool): Pkg {
    Pkg(Last(ms, "name", 64, whole), Last(ms, "version", 32, whole), Last(ms, "description", 128, whole),
        Last(ms, "author", 64, whole), Last(ms, "license", 32, whole), Last(ms, "depends", 128, whole),
        Last(ms, "arch", 16, whole), Last(ms, "category", 32, whole))
  }

  // What a package holds once further members are read.
  function Over(ms: Members, field: string, size: nat, whole: bool, before: string): string {
    if Given(ms, field, whole) then Last(ms, field, size, whole) else before
  }

  predicate Filled(ms: Members, whole: bool, p: Pkg, q: Pkg) {
    && q.name == Over(ms, "name", 64, whole, p.name)
    && q.version == Over(ms, "version", 32, whole, p.version)
    && q.description == Over(ms, "description", 128, whole, p.description)
    && q.author == Over(ms, "author", 64, whole, p.author)
    && q.license == Over(ms, "license", 32, whole, p.license)
    && q.depends == Over(ms, "depends", 128, whole, p.depends)
    && q.arch == Over(ms, "arch", 16, whole, p.arch)
    && q.category == Over(ms, "category", 32, whole, p.category)
  }

  // One member on its own, then those after it.
  lemma FilledOn(ms: Members, whole: bool, p: Pkg, q: Pkg, r: Pkg)
    requires ms.Member? && Filled(ms.more, whole, q, r)
    requires Filled(ms.(more := NoMembers), whole, p, q)
    ensures Filled(ms, whole, p, r)
  {
  }

  // What one member of this key puts into a field.
  function Stores(key: string, v: Value, field: string, text: string, before: string): string {
    if key == field && (v.Text? || (v.Array? && field == "depends")) then text else before
  }

  predicate Stored(key: string, v: Value, whole: bool, p: Pkg, q: Pkg) {
    && q.name == Stores(key, v, "name", Content(v, 64, whole), p.name)
    && q.version == Stores(key, v, "version", Content(v, 32, whole), p.version)
    && q.description == Stores(key, v, "description", Content(v, 128, whole), p.description)
    && q.author == Stores(key, v, "author", Content(v, 64, whole), p.author)
    && q.license == Stores(key, v, "license", Content(v, 32, whole), p.license)
    && q.depends == Stores(key, v, "depends", Content(v, 128, whole), p.depends)
    && q.arch == Stores(key, v, "arch", Content(v, 16, whole), p.arch)
    && q.category == Stores(key, v, "category", Content(v, 32, whole), p.category)
  }

  lemma StoredIsFilled(ms: Members, whole: bool, p: Pkg, q: Pkg)
    requires ms.Member? && ms.more.NoMembers? && Stored(StringOf(ms.key, 64, whole), ms.value, whole, p, q)
    ensures Filled(ms, whole, p, q)
  {
  }

  lemma ReadingStores(key: string, v: Value, p: Pkg)
    ensures Stored(key, v, false, p, ApplyMember(p, key, v))
  {
  }

  lemma MeaningStores(key: string, v: Value, p: Pkg)
    ensures Stored(key, v, true, p, MeantMember(p, key, v))
  {
  }

  lemma {:induction false} FilledByReading(ms: Members, p: Pkg)
    ensures Filled(ms, false, p, PackageOf(ms, p))
    decreases ms
  {
    if ms.Member? {
      var key := Fit(ReadAs(ms.key), KEY_SIZE);
      var q := ApplyMember(p, key, ms.value);
      ReadingStores(key, ms.value, p);
      StoredIsFilled(ms.(more := NoMembers), false, p, q);
      FilledByReading(ms.more, q);
      FilledOn(ms, false, p, q, PackageOf(ms, p));
    }
  }

  lemma {:induction false} FilledByMeaning(ms: Members, p: Pkg)
    ensures Filled(ms, true, p, MeantPackage(ms, p))
    decreases ms
  {
    if ms.Member? {
      var key := Meanings(ms.key);
      var q := MeantMember(p, key, ms.value);
      MeaningStores(key, ms.value, p);
      StoredIsFilled(ms.(more := NoMembers), true, p, q);
      FilledByMeaning(ms.more, q);
      FilledOn(ms, true, p, q, MeantPackage(ms, p));
    }
  }

  lemma OverNothing(ms: Members, field: string, size: nat, whole: bool)
    ensures Over(ms, field, size, whole, "") == Last(ms, field, size, whole)
  {
  }

  lemma FilledFromNothing(ms: Members, whole: bool, q: Pkg)
    requires Filled(ms, whole, NoPkg, q)
    ensures q == Fields(ms, whole)
  {
    OverNothing(ms, "name", 64, whole);
    OverNothing(ms, "version", 32, whole);
    OverNothing(ms, "description", 128, whole);
    OverNothing(ms, "author", 64, whole);
    OverNothing(ms, "license", 32, whole);
    OverNothing(ms, "depends", 128, whole);
    OverNothing(ms, "arch", 16, whole);
    OverNothing(ms, "category", 32, whole);
  }

  /** Each field of the package read is the string of the last member under its own key,
      cut to the field, and empty when there is none. */
  lemma FieldsRead(ms: Members)
    ensures PackageOf(ms, NoPkg) == Fields(ms, false)
  {
    FilledByReading(ms, NoPkg);
    FilledFromNothing(ms, false, PackageOf(ms, NoPkg));
  }

  /** Each field meant is the whole string of the last member under its own key. */
  lemma FieldsMeant(ms: Members)
    ensures MeantPackage(ms, NoPkg) == Fields(ms, true)
  {
    FilledByMeaning(ms, NoPkg);
    FilledFromNothing(ms, true, MeantPackage(ms, NoPkg));
  }

  /** A string is cut to one character less than the field has. */
  lemma FieldCut(s: string, size: nat)
    requires size > 0
    ensures Fit(s, size) <= s && |Fit(s, size)| == if |s| <= size - 1 then |s| else size - 1
  {
  }

  /** A further name goes behind a comma exactly when both fit 126 characters; the comma
      alone stays behind when only that does. */
  lemma DependFits(acc: string, s: string)
    requires 0 < |acc| && s != ""
    ensures AddDepend(acc, s) == acc + "," + s <==> |acc| + 1 + |s| <= 126
    ensures AddDepend(acc, s) == acc + "," <==> |acc| <= 126 < |acc| + 1 + |s|
    ensures AddDepend(acc, s) == acc <==> |acc| > 126
  {
  }

  /** The fields of each object, in order. */
  function AllFields(items: Items, whole: bool): seq<Pkg>
    requires AllObjects(items)
  {
    if items.NoItems? then [] else [Fields(items.value.members, whole)] + AllFields(items.more, whole)
  }

  lemma {:induction false} AllFieldsRead(items: Items)
    requires AllObjects(items)
    ensures PackagesOf(items) == AllFields(items, false) && MeantPackages(items) == AllFields(items, true)
    decreases items
  {
    if items.Item? {
      FieldsRead(items.value.members);
      FieldsMeant(items.value.members);
      AllFieldsRead(items.more);
    }
  }

  // The packages up to the first at which the visitor is not zero.
  predicate StopsAt(pkgs: seq<Pkg>, visitor: Pkg -> int, k: nat) {
    k < |pkgs| && visitor(pkgs[k]) != 0 && forall i :: 0 <= i < k ==> visitor(pkgs[i]) == 0
  }

  predicate NeverStops(pkgs: seq<Pkg>, visitor: Pkg -> int) {
    forall i :: 0 <= i < |pkgs| ==> visitor(pkgs[i]) == 0
  }

  lemma {:induction false} VisitedUpTo(pkgs: seq<Pkg>, visitor: Pkg -> int, k: nat, seen: seq<Pkg>)
    requires StopsAt(pkgs, visitor, k)
    ensures Visited(pkgs, visitor, seen) == Visit(visitor(pkgs[k]), seen + pkgs[..k + 1], false)
    decreases k
  {
    if k > 0 {
      var more := pkgs[1..];
      assert more[k - 1] == pkgs[k] && forall i :: 0 <= i < k - 1 ==> more[i] == pkgs[i + 1];
      VisitedUpTo(more, visitor, k - 1, seen + [pkgs[0]]);
      assert seen + [pkgs[0]] + more[..k] == seen + pkgs[..k + 1];
    } else {
      assert pkgs[..1] == [pkgs[0]];
    }
  }

  lemma {:induction false} VisitedAll(pkgs: seq<Pkg>, visitor: Pkg -> int, seen: seq<Pkg>)
    requires NeverStops(pkgs, visitor)
    ensures Visited(pkgs, visitor, seen) == Visit(0, seen + pkgs, false)
  {
    if pkgs == [] {
      assert seen + pkgs == seen;
    } else {
      var more := pkgs[1..];
      assert forall i :: 0 <= i < |more| ==> more[i] == pkgs[i + 1];
      VisitedAll(more, visitor, seen + [pkgs[0]]);
      assert seen + [pkgs[0]] + more == seen + pkgs;
    }
  }

  /** The visitor is given every package, or those up to the first at which it is not zero. */
  lemma VisitedExactly(pkgs: seq<Pkg>, visitor: Pkg -> int, k: nat)
    ensures NeverStops(pkgs, visitor) ==> Visited(pkgs, visitor, []) == Visit(0, pkgs, false)
    ensures StopsAt(pkgs, visitor, k) ==>
              Visited(pkgs, visitor, []) == Visit(visitor(pkgs[k]), pkgs[..k + 1], false)
  {
    if NeverStops(pkgs, visitor) {
      VisitedAll(pkgs, visitor, []);
      assert [] + pkgs == pkgs;
    }
    if StopsAt(pkgs, visitor, k) {
      VisitedUpTo(pkgs, visitor, k, []);
      assert [] + pkgs[..k + 1] == pkgs[..k + 1];
    }
  }

  /** A well-formed index is visited object by object, with the fields its members give. */
  lemma IndexFields(before: string, v: Value, rest: string, visitor: Pkg -> int)
    requires WellFormed(v) && IsIndex(v) && AllSpace(before)
    ensures VisitIndex(before + ValueText(v, rest), visitor) ==
            Visited(AllFields(IndexItems(v), false), visitor, [])
  {
    AllFieldsRead(IndexItems(v));
    IndexVisited(before, v, rest, visitor);
  }
}
