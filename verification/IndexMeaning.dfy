// What the strings of a package index mean, and when the packages read say just that.
module IndexMeaning {
  import opened Json
  import opened PkgIndex

  /** None of the escapes the reader gets wrong: three letters, and \u, whose digits it takes
      for characters of their own. */
  predicate KeptEscapes(body: seq<Piece>) {
    forall k :: 0 <= k < |body| && body[k].Escaped? ==> body[k].c !in {'b', 'f', 'r', 'u'}
  }

  /** The non-empty strings among the items, as RFC 8259 reads them. */
  function MeantNames(items: Items): seq<string> {
    match items
    case NoItems => []
    case Item(_, value, _, more) =>
      (if value.Text? && Meanings(value.body) != "" then [Meanings(value.body)] else []) + MeantNames(more)
  }

  function MeantMember(pkg: Pkg, key: string, v: Value): Pkg {
    if v.Text? && IsField(key) then SetField(pkg, key, Meanings(v.body))
    else if v.Array? && key == "depends" then pkg.(depends := JoinFrom("", MeantNames(v.items)))
    else pkg
  }

  /** The package an object means: every field the whole string, the dependencies joined by
      commas, the last of equal members winning. */
  function MeantPackage(ms: Members, pkg: Pkg): Pkg {
    match ms
    case NoMembers => pkg
    case Member(_, key, _, _, value, _, more) => MeantPackage(more, MeantMember(pkg, Meanings(key), value))
  }

  predicate NamesFit(items: Items) {
    match items
    case NoItems => true
    case Item(_, value, _, more) =>
      (value.Text? ==> KeptEscapes(value.body) && |value.body| < KEY_SIZE) && NamesFit(more)
  }

  /** The strings that matter fit their fields and use none of those escapes. */
  predicate MemberFits(key: string, v: Value) {
    && (v.Text? && IsField(key) ==> KeptEscapes(v.body) && |v.body| < FieldSize(key))
    && (v.Array? && key == "depends" ==> NamesFit(v.items) && |JoinFrom("", MeantNames(v.items))| < DEPENDS_SIZE - 1)
  }

  predicate MembersFit(ms: Members) {
    match ms
    case NoMembers => true
    case Member(_, key, _, _, value, _, more) =>
      KeptEscapes(key) && MemberFits(Meanings(key), value) && MembersFit(more)
  }

  lemma {:induction false} NamesMeant(items: Items)
    requires NamesFit(items)
    ensures Names(items) == MeantNames(items)
    ensures forall k :: 0 <= k < |Names(items)| ==> |Names(items)[k]| < KEY_SIZE
    decreases items
  {
    match items
    case NoItems =>
    case Item(_, value, _, more) =>
      NamesMeant(more);
      if value.Text? {
        ReadCorrectly(value.body);
      }
  }

  /** A key cut to its buffer is no field's name, and was none before. */
  lemma LongKey(s: string)
    requires |s| >= KEY_SIZE - 1
    ensures !IsField(s) && s != "depends"
  {
  }

  lemma MemberMeant(pkg: Pkg, key: string, v: Value)
    requires MemberFits(key, v)
    ensures ApplyMember(pkg, Fit(key, KEY_SIZE), v) == MeantMember(pkg, key, v)
  {
    if |key| >= KEY_SIZE {
      LongKey(key);
      LongKey(Fit(key, KEY_SIZE));
    } else if v.Text? && IsField(key) {
      ReadCorrectly(v.body);
    } else if v.Array? && key == "depends" {
      NamesMeant(v.items);
      DependsJoined(v.items, "");
    }
  }

  /** What is read of an object is what it means. */
  lemma {:induction false} PackageMeant(ms: Members, pkg: Pkg)
    requires MembersFit(ms)
    ensures PackageOf(ms, pkg) == MeantPackage(ms, pkg)
    decreases ms
  {
    match ms
    case NoMembers =>
    case Member(_, key, _, _, value, _, more) =>
      ReadCorrectly(key);
      MemberMeant(pkg, Meanings(key), value);
      PackageMeant(more, MeantMember(pkg, Meanings(key), value));
  }

  predicate AllFit(items: Items)
    requires AllObjects(items)
  {
    items.NoItems? || (MembersFit(items.value.members) && AllFit(items.more))
  }

  function MeantPackages(items: Items): seq<Pkg>
    requires AllObjects(items)
  {
    if items.NoItems? then [] else [MeantPackage(items.value.members, NoPkg)] + MeantPackages(items.more)
  }

  lemma {:induction false} PackagesMeant(items: Items)
    requires AllObjects(items) && AllFit(items)
    ensures PackagesOf(items) == MeantPackages(items)
    decreases items
  {
    if !items.NoItems? {
      PackageMeant(items.value.members, NoPkg);
      PackagesMeant(items.more);
    }
  }

  /** So a well-formed index whose strings fit and use none of those escapes is visited
      with the packages it means. */
  lemma IndexMeant(before: string, v: Value, rest: string, visitor: Pkg -> int)
    requires WellFormed(v) && IsIndex(v) && AllSpace(before) && AllFit(IndexItems(v))
    ensures VisitIndex(before + ValueText(v, rest), visitor) == Visited(MeantPackages(IndexItems(v)), visitor, [])
  {
    IndexVisited(before, v, rest, visitor);
    PackagesMeant(IndexItems(v));
  }
}
