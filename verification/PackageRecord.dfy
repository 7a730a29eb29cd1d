// The record of an installed package: the text written for it, the files it lists, and
// what removal and the version lookup read out of it.
module PackageRecord {
  import opened Arithmetic
  import opened Lines
  import opened PackageFile

  const LIST_SIZE: nat := 8192
  const RECORD_SIZE: nat := 8704
  const READ_LIMIT: nat := 131071

  type Files = map<string, string>

  datatype Meta = Meta(name: string, version: string, depends: string, category: string, license: string,
                       description: string)

  // C strings in their fixed buffers.
  ghost predicate ValidMeta(m: Meta) {
    && |m.name| < 64 && |m.version| < 32 && |m.depends| < 128 && |m.category| < 32 && |m.license| < 32 &&
       |m.description| < 128
    && Without(m, '\0')
  }

  ghost predicate OneLine(m: Meta) {
    Without(m, '\n')
  }

  predicate Without(m: Meta, c: char) {
    c !in m.name && c !in m.version && c !in m.depends && c !in m.category && c !in m.license && c !in m.description
  }

  function RecordPath(name: string): string {
    "/etc/lebpkg/installed/" + name
  }

  // ------------------------------------------------------------------
  // The file list
  // ------------------------------------------------------------------

  predicate IsAbsolute(e: Entry) {
    e.path != [] && e.path[0] == '/'
  }

  /** The separator goes in even when the path then does not fit. */
  function Separated(list: string): (s: string)
    ensures |s| <= Max(|list|, LIST_SIZE - 1)
  {
    if 0 < |list| < LIST_SIZE - 1 then list + ['\n'] else list
  }

  predicate Fits(list: string, path: string) {
    |Separated(list)| + |path| < LIST_SIZE - 1
  }

  function AddToList(list: string, path: string): (s: string)
    requires |list| < LIST_SIZE
    ensures |s| < LIST_SIZE
  {
    if Fits(list, path) then Separated(list) + path else Separated(list)
  }

  /** The list built from the entries, in order; relative paths are skipped. */
  function ListOf(es: seq<Entry>): (s: string)
    ensures |s| < LIST_SIZE
  {
    if es == [] then []
    else
      var e := es[|es| - 1];
      if IsAbsolute(e) then AddToList(ListOf(es[..|es| - 1]), e.path) else ListOf(es[..|es| - 1])
  }

  /** The paths that made it into the list. */
  function Listed(es: seq<Entry>): set<string> {
    if es == [] then {}
    else
      var e, front := es[|es| - 1], es[..|es| - 1];
      Listed(front) + (if IsAbsolute(e) && Fits(ListOf(front), e.path) then {e.path} else {})
  }

  /** The paths a package installs. */
  function Paths(es: seq<Entry>): set<string> {
    if es == [] then {}
    else Paths(es[..|es| - 1]) + (if IsAbsolute(es[|es| - 1]) then {es[|es| - 1].path} else {})
  }

  // The list with its separators, were it not cut.
  function FullLength(es: seq<Entry>): nat {
    if es == [] then 0
    else
      var e, n := es[|es| - 1], FullLength(es[..|es| - 1]);
      if !IsAbsolute(e) then n else if n == 0 then |e.path| else n + 1 + |e.path|
  }

  /** Every path is listed as long as the whole list has fewer than 8191 characters. */
  lemma {:induction false} ShortListsAreWhole(es: seq<Entry>)
    requires FullLength(es) < LIST_SIZE - 1
    ensures |ListOf(es)| == FullLength(es) && Listed(es) == Paths(es)
  {
    if es != [] {
      ShortListsAreWhole(es[..|es| - 1]);
    }
  }

  /** No absolute path is packaged twice. */
  ghost predicate DistinctPaths(es: seq<Entry>) {
    forall i, j :: 0 <= i < j < |es| && IsAbsolute(es[i]) && IsAbsolute(es[j]) ==> es[i].path != es[j].path
  }

  lemma {:induction false} PathsAre(es: seq<Entry>, p: string)
    ensures p in Paths(es) <==> exists i :: 0 <= i < |es| && IsAbsolute(es[i]) && es[i].path == p
  {
    if es != [] {
      PathsAre(es[..|es| - 1], p);
    }
  }

  /** For a package of distinct paths that bound is exact. */
  lemma {:induction false} WholeWhenShort(es: seq<Entry>)
    requires DistinctPaths(es)
    ensures Listed(es) == Paths(es) <==> FullLength(es) < LIST_SIZE - 1
  {
    if FullLength(es) < LIST_SIZE - 1 {
      ShortListsAreWhole(es);
    }
    if FullLength(es) >= LIST_SIZE - 1 {
      var front, e := es[..|es| - 1], es[|es| - 1];
      WholeWhenShort(front);
      ListedArePaths(front);
      if IsAbsolute(e) {
        PathsAre(front, e.path);
        if FullLength(front) < LIST_SIZE - 1 {
          ShortListsAreWhole(front);
        }
        OneDropped(Listed(front), Paths(front), e.path, Fits(ListOf(front), e.path));
      }
    }
  }

  lemma OneDropped(listed: set<string>, paths: set<string>, path: string, fits: bool)
    requires path !in paths && listed <= paths && (listed == paths ==> !fits)
    ensures listed + (if fits then {path} else {}) != paths + {path}
  {
    if listed != paths {
      var p :| p in paths && p !in listed;
      assert p in paths + {path} && p !in listed + (if fits then {path} else {});
    }
  }

  /** 64 files with paths of 127 characters are one too many: a path is dropped. */
  lemma PackageTooLong() returns (es: seq<Entry>)
    ensures |es| == 64 && PlainPaths(es) && DistinctPaths(es) && forall i :: 0 <= i < |es| ==> Packable(es[i])
    ensures FullLength(es) == LIST_SIZE - 1 && Listed(es) != Paths(es)
  {
    es := seq(64, i requires 0 <= i < 64 => Entry(LongPath((48 + i) as char), ""));
    forall i | 0 <= i < 64
      ensures es[i].path == LongPath((48 + i) as char) && |es[i].path| == 127 && Plain(es[i].path)
    {
      LongPathPlain((48 + i) as char);
    }
    forall i, j | 0 <= i < j < 64
      ensures es[i].path != es[j].path
    {
      LongPathLast((48 + i) as char);
      LongPathLast((48 + j) as char);
    }
    LengthOfEqual(es);
    WholeWhenShort(es);
  }

  predicate Plain(path: string) {
    '\n' !in path && '\0' !in path
  }

  function LongPath(c: char): string {
    ['/'] + seq(125, _ => 'a') + [c]
  }

  lemma LongPathPlain(c: char)
    requires c != '\n' && c != '\0'
    ensures |LongPath(c)| == 127 && Plain(LongPath(c)) && LongPath(c)[0] == '/'
  {
  }

  lemma LongPathLast(c: char)
    ensures |LongPath(c)| == 127 && LongPath(c)[126] == c
  {
  }

  lemma {:induction false} LengthOfEqual(es: seq<Entry>)
    requires forall i :: 0 <= i < |es| ==> IsAbsolute(es[i]) && |es[i].path| == 127
    ensures FullLength(es) == if es == [] then 0 else 128 * |es| - 1
  {
    if es != [] {
      LengthOfEqual(es[..|es| - 1]);
    }
  }

  lemma {:induction false} ListedArePaths(es: seq<Entry>)
    ensures Listed(es) <= Paths(es)
  {
    if es != [] {
      ListedArePaths(es[..|es| - 1]);
    }
  }

  // ------------------------------------------------------------------
  // The record
  // ------------------------------------------------------------------

  function Line(tag: string, value: string): string {
    if value == [] then [] else tag + value + ['\n']
  }

  function VersionShown(m: Meta): string {
    if m.version == [] then "unknown" else m.version
  }

  function RecordText(m: Meta, list: string): string {
    ("Package: " + m.name + ['\n']) + (("Status: install ok installed" + ['\n'])
    + (("Version: " + VersionShown(m) + ['\n']) + RecordTail(m, list)))
  }

  // What follows the version line.
  function RecordTail(m: Meta, list: string): string {
    Line("Depends: ", m.depends) + (Line("Section: ", m.category) + (Line("License: ", m.license)
    + (Line("Description: ", m.description) + (("Files:" + ['\n']) + (list + ['\n'])))))
  }

  /** The record always fits its buffer, so no part of it is dropped. */
  lemma RecordFits(m: Meta, list: string)
    requires ValidMeta(m) && |list| < LIST_SIZE
    ensures |RecordText(m, list)| < RECORD_SIZE - 1
  {
  }

  // ------------------------------------------------------------------
  // Removal
  // ------------------------------------------------------------------

  function LineEnd(text: string): (k: nat)
    ensures k <= |text| && '\n' !in text[..k] && (k < |text| ==> text[k] == '\n')
  {
    if text == [] || text[0] == '\n' then 0 else 1 + LineEnd(text[1..])
  }

  function AfterLine(text: string): (rest: string)
    requires text != []
    ensures |rest| < |text|
  {
    var k := LineEnd(text);
    if k < |text| then text[k + 1..] else []
  }

  function WithoutLine(files: Files, line: string): Files {
    if line != [] && line[0] == '/' then files - {line} else files
  }

  /** Every line that starts with a slash names a file to delete. */
  function Removed(files: Files, text: string): Files
    decreases |text|
  {
    if text == [] then files else Removed(WithoutLine(files, text[..LineEnd(text)]), AfterLine(text))
  }

  lemma {:induction false} LineEndIs(line: string, rest: string)
    requires '\n' !in line
    ensures LineEnd(line + ['\n'] + rest) == |line|
  {
    if line != [] {
      assert (line + ['\n'] + rest)[1..] == line[1..] + ['\n'] + rest;
      LineEndIs(line[1..], rest);
    }
  }

  lemma RemovedLine(files: Files, line: string, rest: string)
    requires '\n' !in line
    ensures Removed(files, line + ['\n'] + rest) == Removed(WithoutLine(files, line), rest)
  {
    var text := line + ['\n'] + rest;
    LineEndIs(line, rest);
    assert text[..|line|] == line && text[|line| + 1..] == rest;
  }

  /** Lines are handled one after another. */
  lemma {:induction false} RemovedInTurn(files: Files, a: string, b: string)
    ensures Removed(files, a + ['\n'] + b) == Removed(Removed(files, a + ['\n']), b)
    decreases |a|
  {
    var k := LineEnd(a);
    var line := a[..k];
    if k == |a| {
      assert line == a;
      RemovedLine(files, a, b);
      RemovedLine(files, a, []);
      assert a + ['\n'] + [] == a + ['\n'];
    } else {
      var rest := a[k + 1..];
      assert a + ['\n'] + b == line + ['\n'] + (rest + ['\n'] + b);
      assert a + ['\n'] == line + ['\n'] + (rest + ['\n']);
      RemovedLine(files, line, rest + ['\n'] + b);
      RemovedLine(files, line, rest + ['\n']);
      RemovedInTurn(WithoutLine(files, line), rest, b);
    }
  }

  ghost predicate PlainPaths(es: seq<Entry>) {
    forall i :: 0 <= i < |es| ==> Plain(es[i].path)
  }

  lemma RemovedOne(files: Files, path: string)
    requires path != [] && path[0] == '/' && '\n' !in path
    ensures Removed(files, path + ['\n']) == files - {path}
  {
    RemovedLine(files, path, []);
    assert path + ['\n'] + [] == path + ['\n'];
  }

  lemma RemovedNone(files: Files)
    ensures Removed(files, ['\n']) == files
  {
    RemovedLine(files, [], []);
    assert [] + ['\n'] + [] == ['\n'];
  }

  /** Reading the list of a record deletes exactly the listed paths. */
  lemma {:induction false} ListRemoves(files: Files, es: seq<Entry>)
    requires PlainPaths(es)
    ensures Removed(files, ListOf(es) + ['\n']) == files - Listed(es)
  {
    if es == [] {
      RemovedNone(files);
      assert [] + ['\n'] == ['\n'];
    } else {
      var front, e := es[..|es| - 1], es[|es| - 1];
      ListRemoves(files, front);
      if IsAbsolute(e) {
        PathRemoves(files, ListOf(front), e.path, files - Listed(front));
        Minus(files, Listed(front), e.path);
      }
    }
  }

  lemma Minus(files: Files, s: set<string>, path: string)
    ensures files - (s + {path}) == files - s - {path} && files - (s + {}) == files - s
  {
  }

  lemma PathRemoves(files: Files, list: string, path: string, less: Files)
    requires |list| < LIST_SIZE && path != [] && path[0] == '/' && '\n' !in path
    requires Removed(files, list + ['\n']) == less
    ensures Removed(files, AddToList(list, path) + ['\n']) == if Fits(list, path) then less - {path} else less
  {
    if list == [] {
      RemovedNone(files);
      assert [] + ['\n'] == ['\n'] && [] + path == path;
      RemovedOne(files, path);
    } else if |list| < LIST_SIZE - 1 {
      if Fits(list, path) {
        assert AddToList(list, path) + ['\n'] == list + ['\n'] + (path + ['\n']);
        RemovedInTurn(files, list, path + ['\n']);
        RemovedOne(less, path);
      } else {
        assert AddToList(list, path) + ['\n'] == list + ['\n'] + ['\n'];
        RemovedInTurn(files, list, ['\n']);
        RemovedNone(less);
      }
    }
  }

  predicate IsTag(tag: string) {
    tag != [] && tag[0] != '/' && '\n' !in tag
  }

  lemma LineKept(files: Files, tag: string, value: string, rest: string)
    requires IsTag(tag) && '\n' !in value
    ensures Removed(files, tag + value + ['\n'] + rest) == Removed(files, rest)
  {
    RemovedLine(files, tag + value, rest);
  }

  lemma OptionalKept(files: Files, tag: string, value: string, rest: string)
    requires IsTag(tag) && '\n' !in value
    ensures Removed(files, Line(tag, value) + rest) == Removed(files, rest)
  {
    if value == [] {
      assert [] + rest == rest;
    } else {
      LineKept(files, tag, value, rest);
    }
  }

  lemma TailKeepsFiles(files: Files, m: Meta, list: string)
    requires OneLine(m)
    ensures Removed(files, RecordTail(m, list)) == Removed(files, list + ['\n'])
  {
    FourKept(files, "Depends: ", m.depends, "Section: ", m.category, "License: ", m.license,
             "Description: ", m.description,
             ("Files:" + ['\n']) + (list + ['\n']));
    RemovedLine(files, "Files:", list + ['\n']);
  }

  lemma FourKept(files: Files, s: string, v: string, t: string, w: string, s': string, v': string, t': string,
                 w': string, last: string)
    requires IsTag(s) && IsTag(t) && IsTag(s') && IsTag(t') && '\n' !in v && '\n' !in w && '\n' !in v' && '\n' !in w'
    ensures Removed(files, Line(s, v) + (Line(t, w) + (Line(s', v') + (Line(t', w') + last)))) == Removed(files, last)
  {
    OptionalKept(files, s, v, Line(t, w) + (Line(s', v') + (Line(t', w') + last)));
    OptionalKept(files, t, w, Line(s', v') + (Line(t', w') + last));
    OptionalKept(files, s', v', Line(t', w') + last);
    OptionalKept(files, t', w', last);
  }

  lemma TopKept(files: Files, m: Meta, tail: string)
    requires OneLine(m)
    ensures var third := ("Version: " + VersionShown(m) + ['\n']) + tail;
            var second := ("Status: install ok installed" + ['\n']) + third;
            Removed(files, ("Package: " + m.name + ['\n']) + second) == Removed(files, tail)
  {
    var third := ("Version: " + VersionShown(m) + ['\n']) + tail;
    LineKept(files, "Package: ", m.name, ("Status: install ok installed" + ['\n']) + third);
    StatusKept(files, third);
    VersionKept(files, m, tail);
  }

  lemma StatusKept(files: Files, rest: string)
    ensures Removed(files, ("Status: install ok installed" + ['\n']) + rest) == Removed(files, rest)
  {
    RemovedLine(files, "Status: install ok installed", rest);
  }

  lemma VersionKept(files: Files, m: Meta, rest: string)
    requires OneLine(m)
    ensures Removed(files, ("Version: " + VersionShown(m) + ['\n']) + rest) == Removed(files, rest)
  {
    LineKept(files, "Version: ", VersionShown(m), rest);
  }

  /** Nothing above the list names a file. */
  lemma HeadKeepsFiles(files: Files, m: Meta, list: string)
    requires OneLine(m)
    ensures Removed(files, RecordText(m, list)) == Removed(files, list + ['\n'])
  {
    TopKept(files, m, RecordTail(m, list));
    TailKeepsFiles(files, m, list);
  }

  // ------------------------------------------------------------------
  // Install, then remove
  // ------------------------------------------------------------------

  /** The files after the entries are written, in order. */
  function Extracted(files: Files, es: seq<Entry>): Files {
    if es == [] then files
    else
      var e, before := es[|es| - 1], Extracted(files, es[..|es| - 1]);
      if IsAbsolute(e) then before[CString(e.path) := e.content] else before
  }

  function Installed(files: Files, es: seq<Entry>, m: Meta): Files {
    Extracted(files, es)[RecordPath(m.name) := RecordText(m, ListOf(es))]
  }

  // What a reader with a buffer of READ_LIMIT + 1 takes for the text of a file.
  function ReadBack(content: string, limit: nat): string {
    CString(if |content| <= limit then content else content[..limit])
  }

  /** The files after removing a package by its record. */
  function AfterRemoval(files: Files, name: string): Files {
    var record := RecordPath(name);
    if record !in files || files[record] == [] then files
    else Removed(files, ReadBack(files[record], READ_LIMIT)) - {record}
  }

  lemma {:induction false} ExtractedLess(files: Files, es: seq<Entry>)
    requires PlainPaths(es)
    ensures Extracted(files, es) - Paths(es) == files - Paths(es)
    ensures Extracted(files, es).Keys == files.Keys + Paths(es)
  {
    if es != [] {
      var front, e := es[..|es| - 1], es[|es| - 1];
      ExtractedLess(files, front);
      if IsAbsolute(e) {
        WrittenThenLost(files, Extracted(files, front), Paths(front), e.path, e.content);
      } else {
        assert Paths(es) == Paths(front);
      }
    }
  }

  lemma WrittenThenLost(files: Files, now: Files, paths: set<string>, path: string, content: string)
    requires now - paths == files - paths && now.Keys == files.Keys + paths
    ensures now[path := content] - (paths + {path}) == files - (paths + {path})
    ensures now[path := content].Keys == files.Keys + (paths + {path})
  {
    forall k | k in files && k !in paths + {path}
      ensures k in now && now[k] == files[k]
    {
      assert k in files - paths;
    }
    forall k | k in now && k !in paths + {path}
      ensures k in files && now[k] == files[k]
    {
      assert k in now - paths;
    }
  }

  lemma {:induction false} NoNulInList(es: seq<Entry>)
    requires PlainPaths(es)
    ensures '\0' !in ListOf(es)
  {
    if es != [] {
      NoNulInList(es[..|es| - 1]);
    }
  }

  lemma NoNulInRecord(m: Meta, list: string)
    requires ValidMeta(m) && '\0' !in list
    ensures '\0' !in RecordText(m, list)
  {
    NoNulInTail(m, list);
    NotInLine('\0', "Package: ", m.name);
    NotInLine('\0', "Version: ", VersionShown(m));
  }

  lemma NotInLine(c: char, tag: string, value: string)
    requires c !in tag && c !in value && c != '\n'
    ensures c !in tag + value + ['\n'] && c !in Line(tag, value)
  {
  }

  lemma NoNulInTail(m: Meta, list: string)
    requires ValidMeta(m) && '\0' !in list
    ensures '\0' !in RecordTail(m, list)
  {
    NotInLine('\0', "Depends: ", m.depends);
    NotInLine('\0', "Section: ", m.category);
    NotInLine('\0', "License: ", m.license);
    NotInLine('\0', "Description: ", m.description);
  }

  /** Installing a package and removing it deletes the listed paths and the record. */
  lemma InstallThenRemove(files: Files, es: seq<Entry>, m: Meta)
    requires PlainPaths(es) && ValidMeta(m) && OneLine(m)
    ensures AfterRemoval(Installed(files, es, m), m.name) == Extracted(files, es) - Listed(es) - {RecordPath(m.name)}
  {
    var list, record := ListOf(es), RecordPath(m.name);
    var now := Installed(files, es, m);
    var text := RecordText(m, list);
    RecordFits(m, list);
    NoNulInList(es);
    NoNulInRecord(m, list);
    HeadKeepsFiles(now, m, list);
    ListRemoves(now, es);
    assert now[record] == text && text != [];
    assert ReadBack(text, READ_LIMIT) == text;
    LessRecord(Extracted(files, es), record, text, Listed(es));
  }

  lemma LessRecord(files: Files, record: string, text: string, s: set<string>)
    ensures files[record := text] - s - {record} == files - s - {record}
  {
  }

  /** Everything the package brought is gone, and nothing else but its record, exactly
      when every path it installs is listed (or is the record itself): for distinct paths,
      exactly when the whole list has fewer than 8191 characters. */
  lemma RemovalIsComplete(files: Files, es: seq<Entry>, m: Meta)
    requires PlainPaths(es) && ValidMeta(m) && OneLine(m)
    ensures GoneWithoutTrace(files, es, m) <==> Paths(es) <= Listed(es) + {RecordPath(m.name)}
    ensures FullLength(es) < LIST_SIZE - 1 ==> GoneWithoutTrace(files, es, m)
    ensures DistinctPaths(es) && RecordPath(m.name) !in Paths(es) ==>
              (GoneWithoutTrace(files, es, m) <==> FullLength(es) < LIST_SIZE - 1)
  {
    InstallThenRemove(files, es, m);
    ExtractedLess(files, es);
    ListedArePaths(es);
    if FullLength(es) < LIST_SIZE - 1 {
      ShortListsAreWhole(es);
    }
    if DistinctPaths(es) {
      WholeWhenShort(es);
    }
    Leftovers(files, Extracted(files, es), Paths(es), Listed(es), {RecordPath(m.name)});
  }

  ghost predicate GoneWithoutTrace(files: Files, es: seq<Entry>, m: Meta) {
    AfterRemoval(Installed(files, es, m), m.name) == files - Paths(es) - {RecordPath(m.name)}
  }

  lemma Leftovers(files: Files, now: Files, paths: set<string>, listed: set<string>, record: set<string>)
    requires now - paths == files - paths && now.Keys == files.Keys + paths && listed <= paths
    ensures now - listed - record == files - paths - record <==> paths <= listed + record
  {
    if paths <= listed + record {
      forall k | k in now && k !in listed + record
        ensures k in files - paths - record && now[k] == files[k]
      {
        assert k in now - paths;
      }
      forall k | k in files - paths - record
        ensures k in now && now[k] == files[k]
      {
        assert k in files - paths;
      }
      assert now - listed - record == files - paths - record;
    } else {
      var k :| k in paths && k !in listed + record;
      assert k in now - listed - record && k !in files - paths - record;
    }
  }
}
