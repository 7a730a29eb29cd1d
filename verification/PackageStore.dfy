// The files of the system and the package operations on them: extract, remove, look up.
module PackageStore {
  import opened Lines
  import opened PackageFile
  import opened PackageRecord
  import opened PackageVersion
  import opened Words

  class Store {
    var files: Files

    constructor ()
      ensures files == map[]
    {
      files := map[];
    }

    // Writing replaces the whole file; the directories it needs are made.
    method WriteFile(path: string, content: string)
      modifies this
      ensures files == old(files)[path := content]
    {
      files := files[path := content];
    }

    method Unlink(path: string) returns (ok: bool)
      modifies this
      ensures ok == (path in old(files)) && files == old(files) - {path}
    {
      ok := path in files;
      files := files - {path};
    }

    /** Installs a package: a whole one leaves its files and its record, a faulty one the
        files before the fault and no record.  The reads stay inside the package exactly
        when its verdict is not an overrun; this is what is done up to there. */
    method Extract(data: string, meta: Meta) returns (ok: bool, inside: bool)
      requires |data| < WORD && ValidMeta(meta)
      modifies this
      ensures inside <==> PackageOf(data).verdict != Overrun
      ensures ok <==> PackageOf(data).verdict == Complete
      ensures files == if ok then Installed(old(files), PackageOf(data).entries, meta)
                       else Extracted(old(files), PackageOf(data).entries)
    {
      if !HasHeader(data) {
        return false, true;
      }
      var n := Half(data, 5);
      var off, list := 7, "";
      ghost var es: seq<Entry> := [];
      ghost var left: nat := n;
      ghost var all := PackageOf(data);
      assert Progress(data, es, off, left, all);
      for i := 0 to n
        invariant files == Extracted(old(files), es) && list == ListOf(es)
        invariant left == n - i && Progress(data, es, off, left, all)
      {
        var step;
        step, list := ExtractOne(data, off, list, left, es, all, old(files));
        if step.Fault? {
          return false, step.verdict != Overrun;
        }
        off, es, left := step.off, es + [step.entry], left - 1;
      }
      NoMoreEntries(data, es, off, all);
      var record := MakeRecord(meta, list);
      WriteFile(RecordPath(meta.name), record);
      ok, inside := true, true;
    }

    // The entry at an offset, when it can be read.
    method ExtractOne(data: string, off: nat, list: string, ghost left: nat, ghost es: seq<Entry>, ghost all: Package,
                      ghost before: Files)
        returns (step: Step, more: string)
      requires left > 0 && Progress(data, es, off, left, all) && files == Extracted(before, es) && list == ListOf(es)
      modifies this
      ensures step.Fault? ==> files == old(files) && all == Package(es, step.verdict)
      ensures step.Next? ==> Progress(data, es + [step.entry], step.off, left - 1, all)
      ensures step.Next? ==> files == Extracted(before, es + [step.entry]) && more == ListOf(es + [step.entry])
    {
      more := list;
      step := EntryAt(data, off);
      NextEntry(data, off, left, es, all);
      if step.Next? {
        more := Install(step.entry, list);
        OneMoreEntry(before, es, step.entry);
      }
    }

    // Relative paths are skipped.
    method Install(e: Entry, list: string) returns (more: string)
      requires |list| < LIST_SIZE
      modifies this
      ensures if IsAbsolute(e) then files == old(files)[CString(e.path) := e.content] && more == AddToList(list, e.path)
              else files == old(files) && more == list
    {
      more := list;
      if IsAbsolute(e) {
        WriteFile(CString(e.path), e.content);
        more := AddToList(list, e.path);
      }
    }

    /** Deletes the files its record names, then the record. */
    method Remove(name: string) returns (ok: bool)
      modifies this
      ensures files == AfterRemoval(old(files), name)
      ensures ok <==> RecordPath(name) in old(files) && old(files)[RecordPath(name)] != [] &&
                      RecordPath(name) in Removed(old(files), ReadBack(old(files)[RecordPath(name)], READ_LIMIT))
    {
      var record := RecordPath(name);
      if record !in files || files[record] == [] {
        return false;
      }
      var text := CString(if |files[record]| <= READ_LIMIT then files[record] else files[record][..READ_LIMIT]);
      var line := 0;
      assert text[0..] == text;
      while line < |text|
        invariant line <= |text|
        invariant Removed(files, text[line..]) == Removed(old(files), text)
      {
        var end := FindLineEnd(text, line);
        LineOf(text, line, end);
        if line < end && text[line] == '/' {
          var gone := Unlink(text[line..end]);
        }
        line := if end < |text| then end + 1 else end;
      }
      assert text[line..] == [];
      ok := Unlink(record);
    }

    /** The version in the first 255 characters of the record. */
    method InstalledVersion(name: string) returns (version: Option<string>)
      ensures version == if RecordPath(name) !in files || files[RecordPath(name)] == [] then None
                         else VersionIn(ReadBack(files[RecordPath(name)], 255), 32)
    {
      var record := RecordPath(name);
      if record !in files || files[record] == [] {
        return None;
      }
      version := ParseVersion(CString(if |files[record]| <= 255 then files[record] else files[record][..255]), 32);
    }
  }

  lemma OneMoreEntry(files: Files, es: seq<Entry>, e: Entry)
    ensures Extracted(files, es + [e]) ==
            if IsAbsolute(e) then Extracted(files, es)[CString(e.path) := e.content] else Extracted(files, es)
    ensures ListOf(es + [e]) == if IsAbsolute(e) then AddToList(ListOf(es), e.path) else ListOf(es)
  {
    assert (es + [e])[..|es|] == es;
  }

  // The entries so far and those still to be read are the package's.
  ghost predicate Progress(data: string, es: seq<Entry>, off: nat, left: nat, all: Package) {
    var rest := Entries(data, off, left);
    var same := es + rest.entries == all.entries && rest.verdict == all.verdict;
    same
  }

  lemma NextEntry(data: string, off: nat, left: nat, es: seq<Entry>, all: Package)
    requires left > 0 && Progress(data, es, off, left, all)
    ensures var step := EntryAt(data, off);
            if step.Next? then Progress(data, es + [step.entry], step.off, left - 1, all)
            else all == Package(es, step.verdict)
  {
    var step := EntryAt(data, off);
    if step.Next? {
      var rest := Entries(data, step.off, left - 1).entries;
      assert es + ([step.entry] + rest) == es + [step.entry] + rest;
    } else {
      assert es + [] == es;
    }
  }

  lemma NoMoreEntries(data: string, es: seq<Entry>, off: nat, all: Package)
    requires Progress(data, es, off, 0, all)
    ensures all == Package(es, Complete)
  {
    assert es + [] == es;
  }

  lemma LineOf(text: string, line: nat, end: nat)
    requires line < |text| && line <= end <= |text| && end - line == LineEnd(text[line..])
    ensures text[line..][..LineEnd(text[line..])] == text[line..end]
    ensures AfterLine(text[line..]) == text[(if end < |text| then end + 1 else end)..]
  {
    if end < |text| {
      assert text[line..][end - line + 1..] == text[end + 1..];
    } else {
      assert text[end..] == [];
    }
  }

  // Each piece goes in if there is room; there always is.
  method MakeRecord(m: Meta, list: string) returns (record: string)
    requires ValidMeta(m) && |list| < LIST_SIZE
    ensures record == RecordText(m, list)
  {
    var top := MakeTop(m);
    record := AddLine(top, "Depends: ", m.depends);
    record := AddLine(record, "Section: ", m.category);
    record := AddLine(record, "License: ", m.license);
    record := AddLine(record, "Description: ", m.description);
    record := AddList(record, list);
    TopFirst(m, list);
    Assembled(top, Line("Depends: ", m.depends), Line("Section: ", m.category), Line("License: ", m.license),
              Line("Description: ", m.description), "Files:" + ['\n'], list, ['\n']);
  }

  method MakeTop(m: Meta) returns (record: string)
    requires ValidMeta(m)
    ensures record == RecordTop(m) && |record| <= 143
  {
    record := ("Package: " + m.name + ['\n'])
              + (("Status: install ok installed" + ['\n']) + ("Version: " + VersionShown(m) + ['\n']));
  }

  method AddList(record: string, list: string) returns (more: string)
    requires |record| <= 503 && |list| < LIST_SIZE
    ensures more == record + ("Files:" + ['\n']) + list + ['\n']
  {
    more := record;
    if |more| < RECORD_SIZE {
      more := more + ("Files:" + ['\n']);
    }
    if |more| + |list| < RECORD_SIZE {
      more := more + list;
    }
    if |more| < RECORD_SIZE - 1 {
      more := more + ['\n'];
    }
  }

  method AddLine(record: string, tag: string, value: string) returns (more: string)
    ensures |record| < RECORD_SIZE ==> more == record + Line(tag, value)
    ensures |more| <= |record| + |tag| + |value| + 1
  {
    more := record;
    if value != [] && |record| < RECORD_SIZE {
      more := record + (tag + value + ['\n']);
    } else {
      assert record + [] == record;
    }
  }

  lemma Assembled(a: string, b: string, c: string, d: string, e: string, f: string, g: string, h: string)
    ensures a + b + c + d + e + f + g + h == a + (b + (c + (d + (e + (f + (g + h))))))
  {
  }

  /** Installing a well-formed package and removing it again: the files are those from
      before without the package's paths and record exactly when the list holds all the
      paths, which for distinct ones is fewer than 8191 characters; and between
      the two the installed version is the package's. */
  method InstallRemove(store: Store, es: seq<Entry>, meta: Meta) returns (version: Option<string>)
    requires |es| < 0x1_0000 && (forall i :: 0 <= i < |es| ==> Packable(es[i])) && |Encode(es)| < WORD
    requires PlainPaths(es) && ValidMeta(meta) && OneLine(meta)
    modifies store
    ensures store.files == old(store.files) - Paths(es) - {RecordPath(meta.name)} <==>
            Paths(es) <= Listed(es) + {RecordPath(meta.name)}
    ensures FullLength(es) < LIST_SIZE - 1 ==> store.files == old(store.files) - Paths(es) - {RecordPath(meta.name)}
    ensures DistinctPaths(es) && RecordPath(meta.name) !in Paths(es) ==>
              (store.files == old(store.files) - Paths(es) - {RecordPath(meta.name)} <==>
                  FullLength(es) < LIST_SIZE - 1)
    ensures version == var v := Token(SkipBlanks(VersionShown(meta)), 31); if v == [] then None else Some(v)
  {
    PackageReadBack(es);
    ghost var before := store.files;
    var ok, inside := store.Extract(Encode(es), meta);
    NoNulInList(es);
    VersionReadBack(meta, ListOf(es));
    version := store.InstalledVersion(meta.name);
    ok := store.Remove(meta.name);
    RemovalIsComplete(before, es, meta);
  }
}
