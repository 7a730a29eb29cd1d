// What an installed package leaves behind: the contents of its files, and the lines of
// its record.
module PackageFacts {
  import opened Lines
  import opened PackageFile
  import opened PackageRecord
  import opened PackageVersion
  import opened Words

  // ------------------------------------------------------------------
  // The files
  // ------------------------------------------------------------------

  /** Entry i goes to the file of this name: its path up to a NUL, from the root. */
  predicate GoesTo(es: seq<Entry>, i: int, path: string) {
    0 <= i < |es| && es[i].path != "" && es[i].path[0] == '/' && CString(es[i].path) == path
  }

  /** A file holds the content of the last entry that goes to it, */
  lemma {:induction false} LastContentStays(files: Files, es: seq<Entry>, i: nat, path: string)
    requires GoesTo(es, i, path) && forall j :: i < j < |es| ==> !GoesTo(es, j, path)
    ensures path in Extracted(files, es) && Extracted(files, es)[path] == es[i].content
    decreases |es|
  {
    var front, n := es[..|es| - 1], |es| - 1;
    if i < n {
      assert GoesTo(front, i, path);
      assert forall j :: i < j < n && GoesTo(front, j, path) ==> GoesTo(es, j, path);
      LastContentStays(files, front, i, path);
      assert !GoesTo(es, n, path);
    }
  }

  /** and a file no entry goes to is as before. */
  lemma {:induction false} OtherFilesStay(files: Files, es: seq<Entry>, path: string)
    requires forall i :: 0 <= i < |es| ==> !GoesTo(es, i, path)
    ensures path in Extracted(files, es) <==> path in files
    ensures path in files ==> Extracted(files, es)[path] == files[path]
    decreases |es|
  {
    if es != [] {
      var front, n := es[..|es| - 1], |es| - 1;
      assert forall i :: 0 <= i < n && GoesTo(front, i, path) ==> GoesTo(es, i, path);
      OtherFilesStay(files, front, path);
      assert !GoesTo(es, n, path);
    }
  }

  // ------------------------------------------------------------------
  // The record
  // ------------------------------------------------------------------

  /** The rest of the first line that starts with a tag. */
  function Field(text: string, tag: string): Option<string>
    decreases |text|
  {
    if text == [] then None
    else if tag <= text[..LineEnd(text)] then Some(text[|tag|..LineEnd(text)])
    else Field(AfterLine(text), tag)
  }

  predicate Differs(tag: string, line: string) {
    exists k :: 0 <= k < |tag| && k < |line| && tag[k] != line[k]
  }

  lemma FieldLater(line: string, rest: string, tag: string)
    requires '\n' !in line && Differs(tag, line)
    ensures Field(line + ['\n'] + rest, tag) == Field(rest, tag)
  {
    var text := line + ['\n'] + rest;
    LineEndIs(line, rest);
    assert text[..|line|] == line && text[|line| + 1..] == rest;
    var k :| 0 <= k < |tag| && k < |line| && tag[k] != line[k];
    assert !(tag <= line);
  }

  lemma FieldHere(tag: string, value: string, rest: string)
    requires '\n' !in tag && '\n' !in value
    ensures Field(tag + value + ['\n'] + rest, tag) == Some(value)
  {
    var line := tag + value;
    var text := line + ['\n'] + rest;
    LineEndIs(line, rest);
    assert text[..|line|] == line && text[|tag|..|line|] == value;
  }

  // A line that starts with another tag.
  lemma TaggedLater(t: string, value: string, rest: string, tag: string)
    requires '\n' !in t && '\n' !in value && Differs(tag, t)
    ensures Field(t + value + ['\n'] + rest, tag) == Field(rest, tag)
    ensures Field(Line(t, value) + rest, tag) == Field(rest, tag)
  {
    var k :| 0 <= k < |tag| && k < |t| && tag[k] != t[k];
    assert (t + value)[k] == t[k];
    FieldLater(t + value, rest, tag);
    if value == [] {
      assert [] + rest == rest;
    }
  }

  lemma OptionalHere(tag: string, value: string, rest: string)
    requires '\n' !in tag && '\n' !in value && value != []
    ensures Field(Line(tag, value) + rest, tag) == Some(value)
  {
    FieldHere(tag, value, rest);
  }

  // Three lines with different tags, of which the second is always the same.
  lemma ThreeFields(t: string, a: string, u: string, b: string, w: string, c: string, second: string, rest: string)
    requires '\n' !in t && '\n' !in a && '\n' !in u && '\n' !in b && '\n' !in w && '\n' !in c
    requires Differs(u, t) && Differs(w, t) && Differs(w, u) && second == u + b
    ensures var text := (t + a + ['\n']) + ((second + ['\n']) + ((w + c + ['\n']) + rest));
            Field(text, t) == Some(a) && Field(text, u) == Some(b) && Field(text, w) == Some(c)
  {
    var third := (w + c + ['\n']) + rest;
    var more := (second + ['\n']) + third;
    FieldHere(t, a, more);
    TaggedLater(t, a, more, u);
    FieldHere(u, b, third);
    TaggedLater(t, a, more, w);
    TaggedLater(u, b, third, w);
    FieldHere(w, c, rest);
  }

  lemma PastThree(t: string, a: string, u: string, b: string, w: string, c: string, second: string, rest: string,
                  tag: string)
    requires '\n' !in t && '\n' !in a && '\n' !in u && '\n' !in b && '\n' !in w && '\n' !in c && second == u + b
    requires Differs(tag, t) && Differs(tag, u) && Differs(tag, w)
    ensures Field((t + a + ['\n']) + ((second + ['\n']) + ((w + c + ['\n']) + rest)), tag) == Field(rest, tag)
  {
    var third := (w + c + ['\n']) + rest;
    TaggedLater(t, a, (second + ['\n']) + third, tag);
    TaggedLater(u, b, third, tag);
    TaggedLater(w, c, rest, tag);
  }

  lemma StatusLine()
    ensures "Status: install ok installed" == "Status: " + "install ok installed"
    ensures '\n' !in "Status: " && '\n' !in "install ok installed"
  {
  }

  lemma TopTags()
    ensures Differs("Status: ", "Package: ") && Differs("Version: ", "Package: ") && Differs("Version: ", "Status: ")
    ensures '\n' !in "Package: " && '\n' !in "Version: "
  {
    assert "Status: "[0] != "Package: "[0] && "Version: "[0] != "Package: "[0] && "Version: "[0] != "Status: "[0];
  }

  /** The name, the state and the version stand at the top of the record, */
  lemma TopFields(m: Meta, list: string)
    requires OneLine(m)
    ensures var text := RecordText(m, list);
            && Field(text, "Package: ") == Some(m.name) && Field(text, "Status: ") == Some("install ok installed")
            && Field(text, "Version: ") == Some(if m.version == "" then "unknown" else m.version)
  {
    StatusLine();
    TopTags();
    ThreeFields("Package: ", m.name, "Status: ", "install ok installed", "Version: ", VersionShown(m),
                "Status: install ok installed", RecordTail(m, list));
  }

  lemma PastTop(m: Meta, list: string, tag: string)
    requires OneLine(m) && Differs(tag, "Package: ") && Differs(tag, "Status: ") && Differs(tag, "Version: ")
    ensures Field(RecordText(m, list), tag) == Field(RecordTail(m, list), tag)
  {
    StatusLine();
    TopTags();
    PastThree("Package: ", m.name, "Status: ", "install ok installed", "Version: ", VersionShown(m),
              "Status: install ok installed", RecordTail(m, list), tag);
  }

  /** and the other fields that are not empty each on a line of its own. */
  lemma TailFields(m: Meta, list: string)
    requires OneLine(m)
    ensures var text := RecordText(m, list);
            && (m.depends != "" ==> Field(text, "Depends: ") == Some(m.depends))
            && (m.category != "" ==> Field(text, "Section: ") == Some(m.category))
            && (m.license != "" ==> Field(text, "License: ") == Some(m.license))
            && (m.description != "" ==> Field(text, "Description: ") == Some(m.description))
  {
    OtherTags();
    PastTop(m, list, "Depends: ");
    PastTop(m, list, "Section: ");
    PastTop(m, list, "License: ");
    PastTop(m, list, "Description: ");
    var files := ("Files:" + ['\n']) + (list + ['\n']);
    FourFields(m.depends, m.category, m.license, m.description, files);
  }

  // A tag of the tail is none of the top.
  lemma OtherTags()
    ensures forall tag :: tag in {"Depends: ", "Section: ", "License: ", "Description: "} ==>
              Differs(tag, "Package: ") && Differs(tag, "Status: ") && Differs(tag, "Version: ")
  {
    forall tag | tag in {"Depends: ", "Section: ", "License: ", "Description: "}
      ensures Differs(tag, "Package: ") && Differs(tag, "Status: ") && Differs(tag, "Version: ")
    {
      assert tag[0] != "Package: "[0] && tag[1] != "Status: "[1] && tag[0] != "Version: "[0];
    }
  }

  lemma TagsDiffer()
    ensures Differs("Section: ", "Depends: ") && Differs("License: ", "Depends: ") && Differs("License: ", "Section: ")
    ensures Differs("Description: ", "Depends: ") && Differs("Description: ", "Section: ")
    ensures Differs("Description: ", "License: ")
    ensures '\n' !in "Depends: " && '\n' !in "Section: " && '\n' !in "License: " && '\n' !in "Description: "
  {
    assert "Section: "[0] != "Depends: "[0] && "License: "[0] != "Depends: "[0] && "License: "[0] != "Section: "[0];
    assert "Description: "[2] != "Depends: "[2] && "Description: "[0] != "Section: "[0];
    assert "Description: "[0] != "License: "[0];
  }

  lemma FourFields(a: string, b: string, c: string, d: string, rest: string)
    requires '\n' !in a && '\n' !in b && '\n' !in c && '\n' !in d
    ensures var text := Line("Depends: ", a) + (Line("Section: ", b) + (Line("License: ", c)
                        + (Line("Description: ", d) + rest)));
            && (a != "" ==> Field(text, "Depends: ") == Some(a)) && (b != "" ==> Field(text, "Section: ") == Some(b))
            && (c != "" ==> Field(text, "License: ") == Some(c))
            && (d != "" ==> Field(text, "Description: ") == Some(d))
  {
    TagsDiffer();
    FourTagged("Depends: ", a, "Section: ", b, "License: ", c, "Description: ", d, rest);
  }

  lemma FourTagged(t: string, a: string, u: string, b: string, v: string, c: string, w: string, d: string, rest: string)
    requires '\n' !in t && '\n' !in a && '\n' !in u && '\n' !in b
    requires '\n' !in v && '\n' !in c && '\n' !in w && '\n' !in d
    requires Differs(u, t) && Differs(v, t) && Differs(v, u) && Differs(w, t) && Differs(w, u) && Differs(w, v)
    ensures var text := Line(t, a) + (Line(u, b) + (Line(v, c) + (Line(w, d) + rest)));
            && (a != "" ==> Field(text, t) == Some(a)) && (b != "" ==> Field(text, u) == Some(b))
            && (c != "" ==> Field(text, v) == Some(c)) && (d != "" ==> Field(text, w) == Some(d))
  {
    var fourth := Line(w, d) + rest;
    var third := Line(v, c) + fourth;
    var second := Line(u, b) + third;
    if a != "" {
      OptionalHere(t, a, second);
    }
    TaggedLater(t, a, second, u);
    TaggedLater(t, a, second, v);
    TaggedLater(t, a, second, w);
    if b != "" {
      OptionalHere(u, b, third);
    }
    TaggedLater(u, b, third, v);
    TaggedLater(u, b, third, w);
    if c != "" {
      OptionalHere(v, c, fourth);
    }
    TaggedLater(v, c, fourth, w);
    if d != "" {
      OptionalHere(w, d, rest);
    }
  }

  // ------------------------------------------------------------------
  // The list and the version
  // ------------------------------------------------------------------

  /** The paths from the root, in order. */
  function RootPaths(es: seq<Entry>): (ps: seq<string>)
    ensures forall i :: 0 <= i < |ps| ==> ps[i] != ""
  {
    if es == [] then []
    else
      var e := es[|es| - 1];
      RootPaths(es[..|es| - 1]) + (if e.path != "" && e.path[0] == '/' then [e.path] else [])
  }

  function Joined(ps: seq<string>): string {
    if ps == [] then ""
    else if |ps| == 1 then ps[0] else Joined(ps[..|ps| - 1]) + "\n" + ps[|ps| - 1]
  }

  lemma JoinedMore(ps: seq<string>, p: string)
    requires forall i :: 0 <= i < |ps| ==> ps[i] != ""
    ensures Joined(ps + [p]) == if ps == [] then p else Joined(ps) + "\n" + p
    ensures Joined(ps) == "" <==> ps == []
  {
    assert (ps + [p])[..|ps|] == ps;
  }

  /** A list of fewer than 8191 characters is the paths, one a line. */
  lemma {:induction false} ListIsJoined(es: seq<Entry>)
    requires |Joined(RootPaths(es))| < 8191
    ensures ListOf(es) == Joined(RootPaths(es))
  {
    if es != [] {
      var front, e := es[..|es| - 1], es[|es| - 1];
      JoinedMore(RootPaths(front), e.path);
      assert RootPaths(front) + [] == RootPaths(front);
      ListIsJoined(front);
    }
  }

  /** A version that starts with no blank and has no carriage return is read back whole. */
  lemma PlainVersionBack(m: Meta, list: string)
    requires ValidMeta(m) && OneLine(m) && '\0' !in list && |list| < LIST_SIZE
    requires m.version != "" && m.version[0] != ' ' && m.version[0] != '\t' && '\r' !in m.version
    ensures VersionIn(ReadBack(RecordText(m, list), 255), 32) == Some(m.version)
  {
    VersionReadBack(m, list);
  }
}
