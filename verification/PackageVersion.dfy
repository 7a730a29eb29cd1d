// Reading the installed version out of a package's record.
module PackageVersion {
  import opened Lines
  import opened PackageFile
  import opened PackageRecord
  import opened Words

  function SkipBlanks(text: string): string {
    if text != [] && (text[0] == ' ' || text[0] == '\t') then SkipBlanks(text[1..]) else text
  }

  /** What follows the first line's tag that names a version. */
  function VersionStart(text: string): Option<string>
    decreases |text|
  {
    if text == [] then None
    else if "VERSION:" <= text then Some(text[8..])
    else if "Version:" <= text then Some(SkipBlanks(text[8..]))
    else VersionStart(AfterLine(text))
  }

  /** Up to n characters of a line. */
  function Token(text: string, n: nat): string {
    if n == 0 || text == [] || text[0] == '\n' || text[0] == '\r' then [] else [text[0]] + Token(text[1..], n - 1)
  }

  function VersionIn(text: string, size: nat): Option<string>
    requires size > 0
  {
    match VersionStart(text)
    case None => None
    case Some(rest) => if Token(rest, size - 1) == [] then None else Some(Token(rest, size - 1))
  }

  lemma NoVersionHere(line: string, rest: string)
    requires '\n' !in line && |line| >= 8 && line[0] != 'V'
    ensures VersionStart(line + ['\n'] + rest) == VersionStart(rest)
  {
    var text := line + ['\n'] + rest;
    assert text[0] == line[0];
    LineEndIs(line, rest);
    assert text[|line| + 1..] == rest;
  }

  lemma {:induction false} SkipBlanksIn(v: string, rest: string)
    ensures SkipBlanks(v + ['\n'] + rest) == SkipBlanks(v) + ['\n'] + rest
  {
    if v != [] && (v[0] == ' ' || v[0] == '\t') {
      assert (v + ['\n'] + rest)[1..] == v[1..] + ['\n'] + rest;
      SkipBlanksIn(v[1..], rest);
    }
  }

  lemma {:induction false} TokenStops(v: string, rest: string, n: nat)
    ensures Token(v + ['\n'] + rest, n) == Token(v, n)
  {
    if n > 0 && v != [] && v[0] != '\n' && v[0] != '\r' {
      assert (v + ['\n'] + rest)[1..] == v[1..] + ['\n'] + rest;
      TokenStops(v[1..], rest, n - 1);
    }
  }

  lemma {:induction false} TokenWhole(v: string, n: nat)
    requires '\n' !in v && '\r' !in v && |v| <= n
    ensures Token(v, n) == v
  {
    if v != [] {
      TokenWhole(v[1..], n - 1);
      assert v == [v[0]] + v[1..];
    }
  }

  lemma {:induction false} SkipBlanksShortens(v: string)
    ensures |SkipBlanks(v)| <= |v| && forall c <- SkipBlanks(v) :: c in v
  {
    if v != [] && (v[0] == ' ' || v[0] == '\t') {
      SkipBlanksShortens(v[1..]);
    }
  }

  lemma VersionHere(v: string, rest: string)
    ensures VersionStart("Version: " + v + ['\n'] + rest) == Some(SkipBlanks(v) + ['\n'] + rest)
  {
    var text := "Version: " + v + ['\n'] + rest;
    assert text[0] == 'V' && text[1] == 'e';
    assert !("VERSION:" <= text) by {
      assert "VERSION:"[1] == 'E';
    }
    assert "Version:" <= text;
    assert text[8..] == " " + (v + ['\n'] + rest);
    assert (" " + (v + ['\n'] + rest))[1..] == v + ['\n'] + rest;
    SkipBlanksIn(v, rest);
  }

  // The three lines every record starts with.
  function RecordTop(m: Meta): string {
    ("Package: " + m.name + ['\n'])
    + (("Status: install ok installed" + ['\n']) + ("Version: " + VersionShown(m) + ['\n']))
  }

  lemma TopFirst(m: Meta, list: string)
    requires ValidMeta(m)
    ensures RecordText(m, list) == RecordTop(m) + RecordTail(m, list) && |RecordTop(m)| <= 255
  {
    Regroup("Package: " + m.name + ['\n'], "Status: install ok installed" + ['\n'],
        "Version: " + VersionShown(m) + ['\n'],
            RecordTail(m, list));
  }

  lemma Regroup(a: string, b: string, c: string, d: string)
    ensures a + (b + (c + d)) == (a + (b + c)) + d
  {
  }

  lemma TopVersion(m: Meta, rest: string)
    requires OneLine(m)
    ensures VersionStart(RecordTop(m) + rest) == Some(SkipBlanks(VersionShown(m)) + ['\n'] + rest)
  {
    var third := "Version: " + VersionShown(m) + ['\n'];
    var second := "Status: install ok installed" + ['\n'];
    Regroup("Package: " + m.name + ['\n'], second, third, rest);
    NoVersionHere("Package: " + m.name, second + (third + rest));
    NoVersionHere("Status: install ok installed", third + rest);
    VersionHere(VersionShown(m), rest);
  }

  lemma CutAfter(text: string, top: string, tail: string) returns (rest: string)
    requires text == top + tail && |top| <= 255 && '\0' !in text
    ensures ReadBack(text, 255) == top + rest
  {
    var cut := if |text| <= 255 then text else text[..255];
    assert '\0' !in cut && cut[..|top|] == top;
    rest := cut[|top|..];
  }

  /** The version read from the first 255 characters of a record is the one installed,
      without its leading blanks and up to a carriage return; a version of nothing but
      blanks is not found. */
  lemma VersionReadBack(m: Meta, list: string)
    requires ValidMeta(m) && OneLine(m) && '\0' !in list && |list| < LIST_SIZE
    ensures var v := Token(SkipBlanks(VersionShown(m)), 31);
            VersionIn(ReadBack(RecordText(m, list), 255), 32) == if v == [] then None else Some(v)
    ensures '\r' !in VersionShown(m) ==> Token(SkipBlanks(VersionShown(m)), 31) == SkipBlanks(VersionShown(m))
  {
    var text, top, tail := RecordText(m, list), RecordTop(m), RecordTail(m, list);
    TopFirst(m, list);
    NoNulInRecord(m, list);
    var rest := CutAfter(text, top, tail);
    TopVersion(m, rest);
    var v := SkipBlanks(VersionShown(m));
    TokenStops(v, rest, 31);
    SkipBlanksShortens(VersionShown(m));
    if '\r' !in VersionShown(m) {
      TokenWhole(v, 31);
    }
  }

  // ------------------------------------------------------------------
  // The lookup, by position
  // ------------------------------------------------------------------

  method FindLineEnd(text: string, p: nat) returns (q: nat)
    requires p <= |text|
    ensures p <= q <= |text| && q - p == LineEnd(text[p..])
  {
    q := p;
    while q < |text| && text[q] != '\n'
      invariant p <= q <= |text| && LineEnd(text[p..]) == q - p + LineEnd(text[q..])
    {
      assert text[q..][1..] == text[q + 1..];
      q := q + 1;
    }
  }

  method ParseVersion(text: string, size: nat) returns (v: Option<string>)
    requires size > 0
    ensures v == VersionIn(text, size)
  {
    var p := 0;
    var found := false;
    assert text[0..] == text;
    while p < |text| && !found
      invariant p <= |text|
      invariant VersionStart(text) == if found then Some(text[p..]) else VersionStart(text[p..])
      decreases |text| - p, !found
    {
      if "VERSION:" <= text[p..] {
        assert text[p..][8..] == text[p + 8..];
        p, found := p + 8, true;
      } else if "Version:" <= text[p..] {
        assert text[p..][8..] == text[p + 8..];
        p := SkipBlanksFrom(text, p + 8);
        found := true;
      } else {
        var q := FindLineEnd(text, p);
        StartsNextLine(text, p, q);
        p := if q < |text| then q + 1 else q;
      }
    }
    if !found || p == |text| {
      assert text[|text|..] == [];
      return None;
    }
    var token := TakeToken(text, p, size - 1);
    v := if token == [] then None else Some(token);
  }

  lemma StartsNextLine(text: string, p: nat, q: nat)
    requires p < |text| && p <= q <= |text| && q - p == LineEnd(text[p..])
    requires !("VERSION:" <= text[p..]) && !("Version:" <= text[p..])
    ensures VersionStart(text[p..]) == VersionStart(if q < |text| then text[q + 1..] else text[q..])
  {
    if q < |text| {
      assert text[p..][q - p + 1..] == text[q + 1..];
    } else {
      assert text[q..] == [];
    }
  }

  method SkipBlanksFrom(text: string, p: nat) returns (q: nat)
    requires p <= |text|
    ensures p <= q <= |text| && text[q..] == SkipBlanks(text[p..])
  {
    q := p;
    while q < |text| && (text[q] == ' ' || text[q] == '\t')
      invariant p <= q <= |text| && SkipBlanks(text[q..]) == SkipBlanks(text[p..])
    {
      assert text[q..][1..] == text[q + 1..];
      q := q + 1;
    }
  }

  lemma TokenStep(text: string, p: nat, k: nat, n: nat)
    requires p + k < |text| && k < n && text[p + k] != '\n' && text[p + k] != '\r'
    ensures text[p..p + k] + Token(text[p + k..], n - k) == text[p..p + k + 1] + Token(text[p + k + 1..], n - k - 1)
  {
    assert text[p + k..][1..] == text[p + k + 1..];
    assert text[p..p + k] + [text[p + k]] == text[p..p + k + 1];
  }

  method TakeToken(text: string, p: nat, n: nat) returns (token: string)
    requires p <= |text|
    ensures token == Token(text[p..], n)
  {
    var k := 0;
    while p + k < |text| && text[p + k] != '\n' && text[p + k] != '\r' && k < n
      invariant p + k <= |text| && k <= n
      invariant Token(text[p..], n) == text[p..p + k] + Token(text[p + k..], n - k)
    {
      TokenStep(text, p, k, n);
      k := k + 1;
    }
    token := text[p..p + k];
  }
}
