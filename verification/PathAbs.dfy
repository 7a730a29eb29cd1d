// Absolute, normalised paths: a fast check that leaves a normal path alone, and
// the slow way through a stack of components.
module PathAbs {
  import opened Arithmetic

  const BUFFER: nat := 512
  const MAX_PARTS: nat := 32

  // ------------------------------------------------------------------
  // What a path means
  // ------------------------------------------------------------------

  /** The text up to the first slash, and what follows that slash. */
  function FirstName(s: string): (r: (string, string))
    ensures '/' !in r.0 && |r.0| <= |s| && |r.1| <= |s| && (s != "" ==> |r.1| < |s|)
  {
    if s == "" then ("", "")
    else if s[0] == '/' then ("", s[1..])
    else var (name, rest) := FirstName(s[1..]); ([s[0]] + name, rest)
  }

  /** The non-empty names between slashes. */
  function Names(s: string): (r: seq<string>)
    ensures forall k :: 0 <= k < |r| ==> r[k] != "" && '/' !in r[k]
    decreases |s|
  {
    if s == "" then []
    else
      var (name, rest) := FirstName(s);
      if name == "" then Names(rest) else [name] + Names(rest)
  }

  /** One name applied to the stack of names above it. */
  function Apply(stack: seq<string>, name: string): seq<string> {
    if name == "." then stack
    else if name == ".." then (if stack == [] then [] else stack[..|stack| - 1])
    else stack + [name]
  }

  function Resolve(stack: seq<string>, names: seq<string>): seq<string>
    decreases |names|
  {
    if names == [] then stack else Resolve(Apply(stack, names[0]), names[1..])
  }

  function Tail(names: seq<string>): string {
    if names == [] then "" else "/" + names[0] + Tail(names[1..])
  }

  function Render(names: seq<string>): string {
    if names == [] then "/" else Tail(names)
  }

  /** The canonical form of an absolute path. */
  function Canonical(s: string): string {
    Render(Resolve([], Names(s)))
  }

  predicate PlainName(name: string) {
    name != "" && '/' !in name && name != "." && name != ".."
  }

  predicate AllPlain(names: seq<string>) {
    forall k :: 0 <= k < |names| ==> PlainName(names[k])
  }

  lemma {:induction false} ResolvedPlain(stack: seq<string>, names: seq<string>)
    requires AllPlain(stack) && forall k :: 0 <= k < |names| ==> names[k] != "" && '/' !in names[k]
    ensures AllPlain(Resolve(stack, names))
    decreases |names|
  {
    if names != [] {
      ResolvedPlain(Apply(stack, names[0]), names[1..]);
    }
  }

  lemma {:induction false} PlainResolves(stack: seq<string>, names: seq<string>)
    requires AllPlain(names)
    ensures Resolve(stack, names) == stack + names
    decreases |names|
  {
    if names == [] {
      assert stack + names == stack;
    } else {
      PlainResolves(stack + [names[0]], names[1..]);
      assert stack + names == stack + [names[0]] + names[1..];
    }
  }

  lemma {:induction false} FirstNameOf(name: string, rest: string)
    requires '/' !in name
    ensures FirstName(name + "/" + rest) == (name, rest)
    ensures FirstName(name) == (name, "")
  {
    if name == "" {
      assert (name + "/" + rest)[1..] == rest;
    } else {
      FirstNameOf(name[1..], rest);
      assert (name + "/" + rest)[1..] == name[1..] + "/" + rest;
      assert [name[0]] + name[1..] == name;
    }
  }

  lemma {:induction false} NamesOfTail(names: seq<string>)
    requires AllPlain(names)
    ensures Names(Tail(names)) == names
  {
    if names != [] {
      var t := Tail(names);
      assert t[0] == '/' && t[1..] == names[0] + Tail(names[1..]);
      assert Names(t) == Names(t[1..]);
      NamesOfTail(names[1..]);
      if |names| == 1 {
        FirstNameOf(names[0], "");
        assert t[1..] == names[0];
      } else {
        var more := Tail(names[1..]);
        FirstNameOf(names[0], more[1..]);
        assert t[1..] == names[0] + "/" + more[1..];
        assert Names(more) == Names(more[1..]);
      }
      assert names == [names[0]] + names[1..];
    }
  }

  lemma NamesOfRender(names: seq<string>)
    requires AllPlain(names)
    ensures Names(Render(names)) == names
  {
    NamesOfTail(names);
    if names == [] {
      assert "/"[1..] == "";
    }
  }

  /** A canonical path is its own canonical form. */
  lemma CanonicalTwice(s: string)
    ensures Canonical(Canonical(s)) == Canonical(s)
  {
    ResolvedPlain([], Names(s));
    var names := Resolve([], Names(s));
    NamesOfRender(names);
    PlainResolves([], names);
    assert [] + names == names;
  }

  // ------------------------------------------------------------------
  // The slow way
  // ------------------------------------------------------------------

  datatype Result = Path(out: string) | Fail

  /** The stack with its 32 slots: a name beyond them is dropped. */
  function ApplyLimited(stack: seq<string>, name: string): seq<string> {
    if PlainNameOrDots(name) && |stack| >= MAX_PARTS then stack else Apply(stack, name)
  }

  predicate PlainNameOrDots(name: string) {
    name != "." && name != ".."
  }

  function ResolveLimited(stack: seq<string>, names: seq<string>): seq<string>
    decreases |names|
  {
    if names == [] then stack else ResolveLimited(ApplyLimited(stack, names[0]), names[1..])
  }

  /** The stack never overflows. */
  predicate Shallow(stack: seq<string>, names: seq<string>)
    decreases |names|
  {
    |stack| <= MAX_PARTS && (names == [] || Shallow(Apply(stack, names[0]), names[1..]))
  }

  lemma {:induction false} ShallowResolves(stack: seq<string>, names: seq<string>)
    requires Shallow(stack, names)
    ensures ResolveLimited(stack, names) == Resolve(stack, names)
    decreases |names|
  {
    if names != [] {
      ShallowResolves(Apply(stack, names[0]), names[1..]);
    }
  }

  /** The parts written until one, with its NUL and one spare byte, does not fit. */
  function Write(parts: seq<string>, i: nat, out: string, size: nat): string
    requires i <= |parts|
    decreases |parts| - i
  {
    if i == |parts| || |out| + |parts[i]| + 1 >= size then out
    else Write(parts, i + 1, out + parts[i] + (if i + 1 < |parts| then "/" else ""), size)
  }

  function SlowResult(text: string, size: nat): Result {
    var parts := ResolveLimited([], Names(text));
    if parts == [] then (if size < 2 then Fail else Path("/")) else Path(Write(parts, 0, "/", size))
  }

  lemma TailFrom(parts: seq<string>, i: nat)
    requires i < |parts|
    ensures Tail(parts[i..])[1..] == parts[i] + Tail(parts[i + 1..]) &&
            |Tail(parts[i..])| == 1 + |parts[i]| + |Tail(parts[i + 1..])|
    ensures i + 1 < |parts| ==> Tail(parts[i + 1..]) == "/" + Tail(parts[i + 1..])[1..]
    ensures i + 1 == |parts| ==> Tail(parts[i + 1..]) == ""
  {
    assert parts[i..][0] == parts[i] && parts[i..][1..] == parts[i + 1..];
  }

  lemma {:induction false} WrittenWhole(parts: seq<string>, i: nat, out: string, size: nat)
    requires i < |parts| && |out| + |Tail(parts[i..])| < size
    ensures Write(parts, i, out, size) == out + Tail(parts[i..])[1..]
    decreases |parts| - i
  {
    TailFrom(parts, i);
    var u := Tail(parts[i + 1..]);
    if i + 1 < |parts| {
      WrittenWhole(parts, i + 1, out + parts[i] + "/", size);
      assert out + parts[i] + "/" + u[1..] == out + (parts[i] + ("/" + u[1..]));
    } else {
      assert out + parts[i] + "" == out + (parts[i] + "");
    }
  }

  lemma {:induction false} WrittenShort(parts: seq<string>, i: nat, out: string, size: nat)
    requires i < |parts| && |out| + |Tail(parts[i..])| >= size
    requires forall k :: 0 <= k < |parts| ==> parts[k] != ""
    ensures |Write(parts, i, out, size)| < |out| + |Tail(parts[i..])| - 1
    decreases |parts| - i
  {
    TailFrom(parts, i);
    if |out| + |parts[i]| + 1 < size {
      if i + 1 < |parts| {
        WrittenShort(parts, i + 1, out + parts[i] + "/", size);
      }
    }
  }

  method SkipSlashes(s: string, p: nat) returns (q: nat)
    requires p <= |s|
    ensures p <= q <= |s| && Names(s[q..]) == Names(s[p..]) && (q < |s| ==> s[q] != '/')
  {
    q := p;
    while q < |s| && s[q] == '/'
      invariant p <= q <= |s| && Names(s[q..]) == Names(s[p..])
    {
      assert s[q..][1..] == s[q + 1..];
      q := q + 1;
    }
  }

  method NameEnd(s: string, start: nat) returns (q: nat)
    requires start <= |s|
    ensures start <= q <= |s| && '/' !in s[start..q] && (q < |s| ==> s[q] == '/')
  {
    q := start;
    while q < |s| && s[q] != '/'
      invariant start <= q <= |s| && '/' !in s[start..q]
    {
      q := q + 1;
    }
  }

  // The next non-empty name, and where it ends.
  method NextName(s: string, p: nat) returns (name: string, q: nat)
    requires p <= |s|
    ensures p <= q <= |s| && (name != "" ==> p < q)
    ensures Names(s[p..]) == if name == "" then [] else [name] + Names(s[q..])
  {
    var start := SkipSlashes(s, p);
    q := NameEnd(s, start);
    name := s[start..q];
    NamesFrom(s, start, q);
    if q < |s| {
      q := q + 1;
    }
  }

  lemma NamesFrom(s: string, start: nat, q: nat)
    requires start <= q <= |s| && '/' !in s[start..q] && (q < |s| ==> s[q] == '/' && start < q)
    ensures Names(s[start..]) == if start == q then [] else [s[start..q]] + Names(s[if q < |s| then q + 1 else q..])
  {
    NameBetween(s, start, q);
    if start == q {
      assert s[start..] == "";
    }
    if start < q == |s| {
      assert s[q..] == "";
    }
  }

  lemma NameBetween(s: string, start: nat, q: nat)
    requires start <= q <= |s| && '/' !in s[start..q] && (q < |s| ==> s[q] == '/' && start < q)
    ensures FirstName(s[start..]) == (s[start..q], if q < |s| then s[q + 1..] else "")
    ensures s[start..] == if q < |s| then s[start..q] + "/" + s[q + 1..] else s[start..q]
  {
    FirstNameOf(s[start..q], if q < |s| then s[q + 1..] else "");
    if q < |s| {
      assert s[start..] == s[start..q] + "/" + s[q + 1..];
    } else {
      assert s[start..] == s[start..q];
    }
  }

  method ResolveNames(s: string) returns (parts: seq<string>)
    ensures parts == ResolveLimited([], Names(s)) && |parts| <= MAX_PARTS
  {
    parts := [];
    var p := 0;
    assert s[0..] == s;
    while p < |s|
      invariant p <= |s| && |parts| <= MAX_PARTS
      invariant ResolveLimited(parts, Names(s[p..])) == ResolveLimited([], Names(s))
    {
      var name, q := NextName(s, p);
      if name == "" {
        break;
      }
      assert ([name] + Names(s[q..]))[1..] == Names(s[q..]);
      p := q;
      if name == "." {
        continue;
      }
      if name == ".." {
        if |parts| > 0 {
          parts := parts[..|parts| - 1];
        }
        continue;
      }
      if |parts| < MAX_PARTS {
        parts := parts + [name];
      }
    }
  }

  method WriteParts(parts: seq<string>, size: nat) returns (out: string)
    ensures out == Write(parts, 0, "/", size)
    ensures |out| + 1 <= size <==> size >= 2
  {
    WriteFits(parts, 0, "/", size);
    out := "/";
    var i := 0;
    while i < |parts|
      invariant i <= |parts| && Write(parts, i, out, size) == Write(parts, 0, "/", size)
    {
      if |out| + |parts[i]| + 1 >= size {
        break;
      }
      out := out + parts[i];
      if i + 1 < |parts| {
        out := out + "/";
      } else {
        assert out == out + "";
      }
      i := i + 1;
    }
  }

  /** The text the slow way works on, cut to its 512-byte buffer. */
  function Buffered(path: string, cwd: string): string
    requires path != "" && |cwd| < BUFFER
  {
    if path[0] == '/' then path[..Min(|path|, BUFFER - 1)]
    else if cwd == "/" then "/" + path[..Min(|path|, BUFFER - 2)]
    else
      var base := if |cwd| + 1 < BUFFER then cwd + "/" else cwd;
      base + path[..Min(|path|, BUFFER - 1 - |base|)]
  }

  method PathAbsSlow(path: string, cwd: Result, size: nat) returns (r: Result)
    requires path != "" && size > 0 && (cwd.Path? ==> |cwd.out| < 256)
    ensures r == if path[0] != '/' && cwd.Fail? then Fail
                 else SlowResult(Buffered(path, if cwd.Path? then cwd.out else ""), size)
  {
    if path[0] != '/' && cwd.Fail? {
      return Fail;
    }
    var text := Buffered(path, if cwd.Path? then cwd.out else "");
    var parts := ResolveNames(text);
    if |parts| == 0 {
      return if size < 2 then Fail else Path("/");
    }
    var out := WriteParts(parts, size);
    r := Path(out);
  }

  /** Within the 32 components and the output buffer the slow way gives the
      canonical path; with a smaller buffer it gives something shorter, or fails. */
  lemma SlowIsCanonical(text: string, size: nat)
    requires Shallow([], Names(text))
    ensures SlowResult(text, size) == Path(Canonical(text)) <==>
            |Canonical(text)| + (if Canonical(text) == "/" then 0 else 1) < size
  {
    ShallowResolves([], Names(text));
    ResolvedPlain([], Names(text));
    var parts := Resolve([], Names(text));
    if parts != [] {
      assert parts[0..] == parts;
      var t := Tail(parts);
      assert t[0] == '/' && |t| > 1;
      if |t| + 1 < size {
        WrittenWhole(parts, 0, "/", size);
        assert "/" + t[1..] == t;
      } else {
        WrittenShort(parts, 0, "/", size);
      }
    }
  }

  // ------------------------------------------------------------------
  // The fast check
  // ------------------------------------------------------------------

  predicate IsDots(s: string) {
    s == "." || s == ".."
  }

  /** The names between slashes with the empty ones, of the text after a slash. */
  predicate NormalFrom(s: string)
    decreases |s|
  {
    var (name, rest) := FirstName(s);
    if name == s then !IsDots(name)
    else name != "" && !IsDots(name) && rest != "" && NormalFrom(rest)
  }

  /** The check passes exactly when the path is its own canonical form. */
  lemma {:induction false} NormalIsCanonical(s: string)
    ensures NormalFrom(s) <==> Canonical("/" + s) == "/" + s
  {
    NamesFromSlash(s);
    if NormalFrom(s) {
      NormalNames(s);
      PlainResolves([], Names(s));
      assert [] + Names(s) == Names(s);
    }
    if Canonical("/" + s) == "/" + s {
      ResolvedPlain([], Names(s));
      TailIsNormal(Resolve([], Names(s)), s);
    }
  }

  lemma NamesFromSlash(s: string)
    ensures Names("/" + s) == Names(s)
  {
    assert ("/" + s)[1..] == s;
  }

  lemma {:induction false} FirstNameSplits(s: string)
    ensures var (name, rest) := FirstName(s);
            s == (if |name| == |s| then name else name + "/" + rest)
  {
    if s != "" && s[0] != '/' {
      FirstNameSplits(s[1..]);
      assert s == [s[0]] + s[1..];
    } else if s != "" {
      assert s == "" + "/" + s[1..];
    }
  }

  lemma {:induction false} NormalNames(s: string)
    requires NormalFrom(s)
    ensures AllPlain(Names(s)) && Render(Names(s)) == "/" + s
    ensures s != "" ==> Tail(Names(s)) == "/" + s
    decreases |s|
  {
    var (name, rest) := FirstName(s);
    FirstNameSplits(s);
    if name == s {
      if s != "" {
        FirstNameOf(name, "");
        assert Names(s) == [name] + Names("");
      }
    } else {
      NormalNames(rest);
      assert Names(s) == [name] + Names(rest);
      TailJoined(name, rest, Names(rest));
    }
  }

  lemma TailJoined(name: string, rest: string, names: seq<string>)
    requires Tail(names) == "/" + rest
    ensures Tail([name] + names) == "/" + (name + "/" + rest)
  {
    assert ([name] + names)[1..] == names;
    assert "/" + name + ("/" + rest) == "/" + (name + "/" + rest);
  }

  lemma {:induction false} TailIsNormal(names: seq<string>, s: string)
    requires AllPlain(names) && Render(names) == "/" + s
    ensures NormalFrom(s)
    decreases |names|
  {
    assert s == ("/" + s)[1..];
    if names == [] {
      assert s == "";
    } else {
      var t := Tail(names);
      assert s == names[0] + Tail(names[1..]);
      if |names| == 1 {
        FirstNameOf(names[0], "");
        assert s == names[0];
      } else {
        var more := Tail(names[1..]);
        assert more == "/" + more[1..];
        FirstNameOf(names[0], more[1..]);
        assert s == names[0] + "/" + more[1..];
        assert more[1..] != "" by {
          assert more == "/" + names[1..][0] + Tail(names[1..][1..]);
        }
        TailIsNormal(names[1..], more[1..]);
      }
    }
  }

  // The loop over the text after the leading slash.
  method CheckNormal(path: string) returns (normal: bool)
    requires path != "" && path[0] == '/'
    ensures normal <==> NormalFrom(path[1..])
  {
    var segment, p := 1, 1;
    while p < |path|
      invariant 1 <= segment <= p <= |path| && '/' !in path[segment..p]
      invariant segment > 1 ==> path[segment - 1] == '/'
      invariant segment == 1 || segment < |path| ==> (NormalFrom(path[segment..]) <==> NormalFrom(path[1..]))
      invariant 1 < segment == |path| ==> !NormalFrom(path[1..])
    {
      var c := path[p];
      p := p + 1;
      if c != '/' {
        continue;
      }
      SegmentClosed(path, segment, p - 1);
      if p - 1 == segment || IsDots(path[segment..p - 1]) {
        return false;
      }
      segment := p;
    }
    normal := !IsDots(path[segment..p]);
    assert path[segment..p] == path[segment..];
    FirstNameOf(path[segment..], "");
    if p > 1 && path[p - 1] == '/' {
      normal := false;
    }
  }

  lemma SegmentClosed(path: string, segment: nat, slash: nat)
    requires segment <= slash < |path| && path[slash] == '/' && '/' !in path[segment..slash]
    ensures NormalFrom(path[segment..]) <==>
            slash > segment && !IsDots(path[segment..slash]) && slash + 1 < |path| && NormalFrom(path[slash + 1..])
  {
    var name, rest := path[segment..slash], path[slash + 1..];
    FirstNameOf(name, rest);
    assert path[segment..] == name + "/" + rest;
  }

  /** The whole function.  The directory is what getcwd gives, if anything. */
  method PathAbs(path: string, cwd: Result, size: nat) returns (r: Result)
    requires cwd.Path? ==> |cwd.out| < 256
    ensures r == PathResult(path, cwd, size)
  {
    if size == 0 || path == "" {
      return Fail;
    }
    if path[0] != '/' {
      r := PathAbsSlow(path, cwd, size);
      return;
    }
    var normal := CheckNormal(path);
    if !normal || |path| >= size {
      r := PathAbsSlow(path, cwd, size);
      return;
    }
    r := Path(path);
  }

  function PathResult(path: string, cwd: Result, size: nat): Result
    requires cwd.Path? ==> |cwd.out| < 256
  {
    if size == 0 || path == "" then Fail
    else if path[0] == '/' && NormalFrom(path[1..]) && |path| < size then Path(path)
    else if path[0] != '/' && cwd.Fail? then Fail
    else SlowResult(Buffered(path, if cwd.Path? then cwd.out else ""), size)
  }

  lemma {:induction false} WriteFits(parts: seq<string>, i: nat, out: string, size: nat)
    requires i <= |parts|
    ensures |Write(parts, i, out, size)| < size <==> |out| < size
    decreases |parts| - i
  {
    if i < |parts| && |out| + |parts[i]| + 1 < size {
      WriteFits(parts, i + 1, out + parts[i] + (if i + 1 < |parts| then "/" else ""), size);
    }
  }

  /** A result and its NUL fit the output buffer exactly when that has two bytes or more. */
  lemma ResultFits(path: string, cwd: Result, size: nat)
    requires (cwd.Path? ==> |cwd.out| < 256) && PathResult(path, cwd, size).Path?
    ensures |PathResult(path, cwd, size).out| + 1 <= size <==> size >= 2
  {
    if path != "" {
      WriteFits(ResolveLimited([], Names(Buffered(path, if cwd.Path? then cwd.out else ""))), 0, "/", size);
    }
  }

  /** With one byte, a path below the root still has two written to it. */
  lemma OneByteOverflows()
    ensures PathResult("/a/", Fail, 1) == Path("/")
  {
    assert Names("/a/") == ["a"] by {
      assert "/a/"[1..] == "a" + "/" + "";
      FirstNameOf("a", "");
    }
    assert "/a/"[..3] == "/a/";
    assert Resolve([], ["a"]) == [] + ["a"] == ["a"];
    assert ResolveLimited([], ["a"]) == ["a"];
  }

  /** A normal path within the limits is left alone, and the slow way agrees unless
      the output buffer has no byte to spare beyond the NUL. */
  lemma FastAgreesWithSlow(path: string, size: nat)
    requires path != "" && path[0] == '/' && NormalFrom(path[1..]) && |path| < size && |path| < BUFFER
    requires Shallow([], Names(path))
    ensures SlowResult(Buffered(path, ""), size) == Path(path) <==> path == "/" || |path| + 1 < size
  {
    NormalIsCanonical(path[1..]);
    assert path == "/" + path[1..];
    assert path[..|path|] == path;
    SlowIsCanonical(path, size);
  }

  /** Within the limits the result is the canonical form of the path, taken from the
      current directory when relative; and doing it again changes nothing. */
  lemma ResultIsCanonical(path: string, cwd: Result, size: nat)
    requires path != "" && (cwd.Path? ==> |cwd.out| < 256) && (path[0] != '/' ==> cwd.Path?)
    requires var text := if path[0] == '/' then path else if cwd.out == "/" then "/" + path else cwd.out + "/" + path;
             |text| < BUFFER && Shallow([], Names(text)) && |Canonical(text)| + 1 < size
    ensures var text := if path[0] == '/' then path else if cwd.out == "/" then "/" + path else cwd.out + "/" + path;
            PathResult(path, cwd, size) == Path(Canonical(text)) &&
            PathResult(Canonical(text), cwd, size) == Path(Canonical(text))
  {
    var text := if path[0] == '/' then path else if cwd.out == "/" then "/" + path else cwd.out + "/" + path;
    assert path[..|path|] == path;
    assert Buffered(path, if cwd.Path? then cwd.out else "") == text;
    SlowIsCanonical(text, size);
    if path[0] == '/' {
      NormalIsCanonical(path[1..]);
      assert path == "/" + path[1..];
    }
    CanonicalTwice(text);
    CanonicalStarts(text);
    var c := Canonical(text);
    NormalIsCanonical(c[1..]);
    assert c == "/" + c[1..];
  }

  lemma CanonicalStarts(s: string)
    ensures Canonical(s) != "" && Canonical(s)[0] == '/'
  {
  }
}
