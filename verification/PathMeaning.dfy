// What the dots in a path do, on lists of names and on text.
module PathMeaning {
  import opened PathAbs

  lemma {:induction false} ResolveAppend(stack: seq<string>, a: seq<string>, b: seq<string>)
    ensures Resolve(stack, a + b) == Resolve(Resolve(stack, a), b)
    decreases |a|
  {
    if a == [] {
      assert a + b == b;
    } else {
      ResolveAppend(Apply(stack, a[0]), a[1..], b);
      assert (a + b)[1..] == a[1..] + b;
    }
  }

  // A list that leaves every stack as it was can be left out.
  lemma LeftOut(a: seq<string>, m: seq<string>, b: seq<string>)
    requires forall stack :: Resolve(stack, m) == stack
    ensures Resolve([], a + m + b) == Resolve([], a + b)
  {
    ResolveAppend([], a + m, b);
    ResolveAppend([], a, m);
    ResolveAppend([], a, b);
  }

  lemma UpFromName(stack: seq<string>, n: string)
    requires n != "." && n != ".."
    ensures Resolve(stack, [n, ".."]) == stack
  {
    assert [n, ".."][1..] == [".."] && [".."][1..] == [];
    assert (stack + [n])[..|stack|] == stack;
    assert Resolve(stack, [n, ".."]) == Resolve(stack + [n], [".."]);
    assert Resolve(stack + [n], [".."]) == Resolve(stack, []);
  }

  lemma DotStays(stack: seq<string>)
    ensures Resolve(stack, ["."]) == stack
  {
    assert ["."][1..] == [];
    assert Resolve(stack, ["."]) == Resolve(stack, []);
  }

  /** A name and the two dots after it cancel. */
  lemma NameThenUp(a: seq<string>, n: string, b: seq<string>)
    requires n != "." && n != ".."
    ensures Resolve([], a + [n, ".."] + b) == Resolve([], a + b)
  {
    forall stack: seq<string> ensures Resolve(stack, [n, ".."]) == stack {
      UpFromName(stack, n);
    }
    LeftOut(a, [n, ".."], b);
  }

  /** One dot does nothing. */
  lemma DotLeftOut(a: seq<string>, b: seq<string>)
    ensures Resolve([], a + ["."] + b) == Resolve([], a + b)
  {
    forall stack: seq<string> ensures Resolve(stack, ["."]) == stack {
      DotStays(stack);
    }
    LeftOut(a, ["."], b);
  }

  /** Two dots at the root do nothing. */
  lemma UpAtRoot(b: seq<string>)
    ensures Resolve([], [".."] + b) == Resolve([], b)
  {
    assert ([".."] + b)[1..] == b;
  }

  // ------------------------------------------------------------------
  // On text
  // ------------------------------------------------------------------

  lemma FirstNameBefore(p: string, q: string)
    requires '/' in p
    ensures FirstName(p + q) == (FirstName(p).0, FirstName(p).1 + q)
  {
    var (name, rest) := FirstName(p);
    FirstNameSplits(p);
    assert |name| != |p|;
    Grouped(name, "/", rest, q);
    FirstNameOf(name, rest + q);
  }

  lemma Grouped(a: string, b: string, c: string, d: string)
    ensures (a + b + c) + d == a + b + (c + d)
  {
  }

  /** A slash separates the names on its sides. */
  lemma {:induction false} NamesAcross(p: string, q: string)
    ensures Names(p + "/" + q) == Names(p) + Names(q)
    decreases |p|
  {
    var t := p + "/" + q;
    if '/' in p {
      var (name, rest) := FirstName(p);
      FirstNameBefore(p, "/" + q);
      assert t == p + ("/" + q) && rest + ("/" + q) == rest + "/" + q;
      NamesAcross(rest, q);
      assert [name] + (Names(rest) + Names(q)) == [name] + Names(rest) + Names(q);
    } else {
      FirstNameOf(p, q);
      assert Names(p) == if p == "" then [] else [p];
    }
  }

  lemma OneName(n: string)
    requires n != "" && '/' !in n
    ensures Names(n) == [n]
  {
    FirstNameOf(n, "");
    assert Names("") == [];
  }

  // What follows a name: nothing, or a slash and more.
  predicate Follows(q: string) {
    q == "" || q[0] == '/'
  }

  lemma NamesBefore(p: string, q: string)
    requires Follows(q)
    ensures Names(p + q) == Names(p) + Names(q)
  {
    if q == "" {
      assert p + q == p;
    } else {
      NamesAcross(p, q[1..]);
      assert p + q == p + "/" + q[1..] && q == "/" + q[1..];
      NamesFromSlash(q[1..]);
    }
  }

  lemma NamesWithin(p: string, n: string, q: string)
    requires n != "" && '/' !in n && Follows(q)
    ensures Names(p + "/" + n + q) == Names(p) + [n] + Names(q)
  {
    NamesBefore(p + "/" + n, q);
    NamesAcross(p, n);
    OneName(n);
  }

  lemma NamesUp(p: string, n: string, q: string)
    requires n != "" && '/' !in n && Follows(q)
    ensures Names(p + "/" + n + "/.." + q) == Names(p) + [n, ".."] + Names(q)
  {
    var up := p + "/" + n;
    NamesWithin(up, "..", q);
    assert up + "/" + ".." == up + "/..";
    NamesAcross(p, n);
    OneName(n);
    assert Names(p) + [n] + [".."] == Names(p) + [n, ".."];
  }

  /** In the canonical form a directory and the two dots after it cancel, */
  lemma UpCancels(p: string, n: string, q: string)
    requires n != "" && '/' !in n && n != "." && n != ".." && Follows(q)
    ensures Canonical(p + "/" + n + "/.." + q) == Canonical(p + q)
  {
    NamesUp(p, n, q);
    NamesBefore(p, q);
    NameThenUp(Names(p), n, Names(q));
  }

  /** one dot counts for nothing, */
  lemma DotCancels(p: string, q: string)
    requires Follows(q)
    ensures Canonical(p + "/." + q) == Canonical(p + q)
  {
    NamesWithin(p, ".", q);
    NamesBefore(p, q);
    assert p + "/" + "." == p + "/.";
    DotLeftOut(Names(p), Names(q));
  }

  /** nor do two dots at the root, */
  lemma UpAtRootStays(q: string)
    requires Follows(q)
    ensures Canonical("/.." + q) == Canonical(q)
  {
    NamesWithin("", "..", q);
    assert "" + "/" + ".." == "/..";
    UpAtRoot(Names(q));
    assert [] + [".."] + Names(q) == [".."] + Names(q);
  }

  /** and slashes only separate. */
  lemma SlashesMerge(p: string, q: string)
    ensures Canonical(p + "//" + q) == Canonical(p + "/" + q)
  {
    NamesAcross(p, "/" + q);
    NamesFromSlash(q);
    NamesAcross(p, q);
    assert p + "/" + ("/" + q) == p + "//" + q;
  }

  /** Of more than 32 plain names the slow way keeps the first 32. */
  lemma {:induction false} DeepNamesDropped(stack: seq<string>, names: seq<string>)
    requires AllPlain(names) && |stack| <= 32
    ensures ResolveLimited(stack, names) == if |stack + names| <= 32 then stack + names else (stack + names)[..32]
    decreases |names|
  {
    if names == [] {
      assert stack + names == stack;
    } else {
      var all := stack + names;
      if |stack| < 32 {
        DeepNamesDropped(stack + [names[0]], names[1..]);
        assert stack + [names[0]] + names[1..] == all;
      } else {
        DeepNamesDropped(stack, names[1..]);
        assert all[..32] == stack == (stack + names[1..])[..32];
        if |names| == 1 {
          assert stack + names[1..] == stack;
        }
      }
    }
  }

  /** The slow way works on the path from the root, cut to 511 characters. */
  lemma BufferedIsCut(path: string, cwd: string)
    requires path != "" && |cwd| < 256
    ensures var whole := if path[0] == '/' then path else if cwd == "/" then "/" + path else cwd + "/" + path;
            Buffered(path, cwd) == if |whole| <= 511 then whole else whole[..511]
  {
    if path[0] != '/' {
      var base := if cwd == "/" then "/" else cwd + "/";
      CutBehind(base, path, 511 - |base|);
    }
  }

  lemma CutBehind(base: string, path: string, n: nat)
    ensures var whole := base + path;
            (|path| > n ==> whole[..|base| + n] == base + path[..n]) && (|path| <= n ==> path[..|path|] == path)
  {
  }
}
