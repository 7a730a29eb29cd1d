// The .lpkg format: what a package file says, and reading it back.  A character stands
// for a byte.
module PackageFile {
  import opened Words

  const MAX_PATH: nat := 128
  const WORD: int := 0x1_0000_0000

  datatype Entry = Entry(path: string, content: string)

  /** Reading stops at the first fault; an Overrun is a length whose sum with the offset
      wraps in 32 bits and so passes the test, when those bytes are then read. */
  datatype Verdict = Complete | Rejected | Overrun

  datatype Package = Package(entries: seq<Entry>, verdict: Verdict)

  predicate AllBytes(data: string) {
    forall i :: 0 <= i < |data| ==> data[i] as int < 256
  }

  function Half(data: string, at: nat): (n: nat)
    requires at + 2 <= |data|
  {
    data[at] as int + 256 * data[at + 1] as int
  }

  function Whole(data: string, at: nat): (n: nat)
    requires at + 4 <= |data|
  {
    data[at] as int + 0x100 * data[at + 1] as int + 0x1_0000 * data[at + 2] as int + 0x100_0000 * data[at + 3] as int
  }

  datatype Step = Fault(verdict: Verdict) | Next(entry: Entry, off: nat)

  // The source's test that n bytes from an offset are there, in 32 bits.
  predicate Passes(data: string, off: nat, n: nat) {
    (off + n) % WORD <= |data|
  }

  predicate There(data: string, off: nat, n: nat) {
    off + n <= |data|
  }

  // What becomes of n bytes that are not there.
  function Missing(data: string, off: nat, n: nat): Step {
    Fault(if Passes(data, off, n) then Overrun else Rejected)
  }

  /** The entry at an offset and where the next one starts. */
  function EntryAt(data: string, off: nat): (s: Step)
    ensures s.Next? ==> s.off <= |data|
  {
    if !There(data, off, 2) then Missing(data, off, 2)
    else
      var length, name := Half(data, off), off + 2;
      if length == 0 || length >= MAX_PATH then Fault(Rejected)
      else if !There(data, name, length) then Missing(data, name, length)
      else BodyAt(data, name, name + length)
  }

  // The size and the contents after a path.  The contents of a relative path are not looked
  // at, so a size that wraps is passed over like any other, back to an earlier offset.
  function BodyAt(data: string, name: nat, field: nat): (s: Step)
    requires name < field <= |data|
    ensures s.Next? ==> s.off <= |data|
  {
    if !There(data, field, 4) then Missing(data, field, 4)
    else
      var size, body := Whole(data, field), field + 4;
      if There(data, body, size) then Next(Entry(data[name..field], data[body..body + size]), body + size)
      else if data[name] != '/' && Passes(data, body, size)
          then Next(Entry(data[name..field], []), (body + size) % WORD)
      else Missing(data, body, size)
  }

  /** Bytes up to `end` are asked for, are not there, and seem to be in 32 bits. */
  predicate WrapsPast(data: string, end: nat) {
    |data| < end && WORD <= end <= WORD + |data|
  }

  /** Where an entry starts, the reads leave the data: at its length, its path or its size
      only within 134 bytes of 2^32, and at the contents of an absolute path. */
  predicate LeavesAt(data: string, off: nat) {
    || WrapsPast(data, off + 2)
    || (off + 2 <= |data| && 1 <= Half(data, off) < MAX_PATH &&
        var field := off + 2 + Half(data, off);
        || WrapsPast(data, field)
        || (field <= |data| && WrapsPast(data, field + 4))
        || (field + 4 <= |data| && data[off + 2] == '/' && WrapsPast(data, field + 4 + Whole(data, field))))
  }

  lemma OverrunExactly(data: string, off: nat)
    requires AllBytes(data) && off <= |data| < WORD
    ensures EntryAt(data, off) == Fault(Overrun) <==> LeavesAt(data, off)
  {
    if off + 2 <= |data| && 1 <= Half(data, off) < MAX_PATH && off + 2 + Half(data, off) + 4 <= |data| {
      WholeBound(data, off + 2 + Half(data, off));
    }
  }

  lemma WholeBound(data: string, at: nat)
    requires AllBytes(data) && at + 4 <= |data|
    ensures Whole(data, at) < WORD
  {
  }

  /** The entries announced from an offset. */
  function Entries(data: string, off: nat, n: nat): Package
    decreases n
  {
    if n == 0 then Package([], Complete)
    else
      match EntryAt(data, off)
      case Fault(verdict) => Package([], verdict)
      case Next(entry, next) =>
        var rest := Entries(data, next, n - 1);
        Package([entry] + rest.entries, rest.verdict)
  }

  /** Where entry k starts, if the entries before it are read. */
  function StartOf(data: string, k: nat): (at: Option<nat>)
    ensures at.Some? && |data| >= 7 ==> at.value <= |data|
  {
    if k == 0 then Some(7)
    else
      match StartOf(data, k - 1)
      case None => None
      case Some(off) =>
        var step := EntryAt(data, off);
        if step.Next? then Some(step.off) else None
  }

  predicate OverrunsAt(data: string, k: nat) {
    StartOf(data, k).Some? && EntryAt(data, StartOf(data, k).value) == Fault(Overrun)
  }

  ghost predicate OverrunIn(data: string, from: nat, to: nat) {
    exists k: nat :: from <= k < to && OverrunsAt(data, k)
  }

  lemma {:induction false} StartsAgree(data: string, k: nat, off: nat, n: nat)
    requires StartOf(data, k) == Some(off)
    ensures Entries(data, off, n).verdict == Overrun <==> OverrunIn(data, k, k + n)
    decreases n, 1
  {
    if n == 0 {
      assert !OverrunIn(data, k, k);
    } else {
      OneStart(data, k, off);
      LaterStarts(data, k, off, n, EntryAt(data, off));
      ThisOrLater(data, k, off, n, EntryAt(data, off), OverrunIn(data, k + 1, k + n));
    }
  }

  lemma {:induction false} LaterStarts(data: string, k: nat, off: nat, n: nat, step: Step)
    requires n > 0 && step == EntryAt(data, off)
    requires StartOf(data, k + 1) == if step.Next? then Some(step.off) else None
    ensures OverrunIn(data, k + 1, k + n) <==> step.Next? && Entries(data, step.off, n - 1).verdict == Overrun
    decreases n, 0
  {
    if step.Next? {
      StartsAgree(data, k + 1, step.off, n - 1);
    } else {
      NoLaterStart(data, k + 1, k + n);
    }
  }

  lemma ThisOrLater(data: string, k: nat, off: nat, n: nat, step: Step, later: bool)
    requires n > 0 && step == EntryAt(data, off) && later == OverrunIn(data, k + 1, k + n)
    requires OverrunsAt(data, k) <==> step.Fault? && step.verdict == Overrun
    requires later <==> step.Next? && Entries(data, step.off, n - 1).verdict == Overrun
    ensures Entries(data, off, n).verdict == Overrun <==> OverrunIn(data, k, k + n)
  {
    FirstOrLater(data, k, k + n);
    EntriesFrom(data, off, n);
  }

  lemma EntriesFrom(data: string, off: nat, n: nat)
    requires n > 0
    ensures var step := EntryAt(data, off);
            Entries(data, off, n).verdict == if step.Next? then Entries(data, step.off, n - 1).verdict else step.verdict
  {
  }

  lemma FirstOrLater(data: string, from: nat, to: nat)
    requires from < to
    ensures OverrunIn(data, from, to) <==> OverrunsAt(data, from) || OverrunIn(data, from + 1, to)
  {
  }

  lemma OneStart(data: string, k: nat, off: nat)
    requires StartOf(data, k) == Some(off)
    ensures StartOf(data, k + 1) == if EntryAt(data, off).Next? then Some(EntryAt(data, off).off) else None
    ensures OverrunsAt(data, k) <==> EntryAt(data, off).Fault? && EntryAt(data, off).verdict == Overrun
  {
  }

  lemma {:induction false} NoLaterStart(data: string, k: nat, n: nat)
    requires StartOf(data, k) == None
    ensures !OverrunIn(data, k, n)
    decreases if k < n then n - k else 0
  {
    if k < n {
      assert StartOf(data, k + 1) == None;
      NoLaterStart(data, k + 1, n);
      FirstOrLater(data, k, n);
    }
  }

  /** The reads of a whole package leave it exactly when it is well marked and some entry
      it announces, reached through the ones before, leaves it. */
  lemma PackageOverruns(data: string)
    requires AllBytes(data) && |data| < WORD
    ensures PackageOf(data).verdict == Overrun <==>
            HasHeader(data) &&
            exists k: nat :: 0 <= k < Half(data, 5) && ReachedAndLeft(data, k)
  {
    if HasHeader(data) {
      StartsAgree(data, 0, 7, Half(data, 5));
      forall k: nat
        ensures OverrunsAt(data, k) <==> ReachedAndLeft(data, k)
      {
        if StartOf(data, k).Some? {
          OverrunExactly(data, StartOf(data, k).value);
        }
      }
    }
  }

  predicate ReachedAndLeft(data: string, k: nat) {
    StartOf(data, k).Some? && LeavesAt(data, StartOf(data, k).value)
  }

  predicate HasHeader(data: string) {
    |data| >= 7 && data[..4] == "LPKG" && data[4] as int == 1
  }

  function PackageOf(data: string): Package {
    if HasHeader(data) then Entries(data, 7, Half(data, 5)) else Package([], Rejected)
  }

  // ------------------------------------------------------------------
  // Well-formed packages
  // ------------------------------------------------------------------

  function PutHalf(n: nat): (s: string)
    requires n < 0x1_0000
    ensures |s| == 2
  {
    [(n % 256) as char, (n / 256) as char]
  }

  function PutWhole(n: nat): (s: string)
    requires n < 0x1_0000_0000
    ensures |s| == 4
  {
    [(n % 256) as char, (n / 0x100 % 256) as char, (n / 0x1_0000 % 256) as char, (n / 0x100_0000) as char]
  }

  ghost predicate Packable(e: Entry) {
    1 <= |e.path| < MAX_PATH && |e.content| < 0x1_0000_0000
  }

  function EncodeEntry(e: Entry): string
    requires Packable(e)
  {
    PutHalf(|e.path|) + e.path + PutWhole(|e.content|) + e.content
  }

  function EncodeEntries(es: seq<Entry>): string
    requires forall i :: 0 <= i < |es| ==> Packable(es[i])
  {
    if es == [] then [] else EncodeEntry(es[0]) + EncodeEntries(es[1..])
  }

  /** A package file. */
  function Encode(es: seq<Entry>): string
    requires |es| < 0x1_0000 && forall i :: 0 <= i < |es| ==> Packable(es[i])
  {
    "LPKG" + [1 as char] + PutHalf(|es|) + EncodeEntries(es)
  }

  lemma HalfBack(data: string, at: nat, n: nat)
    requires at + 2 <= |data| && n < 0x1_0000 && data[at..at + 2] == PutHalf(n)
    ensures Half(data, at) == n
  {
    assert data[at] == PutHalf(n)[0] && data[at + 1] == PutHalf(n)[1];
  }

  lemma WholeBack(data: string, at: nat, n: nat)
    requires at + 4 <= |data| && n < 0x1_0000_0000 && data[at..at + 4] == PutWhole(n)
    ensures Whole(data, at) == n
  {
    var d := PutWhole(n);
    assert data[at] == d[0] && data[at + 1] == d[1] && data[at + 2] == d[2] && data[at + 3] == d[3];
    FourDigits(n);
  }

  lemma FourDigits(n: nat)
    requires n < 0x1_0000_0000
    ensures n == n % 256 + 0x100 * (n / 0x100 % 256) + 0x1_0000 * (n / 0x1_0000 % 256) + 0x100_0000 * (n / 0x100_0000)
  {
  }

  lemma Pieces(data: string, off: nat, a: string, b: string, c: string, d: string, rest: string)
    requires off <= |data| && data[off..] == a + b + c + d + rest
    ensures var i, j, k, l := off + |a|, off + |a| + |b|, off + |a| + |b| + |c|, off + |a| + |b| + |c| + |d|;
            l <= |data| && data[off..i] == a && data[i..j] == b && data[j..k] == c && data[k..l] == d &&
                data[l..] == rest
  {
    assert a + b + c + d + rest == a + (b + (c + (d + rest)));
    Peel(data, off, a, b + (c + (d + rest)));
    Peel(data, off + |a|, b, c + (d + rest));
    Peel(data, off + |a| + |b|, c, d + rest);
    Peel(data, off + |a| + |b| + |c|, d, rest);
  }

  lemma Peel(data: string, off: nat, a: string, rest: string)
    requires off <= |data| && data[off..] == a + rest
    ensures off + |a| <= |data| && data[off..off + |a|] == a && data[off + |a|..] == rest
  {
    var t := data[off..];
    assert |t| == |data| - off;
    assert forall k :: 0 <= k < |a| ==> data[off + k] == t[k] == a[k];
    assert forall k :: 0 <= k < |rest| ==> data[off + |a| + k] == t[|a| + k] == rest[k];
  }

  /** One entry at the front of what is left. */
  lemma FirstEntry(data: string, off: nat, e: Entry, rest: string)
    requires Packable(e) && off <= |data| < WORD && data[off..] == EncodeEntry(e) + rest
    ensures EntryAt(data, off).Next? && EntryAt(data, off).entry == e && data[EntryAt(data, off).off..] == rest
  {
    var n, m := |e.path|, |e.content|;
    Pieces(data, off, PutHalf(n), e.path, PutWhole(m), e.content, rest);
    HalfBack(data, off, n);
    WholeBack(data, off + 2 + n, m);
  }

  /** Reading a package file back gives its entries, and finds no fault. */
  lemma {:induction false} EntriesReadBack(data: string, off: nat, es: seq<Entry>)
    requires (forall i :: 0 <= i < |es| ==> Packable(es[i])) && off <= |data| < WORD && data[off..] == EncodeEntries(es)
    ensures Entries(data, off, |es|) == Package(es, Complete)
    decreases |es|
  {
    if es != [] {
      FirstEntry(data, off, es[0], EncodeEntries(es[1..]));
      EntriesReadBack(data, EntryAt(data, off).off, es[1..]);
      assert [es[0]] + es[1..] == es;
    }
  }

  lemma PackageReadBack(es: seq<Entry>)
    requires |es| < 0x1_0000 && (forall i :: 0 <= i < |es| ==> Packable(es[i])) && |Encode(es)| < WORD
    ensures PackageOf(Encode(es)) == Package(es, Complete)
  {
    var data := Encode(es);
    assert data[..4] == "LPKG" && data[5..7] == PutHalf(|es|) && data[7..] == EncodeEntries(es);
    HalfBack(data, 5, |es|);
    EntriesReadBack(data, 7, es);
  }

  /** A package of 15 bytes announcing contents of 2^32 - 1 sends the reads past its end. */
  lemma WrappedSize(data: string)
    requires data == "LPKG" + [1 as char] + PutHalf(1) + (PutHalf(2) + "/a" + PutWhole(WORD - 1))
    ensures PackageOf(data) == Package([], Overrun)
  {
    assert data[..4] == "LPKG" && data[5..7] == PutHalf(1) && data[7..9] == PutHalf(2) &&
        data[11..15] == PutWhole(WORD - 1);
    HalfBack(data, 5, 1);
    HalfBack(data, 7, 2);
    WholeBack(data, 11, WORD - 1);
    assert BodyAt(data, 9, 11) == Fault(Overrun);
    assert EntryAt(data, 7) == Fault(Overrun);
  }

  /** The same size after a relative path leads 14 bytes back inside, and nothing is read
      outside: the package is whole, and installs nothing. */
  lemma WrappedSizeSkipped(data: string)
    requires data == "LPKG" + [1 as char] + PutHalf(1) + (PutHalf(1) + "a" + PutWhole(WORD - 1))
    ensures PackageOf(data) == Package([Entry("a", [])], Complete)
  {
    assert data[..4] == "LPKG" && data[5..7] == PutHalf(1) && data[7..9] == PutHalf(1) &&
        data[10..14] == PutWhole(WORD - 1);
    HalfBack(data, 5, 1);
    HalfBack(data, 7, 1);
    WholeBack(data, 10, WORD - 1);
    assert data[9..10] == "a" && data[9] == 'a';
    assert EntryAt(data, 7) == Next(Entry("a", []), 13);
    assert Entries(data, 13, 0) == Package([], Complete);
  }
}
