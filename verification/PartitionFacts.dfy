// What New, Resize and Delete do to the table, in sectors.
module PartitionFacts {
  import opened Arithmetic
  import opened SizeInput
  import opened Partitions

  /** Whole units of 2048 sectors, as many as fit the size asked for, but at least one. */
  predicate Rounded(asked: int, count: int) {
    && count % 2048 == 0
    && (asked >= 2048 ==> count <= asked < count + 2048)
    && (0 < asked < 2048 ==> count == 2048)
  }

  lemma RoundedDown(n: nat)
    ensures Rounded(n, RoundSize(n))
    ensures forall count :: n > 0 && Rounded(n, count) ==> count == RoundSize(n)
  {
    assert n == 2048 * (n / 2048) + n % 2048;
    forall count | n > 0 && Rounded(n, count)
      ensures count == RoundSize(n)
    {
      OneMultiple(n, count, RoundSize(n));
    }
  }

  lemma OneMultiple(n: int, a: int, b: int)
    requires n > 0 && Rounded(n, a) && Rounded(n, b)
    ensures a == b
  {
    assert a == 2048 * (a / 2048) && b == 2048 * (b / 2048);
  }

  /** The partition made comes last with its first sector, the size asked for in whole MiB
      and type 83 on an MBR disk; the others stay as they are. */
  lemma MadeAsAsked(s: State, start: int, size: string, t: State)
    requires CreatedAt(s, start, size, t)
    ensures |t.ps| == |s.ps| + 1 && t.ps[..|s.ps|] == s.ps && t.sel == |s.ps| && t.sectors == s.sectors
    ensures var p := t.ps[|s.ps|];
            && p.valid && p.start == start && Rounded(ParseSize(size, FreeFrom(s, start)), p.count)
            && (!s.gpt ==> p.mbrType == 131)
  {
    RoundedDown(ParseSize(size, FreeFrom(s, start)));
    assert t.ps[..|s.ps|] == s.ps;
  }

  /** A partition resized has the size asked for in whole MiB, or all that is free when
      that is less; nothing else changes. */
  lemma ResizedAsAsked(s: State, size: string)
    requires 0 <= s.sel < |s.ps|
    ensures var t, max := Resized(s, size), FreeFrom(s, s.ps[s.sel].start);
            var asked := ParseSize(size, max);
            && |t.ps| == |s.ps| && t == s.(ps := t.ps)
            && (forall i :: 0 <= i < |s.ps| && i != s.sel ==> t.ps[i] == s.ps[i])
            && t.ps[s.sel] == s.ps[s.sel].(count := t.ps[s.sel].count)
            && (size == "" || asked == 0 ==> t == s)
            && (size != "" && asked > 0 ==>
                  if max < 2048 then t.ps[s.sel].count == max else Rounded(asked, t.ps[s.sel].count))
  {
    RoundedDown(ParseSize(size, FreeFrom(s, s.ps[s.sel].start)));
  }

  /** A size in K, M or G, of either case, is so many times 2, 2048 or 2097152 sectors. */
  lemma UnitSectors(n: nat, c: char, plus: bool, max: nat)
    requires c in {'K', 'k', 'M', 'm', 'G', 'g'} && max <= WORD / 512
    ensures var each := if c == 'K' || c == 'k' then 2 else if c == 'M' || c == 'm' then 2048 else 2097152;
            n * each < 36028797018963968 ==> ParseSize(Signed(plus, Decimal(n) + [c]), max) == Min(n * each, max)
  {
    UnitSize(n, c, plus, max);
    var each := if c == 'K' || c == 'k' then 2 else if c == 'M' || c == 'm' then 2048 else 2097152;
    assert UnitOf(c) == 512 * each;
    TimesSector(n, each);
  }

  lemma TimesSector(n: nat, each: nat)
    ensures n * (512 * each) == 512 * (n * each) && n * (512 * each) / 512 == n * each
  {
    assert n * (512 * each) == 512 * (n * each);
  }

  /** So on a disk with room for them a partition of n M or G has exactly that size. */
  lemma ExactUnits(s: State, start: int, n: nat, c: char, plus: bool, t: State)
    requires c in {'M', 'm', 'G', 'g'} && n > 0 && FreeFrom(s, start) <= WORD / 512
    requires var each := if c == 'M' || c == 'm' then 2048 else 2097152;
             n * each < 36028797018963968 && n * each <= FreeFrom(s, start)
    requires CreatedAt(s, start, Signed(plus, Decimal(n) + [c]), t)
    ensures t.ps[|s.ps|].count == n * if c == 'M' || c == 'm' then 2048 else 2097152
  {
    UnitSectors(n, c, plus, FreeFrom(s, start));
    var each := if c == 'M' || c == 'm' then 2048 else 2097152;
    WholeUnits(n, each / 2048, each);
    RoundedDown(n * each);
  }

  lemma WholeUnits(n: int, k: int, each: int)
    requires n > 0 && k > 0 && each == 2048 * k
    ensures n * each % 2048 == 0 && n * each >= 2048 && Rounded(n * each, n * each)
  {
    AtLeast(k, n);
    assert n * each == 2048 * (n * k);
  }

  /** Without the selected partition the others keep their order; the selection stays in
      the table as long as there is one. */
  lemma RemovedOnly(s: State, i: nat)
    requires 0 <= s.sel < |s.ps| && i < |s.ps|
    ensures var t := Removed(s);
            && |t.ps| == |s.ps| - 1 && t == s.(ps := t.ps, sel := t.sel) && (t.ps != [] ==> 0 <= t.sel < |t.ps|)
            && (i < s.sel ==> t.ps[i] == s.ps[i]) && (i > s.sel ==> t.ps[i - 1] == s.ps[i])
            && (s.sel < |s.ps| - 1 ==> t.sel == s.sel)
  {
  }

  /** On a GPT disk no well-placed partition reaches the last 34 sectors. */
  lemma OffTheBackup(ps: seq<Part>, sectors: int, i: nat)
    requires WellPlaced(ps, LimitOf(true, sectors)) && i < |ps| && sectors > 34
    ensures ps[i].start + ps[i].count <= sectors - 34
  {
  }

  /** The type goes to the field of the label's kind. */
  lemma RetypedOnly(s: State, kind: int)
    requires 0 <= s.sel < |s.ps|
    ensures var p, q := s.ps[s.sel], Retyped(s, kind).ps[s.sel];
            && (s.gpt ==> q.gptType == kind && q.mbrType == p.mbrType)
            && (!s.gpt ==> q.mbrType == kind && q.gptType == p.gptType)
            && q.start == p.start && q.count == p.count && q.number == p.number
    ensures forall i :: 0 <= i < |s.ps| && i != s.sel ==> Retyped(s, kind).ps[i] == s.ps[i]
  {
  }

  /** A table with partitions is not emptied without a yes, and is with one when the
      size of the disk is known. */
  lemma LabelAsks(s: State, gpt: bool, confirmed: bool, diskSize: int)
    requires s.ps != [] && s.sectors > 0
    ensures var t := Relabelled(s, gpt, confirmed, diskSize);
            if confirmed then t.ps == [] && t.gpt == gpt && t.sectors == s.sectors && t.sel == 0 else t == s
  {
  }

  /** Blanks and a sign may come first; a number with a minus sign counts back from 2^64. */
  lemma SignedNumber(blanks: string, n: nat, minus: bool)
    requires forall k :: 0 <= k < |blanks| ==> blanks[k] in {' ', '\t', '\n', '\r'}
    requires n < WORD
    ensures Strtoull(blanks + (if minus then "-" else "+") + Decimal(n)) ==
            if minus && n > 0 then WORD - n else n
  {
    var rest := (if minus then "-" else "+") + Decimal(n);
    assert blanks + (if minus then "-" else "+") + Decimal(n) == blanks + rest;
    BlanksSkipped(blanks, rest);
    assert rest[1..] == Decimal(n);
    DecimalRead(n);
  }

  lemma {:induction false} BlanksSkipped(blanks: string, rest: string)
    requires forall k :: 0 <= k < |blanks| ==> blanks[k] in {' ', '\t', '\n', '\r'}
    requires rest != "" && !IsBlank(rest[0])
    ensures SkipBlanks(blanks + rest) == rest
  {
    if blanks == "" {
      assert blanks + rest == rest;
    } else {
      assert (blanks + rest)[1..] == blanks[1..] + rest;
      BlanksSkipped(blanks[1..], rest);
    }
  }
}
