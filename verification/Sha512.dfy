// SHA-512: its functions and constants, words and bytes, and the driver.
module Sha512 {
  import opened Limbs
  import opened Bytes
  import opened HashDriver
  import opened Sha2

  type word = bv64

  // Eight round constants at a time.
  function Row(n: nat): (r: seq<word>)
    requires n < 10
    ensures |r| == 8
  {
    if n == 0 then
      [0x428a2f98d728ae22, 0x7137449123ef65cd, 0xb5c0fbcfec4d3b2f, 0xe9b5dba58189dbbc,
       0x3956c25bf348b538, 0x59f111f1b605d019, 0x923f82a4af194f9b, 0xab1c5ed5da6d8118]
    else if n == 1 then
      [0xd807aa98a3030242, 0x12835b0145706fbe, 0x243185be4ee4b28c, 0x550c7dc3d5ffb4e2,
       0x72be5d74f27b896f, 0x80deb1fe3b1696b1, 0x9bdc06a725c71235, 0xc19bf174cf692694]
    else if n == 2 then
      [0xe49b69c19ef14ad2, 0xefbe4786384f25e3, 0x0fc19dc68b8cd5b5, 0x240ca1cc77ac9c65,
       0x2de92c6f592b0275, 0x4a7484aa6ea6e483, 0x5cb0a9dcbd41fbd4, 0x76f988da831153b5]
    else if n == 3 then
      [0x983e5152ee66dfab, 0xa831c66d2db43210, 0xb00327c898fb213f, 0xbf597fc7beef0ee4,
       0xc6e00bf33da88fc2, 0xd5a79147930aa725, 0x06ca6351e003826f, 0x142929670a0e6e70]
    else if n == 4 then
      [0x27b70a8546d22ffc, 0x2e1b21385c26c926, 0x4d2c6dfc5ac42aed, 0x53380d139d95b3df,
       0x650a73548baf63de, 0x766a0abb3c77b2a8, 0x81c2c92e47edaee6, 0x92722c851482353b]
    else if n == 5 then
      [0xa2bfe8a14cf10364, 0xa81a664bbc423001, 0xc24b8b70d0f89791, 0xc76c51a30654be30,
       0xd192e819d6ef5218, 0xd69906245565a910, 0xf40e35855771202a, 0x106aa07032bbd1b8]
    else if n == 6 then
      [0x19a4c116b8d2d0c8, 0x1e376c085141ab53, 0x2748774cdf8eeb99, 0x34b0bcb5e19b48a8,
       0x391c0cb3c5c95a63, 0x4ed8aa4ae3418acb, 0x5b9cca4f7763e373, 0x682e6ff3d6b2b8a3]
    else if n == 7 then
      [0x748f82ee5defb2fc, 0x78a5636f43172f60, 0x84c87814a1f0ab72, 0x8cc702081a6439ec,
       0x90befffa23631e28, 0xa4506cebde82bde9, 0xbef9a3f7b2c67915, 0xc67178f2e372532b]
    else if n == 8 then
      [0xca273eceea26619c, 0xd186b8c721c0c207, 0xeada7dd6cde0eb1e, 0xf57d4f7fee6ed178,
       0x06f067aa72176fba, 0x0a637dc5a2c898a6, 0x113f9804bef90dae, 0x1b710b35131c471b]
    else
      [0x28db77f523047d84, 0x32caab7b40c72493, 0x3c9ebe0a15c9bebc, 0x431d67c49c100d4c,
       0x4cc5d4becb3e42b6, 0x597f299cfc657e2a, 0x5fcb6fab3ad6faec, 0x6c44198c4a475817]
  }

  /** The round constants (section 4.2.3 of FIPS 180-4). */
  function K(): (k: seq<word>)
    ensures |k| == 80
  {
    seq(80, i requires 0 <= i < 80 => Row(i / 8)[i % 8])
  }

  /** The initial hash value (section 5.3.5). */
  function Initial(): Regs<word> {
    Regs(0x6a09e667f3bcc908, 0xbb67ae8584caa73b, 0x3c6ef372fe94f82b, 0xa54ff53a5f1d36f1,
         0x510e527fade682d1, 0x9b05688c2b3e6c1f, 0x1f83d9abfb41bd6b, 0x5be0cd19137e2179)
  }

  function Rotated(x: word, n: word): word
    requires 0 < n < 64
  {
    (x >> n) | (x << (64 - n))
  }

  // The functions of section 4.1.3.

  function Sum0(x: word): word {
    Rotated(x, 28) ^ Rotated(x, 34) ^ Rotated(x, 39)
  }

  function Sum1(x: word): word {
    Rotated(x, 14) ^ Rotated(x, 18) ^ Rotated(x, 41)
  }

  function Mix0(x: word): word {
    Rotated(x, 1) ^ Rotated(x, 8) ^ (x >> 7)
  }

  function Mix1(x: word): word {
    Rotated(x, 19) ^ Rotated(x, 61) ^ (x >> 6)
  }

  function Ch(x: word, y: word, z: word): word {
    (x & y) ^ (!x & z)
  }

  function Maj(x: word, y: word, z: word): word {
    (x & y) ^ (x & z) ^ (y & z)
  }

  function Add(x: word, y: word): word {
    x + y
  }

  function AddFour(x: word, y: word, z: word, u: word): word {
    x + y + z + u
  }

  function Functions(k: seq<word>): (kit: Kit<word>)
    ensures kit.k == k
  {
    Kit(Add, AddFour, Sum0, Sum1, Mix0, Mix1, Ch, Maj, k)
  }

  /** Adding the words of the schedule from either end is the same. */
  lemma OrderOfSum(x: word, y: word, z: word, u: word)
    ensures AddFour(x, y, z, u) == AddFour(u, z, y, x)
  {
  }

  lemma ScheduleReorders(k: seq<word>)
    ensures Reorders(Functions(k))
  {
    forall x: word, y: word, z: word, u: word
      ensures Functions(k).four(x, y, z, u) == Functions(k).four(u, z, y, x)
    {
      OrderOfSum(x, y, z, u);
    }
  }

  // ------------------------------------------------------------------
  // Words and bytes
  // ------------------------------------------------------------------

  /** The number n bytes from an offset are, most significant first. */
  function FromBytes(s: seq<byte>, at: nat, n: nat): word
    requires at + n <= |s|
  {
    if n == 0 then 0 else FromBytes(s, at, n - 1) * 256 + (s[at + n - 1] as bv8 as word)
  }

  lemma {:induction false} SameBytes(s: seq<byte>, t: seq<byte>, at: nat, n: nat)
    requires at + n <= |s| == |t| && forall k :: at <= k < at + n ==> s[k] == t[k]
    ensures FromBytes(s, at, n) == FromBytes(t, at, n)
  {
    if n > 0 {
      SameBytes(s, t, at, n - 1);
    }
  }

  function Word(s: seq<byte>, at: nat): word
    requires at + 8 <= |s|
  {
    FromBytes(s, at, 8)
  }

  function Words(block: seq<byte>): (m: seq<word>)
    requires |block| == 128
    ensures |m| == 16
  {
    seq(16, i requires 0 <= i < 16 => Word(block, 8 * i))
  }

  function ToByte(v: bv8): byte {
    v as int as byte
  }

  lemma ByteBack(v: bv8)
    ensures ToByte(v) as bv8 == v
  {
  }

  // Byte after byte shifted in.
  method ReadWord(block: seq<byte>, at: nat) returns (w: word)
    requires at + 8 <= |block|
    ensures w == Word(block, at)
  {
    w := 0;
    for k := 0 to 8
      invariant w == FromBytes(block, at, k)
    {
      ShiftedIn(w, block[at + k] as bv8);
      w := (w << 8) | (block[at + k] as bv8 as word);
    }
  }

  lemma ShiftedIn(w: word, b: bv8)
    ensures (w << 8) | (b as word) == w * 256 + (b as word)
  {
  }

  method ReadWords(block: seq<byte>) returns (m: seq<word>)
    requires |block| == 128
    ensures m == Words(block)
  {
    m := [];
    for i := 0 to 16
      invariant |m| == i && forall j :: 0 <= j < i ==> m[j] == Word(block, 8 * j)
    {
      var w := ReadWord(block, 8 * i);
      m := m + [w];
    }
  }

  function LowByte(x: word): bv8 {
    (x & 0xFF) as bv8
  }

  // The first n bytes of a word are the word without its low bytes.
  lemma NextDigit(x: word, n: word)
    requires n < 8
    ensures Prefix(x, n + 1) == Prefix(x, n) * 256 + (LowByte(x >> (56 - 8 * n)) as word)
    ensures Prefix(x, 0) == 0 && Prefix(x, 8) == x
  {
  }

  function Prefix(x: word, n: word): word
    requires n <= 8
  {
    if n == 0 then 0 else x >> (64 - 8 * n)
  }

  method PutWord(out: array<byte>, at: nat, x: word)
    requires at + 8 <= out.Length
    modifies out
    ensures Word(out[..], at) == x
    ensures forall k :: 0 <= k < out.Length && !(at <= k < at + 8) ==> out[k] == old(out[k])
  {
    ghost var before := out[..];
    var n: word := 0;
    for i := 0 to 8
      invariant n <= 8 && n as int == i
      invariant forall k :: 0 <= k < out.Length && !(at <= k < at + i) ==> out[k] == before[k]
      invariant FromBytes(out[..], at, i) == Prefix(x, n)
    {
      PutByte(out, at, i, n, x);
      n := n + 1;
    }
    NextDigit(x, 7);
  }

  method PutByte(out: array<byte>, at: nat, i: nat, n: word, x: word)
    requires i < 8 && n < 8 && at + i < out.Length && FromBytes(out[..], at, i) == Prefix(x, n)
    modifies out
    ensures forall k :: 0 <= k < out.Length && k != at + i ==> out[k] == old(out[k])
    ensures FromBytes(out[..], at, i + 1) == Prefix(x, n + 1)
  {
    ghost var before := out[..];
    out[at + i] := ToByte(LowByte(x >> (56 - 8 * n)));
    ByteBack(LowByte(x >> (56 - 8 * n)));
    SameBytes(before, out[..], at, i);
    NextDigit(x, n);
  }

  /** The words of a state, most significant byte first. */
  predicate IsDigest(out: seq<byte>, r: Regs<word>) {
    && |out| == 64
    && Word(out, 0) == r.a && Word(out, 8) == r.b && Word(out, 16) == r.c && Word(out, 24) == r.d
    && Word(out, 32) == r.e && Word(out, 40) == r.f && Word(out, 48) == r.g && Word(out, 56) == r.h
  }

  method PutState(out: array<byte>, state: array<word>)
    requires out.Length == 64 && state.Length == 8
    modifies out
    ensures IsDigest(out[..], RegsOf(state[..]))
  {
    ghost var words := state[..];
    for i := 0 to 8
      invariant state[..] == words
      invariant forall j :: 0 <= j < i ==> Word(out[..], 8 * j) == words[j]
    {
      ghost var before := out[..];
      PutWord(out, 8 * i, state[i]);
      forall j | 0 <= j < i
        ensures Word(out[..], 8 * j) == words[j]
      {
        SameWord(before, out[..], 8 * j);
      }
    }
    EightWords(out[..], words);
  }

  lemma SameWord(s: seq<byte>, t: seq<byte>, at: nat)
    requires at + 8 <= |s| == |t| && forall k :: at <= k < at + 8 ==> s[k] == t[k]
    ensures Word(s, at) == Word(t, at)
  {
    SameBytes(s, t, at, 8);
  }

  lemma EightWords(out: seq<byte>, words: seq<word>)
    requires |out| == 64 && |words| == 8 && forall j :: 0 <= j < 8 ==> Word(out, 8 * j) == words[j]
    ensures IsDigest(out, RegsOf(words))
  {
    assert Word(out, 8 * 0) == words[0] && Word(out, 8 * 1) == words[1] && Word(out, 8 * 2) == words[2];
    assert Word(out, 8 * 3) == words[3] && Word(out, 8 * 4) == words[4] && Word(out, 8 * 5) == words[5];
    assert Word(out, 8 * 6) == words[6] && Word(out, 8 * 7) == words[7];
  }

  // ------------------------------------------------------------------
  // The driver
  // ------------------------------------------------------------------

  /** What one block does to the state. */
  function Step(k: seq<word>): (Regs<word>, seq<byte>) -> Regs<word> {
    (r: Regs<word>, block: seq<byte>) => if |block| == 128 then Compress(Functions(k), r, Words(block)) else r
  }

  ghost predicate Asked(r: Regs<word>, block: seq<byte>) {
    |block| == 128
  }

  /** f is that step.  The loops below only pass it on. */
  ghost predicate IsStep(f: (Regs<word>, seq<byte>) -> Regs<word>, k: seq<word>) {
    |k| >= 16 && forall r, block {:trigger Asked(r, block)} :: Asked(r, block) ==>
        f(r, block) == Compress(Functions(k), r, Words(block))
  }

  lemma StepIsStep(k: seq<word>)
    requires |k| >= 16
    ensures IsStep(Step(k), k)
  {
  }

  method ProcessBlock(state: array<word>, block: seq<byte>, k: seq<word>,
                      ghost f: (Regs<word>, seq<byte>) -> Regs<word>)
    requires state.Length == 8 && |block| == 128 && IsStep(f, k)
    modifies state
    ensures RegsOf(state[..]) == f(RegsOf(old(state[..])), block)
  {
    assert Asked(RegsOf(state[..]), block);
    var m := ReadWords(block);
    ScheduleReorders(k);
    AddBlock(Functions(k), state, m);
  }

  // Block after block while a whole one is left.
  method WholeBlocks(state: array<word>, data: array<byte>, k: seq<word>,
                     ghost f: (Regs<word>, seq<byte>) -> Regs<word>)
    requires state.Length == 8 && IsStep(f, k)
    modifies state
    ensures RegsOf(state[..]) == Iterate(RegsOf(old(state[..])), data[..], data.Length - data.Length % 128, 128, f)
  {
    ghost var init := RegsOf(state[..]);
    for i := 0 to data.Length / 128
      invariant RegsOf(state[..]) == Iterate(init, data[..], 128 * i, 128, f)
    {
      var from := 128 * i;
      NextBlock(data[..], init, from, 128, f);
      ProcessBlock(state, data[from..from + 128], k, f);
    }
  }

  // The rest of the message, padded, in one block,
  method LastBlock(state: array<word>, data: array<byte>, k: seq<word>, ghost init: Regs<word>,
                   ghost f: (Regs<word>, seq<byte>) -> Regs<word>)
    requires state.Length == 8 && data.Length < 0x2000_0000_0000_0000 && IsStep(f, k) && state as object != data
    requires RegsOf(state[..]) == Iterate(init, data[..], data.Length - data.Length % 128, 128, f)
    requires data.Length % 128 + 1 + 16 <= 128
    modifies state
    ensures RegsOf(state[..]) == Hash(init, data[..], 128, 16, f)
  {
    ghost var m, tail := data[..], data.Length % 128;
    var block := new byte[128](_ => 0);
    StartTail(block, data);
    PutLength(block, data.Length * 8);
    LongLength(8 * |m|);
    OneTailBlock(init, m, tail, 128, 16, block[..], f);
    ProcessBlock(state, block[..], k, f);
    assert data[..] == m;
  }

  // or in two,
  method LastTwo(state: array<word>, data: array<byte>, k: seq<word>, ghost init: Regs<word>,
                 ghost f: (Regs<word>, seq<byte>) -> Regs<word>)
    requires state.Length == 8 && data.Length < 0x2000_0000_0000_0000 && IsStep(f, k) && state as object != data
    requires RegsOf(state[..]) == Iterate(init, data[..], data.Length - data.Length % 128, 128, f)
    requires data.Length % 128 + 1 + 16 > 128
    modifies state
    ensures RegsOf(state[..]) == Hash(init, data[..], 128, 16, f)
  {
    ghost var m, tail := data[..], data.Length % 128;
    var block := new byte[128](_ => 0);
    StartTail(block, data);
    ghost var one := block[..];
    ProcessBlock(state, block[..], k, f);
    Clear(block, 0, 120);
    PutLength(block, data.Length * 8);
    LongLength(8 * |m|);
    TwoTailBlocks(init, m, tail, 128, 16, one, block[..], f);
    ProcessBlock(state, block[..], k, f);
    assert data[..] == m;
  }

  // as it fits.
  method LastBlocks(state: array<word>, data: array<byte>, k: seq<word>, ghost init: Regs<word>,
                    ghost f: (Regs<word>, seq<byte>) -> Regs<word>)
    requires state.Length == 8 && data.Length < 0x2000_0000_0000_0000 && IsStep(f, k) && state as object != data
    requires RegsOf(state[..]) == Iterate(init, data[..], data.Length - data.Length % 128, 128, f)
    modifies state
    ensures RegsOf(state[..]) == Hash(init, data[..], 128, 16, f)
  {
    if data.Length % 128 + 1 > 112 {
      LastTwo(state, data, k, init, f);
    } else {
      LastBlock(state, data, k, init, f);
    }
  }

  /** The digest of section 6.4 of FIPS 180-4: the words of the hash of the padded
      message. */
  method Digest(data: array<byte>, out: array<byte>)
    requires out.Length == 64 && data.Length < 0x2000_0000_0000_0000
    modifies out
    ensures IsDigest(out[..], Hash(Initial(), old(data[..]), 128, 16, Step(K())))
  {
    var state := new word[8];
    SetInitial(state);
    var k := K();
    StepIsStep(k);
    WholeBlocks(state, data, k, Step(k));
    LastBlocks(state, data, k, Initial(), Step(k));
    PutState(out, state);
  }

  method SetInitial(state: array<word>)
    requires state.Length == 8
    modifies state
    ensures RegsOf(state[..]) == Initial()
  {
    var r := Initial();
    state[0], state[1], state[2], state[3] := r.a, r.b, r.c, r.d;
    state[4], state[5], state[6], state[7] := r.e, r.f, r.g, r.h;
  }
}
