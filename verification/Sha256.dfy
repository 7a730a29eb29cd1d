// SHA-256: its functions and constants, words and bytes, and the driver.
module Sha256 {
  import opened Limbs
  import opened Bytes
  import opened HashDriver
  import opened Sha2

  type word = bv32

  // Eight round constants at a time.
  function Row(n: nat): (r: seq<word>)
    requires n < 8
    ensures |r| == 8
  {
    if n == 0 then [0x428a2f98, 0x71374491, 0xb5c0fbcf, 0xe9b5dba5,
                    0x3956c25b, 0x59f111f1, 0x923f82a4, 0xab1c5ed5]
    else if n == 1 then [0xd807aa98, 0x12835b01, 0x243185be, 0x550c7dc3,
                         0x72be5d74, 0x80deb1fe, 0x9bdc06a7, 0xc19bf174]
    else if n == 2 then [0xe49b69c1, 0xefbe4786, 0x0fc19dc6, 0x240ca1cc,
                         0x2de92c6f, 0x4a7484aa, 0x5cb0a9dc, 0x76f988da]
    else if n == 3 then [0x983e5152, 0xa831c66d, 0xb00327c8, 0xbf597fc7,
                         0xc6e00bf3, 0xd5a79147, 0x06ca6351, 0x14292967]
    else if n == 4 then [0x27b70a85, 0x2e1b2138, 0x4d2c6dfc, 0x53380d13,
                         0x650a7354, 0x766a0abb, 0x81c2c92e, 0x92722c85]
    else if n == 5 then [0xa2bfe8a1, 0xa81a664b, 0xc24b8b70, 0xc76c51a3,
                         0xd192e819, 0xd6990624, 0xf40e3585, 0x106aa070]
    else if n == 6 then [0x19a4c116, 0x1e376c08, 0x2748774c, 0x34b0bcb5,
                         0x391c0cb3, 0x4ed8aa4a, 0x5b9cca4f, 0x682e6ff3]
    else [0x748f82ee, 0x78a5636f, 0x84c87814, 0x8cc70208,
          0x90befffa, 0xa4506ceb, 0xbef9a3f7, 0xc67178f2]
  }

  /** The round constants (section 4.2.2 of FIPS 180-4). */
  function K(): (k: seq<word>)
    ensures |k| == 64
  {
    seq(64, i requires 0 <= i < 64 => Row(i / 8)[i % 8])
  }

  /** The initial hash value (section 5.3.3). */
  function Initial(): Regs<word> {
    Regs(0x6a09e667, 0xbb67ae85, 0x3c6ef372, 0xa54ff53a, 0x510e527f, 0x9b05688c, 0x1f83d9ab, 0x5be0cd19)
  }

  function Rotated(x: word, n: word): word
    requires 0 < n < 32
  {
    (x >> n) | (x << (32 - n))
  }

  // The functions of section 4.1.2.

  function Sum0(x: word): word {
    Rotated(x, 2) ^ Rotated(x, 13) ^ Rotated(x, 22)
  }

  function Sum1(x: word): word {
    Rotated(x, 6) ^ Rotated(x, 11) ^ Rotated(x, 25)
  }

  function Mix0(x: word): word {
    Rotated(x, 7) ^ Rotated(x, 18) ^ (x >> 3)
  }

  function Mix1(x: word): word {
    Rotated(x, 17) ^ Rotated(x, 19) ^ (x >> 10)
  }

  function Ch(x: word, y: word, z: word): word {
    (x & y) ^ (!x & z)
  }

  function Maj(x: word, y: word, z: word): word {
    (x & y) ^ (x & z) ^ (y & z)
  }

  function Add(x: word, y: word): word {
    x + y
  }

  function AddFour(x: word, y: word, z: word, u: word): word {
    x + y + z + u
  }

  function Functions(k: seq<word>): (kit: Kit<word>)
    ensures kit.k == k
  {
    Kit(Add, AddFour, Sum0, Sum1, Mix0, Mix1, Ch, Maj, k)
  }

  /** Adding the words of the schedule from either end is the same. */
  lemma OrderOfSum(x: word, y: word, z: word, u: word)
    ensures AddFour(x, y, z, u) == AddFour(u, z, y, x)
  {
  }

  lemma ScheduleReorders(k: seq<word>)
    ensures Reorders(Functions(k))
  {
    forall x: word, y: word, z: word, u: word
      ensures Functions(k).four(x, y, z, u) == Functions(k).four(u, z, y, x)
    {
      OrderOfSum(x, y, z, u);
    }
  }

  // ------------------------------------------------------------------
  // Words and bytes
  // ------------------------------------------------------------------

  /** The number four bytes are, most significant first. */
  function FromBytes(a: bv8, b: bv8, c: bv8, d: bv8): word {
    (((a as word) * 256 + (b as word)) * 256 + (c as word)) * 256 + (d as word)
  }

  function Word(s: seq<byte>, at: nat): word
    requires at + 4 <= |s|
  {
    FromBytes(s[at] as bv8, s[at + 1] as bv8, s[at + 2] as bv8, s[at + 3] as bv8)
  }

  function Words(block: seq<byte>): (m: seq<word>)
    requires |block| == 64
    ensures |m| == 16
  {
    seq(16, i requires 0 <= i < 16 => Word(block, 4 * i))
  }

  function ToByte(v: bv8): byte {
    v as int as byte
  }

  lemma ByteBack(v: bv8)
    ensures ToByte(v) as bv8 == v
  {
  }

  // Four bytes shifted into place.
  method ReadWord(block: seq<byte>, at: nat) returns (w: word)
    requires at + 4 <= |block|
    ensures w == Word(block, at)
  {
    var a, b, c, d := block[at] as bv8, block[at + 1] as bv8, block[at + 2] as bv8, block[at + 3] as bv8;
    w := ((a as word) << 24) | ((b as word) << 16) | ((c as word) << 8) | (d as word);
    FourBytes(a, b, c, d);
  }

  lemma FourBytes(a: bv8, b: bv8, c: bv8, d: bv8)
    ensures ((a as word) << 24) | ((b as word) << 16) | ((c as word) << 8) | (d as word) == FromBytes(a, b, c, d)
  {
  }

  method ReadWords(block: seq<byte>) returns (m: seq<word>)
    requires |block| == 64
    ensures m == Words(block)
  {
    m := [];
    for i := 0 to 16
      invariant |m| == i && forall j :: 0 <= j < i ==> m[j] == Word(block, 4 * j)
    {
      var w := ReadWord(block, 4 * i);
      m := m + [w];
    }
  }

  function LowByte(x: word): bv8 {
    (x & 0xFF) as bv8
  }

  lemma BytesOf(x: word)
    ensures FromBytes(LowByte(x >> 24), LowByte(x >> 16), LowByte(x >> 8), LowByte(x)) == x
  {
  }

  method PutWord(out: array<byte>, at: nat, x: word)
    requires at + 4 <= out.Length
    modifies out
    ensures Word(out[..], at) == x
    ensures forall k :: 0 <= k < out.Length && !(at <= k < at + 4) ==> out[k] == old(out[k])
  {
    out[at] := ToByte(LowByte(x >> 24));
    out[at + 1] := ToByte(LowByte(x >> 16));
    out[at + 2] := ToByte(LowByte(x >> 8));
    out[at + 3] := ToByte(LowByte(x));
    ByteBack(LowByte(x >> 24));
    ByteBack(LowByte(x >> 16));
    ByteBack(LowByte(x >> 8));
    ByteBack(LowByte(x));
    BytesOf(x);
  }

  /** The words of a state, most significant byte first. */
  predicate IsDigest(out: seq<byte>, r: Regs<word>) {
    && |out| == 32
    && Word(out, 0) == r.a && Word(out, 4) == r.b && Word(out, 8) == r.c && Word(out, 12) == r.d
    && Word(out, 16) == r.e && Word(out, 20) == r.f && Word(out, 24) == r.g && Word(out, 28) == r.h
  }

  method PutState(out: array<byte>, state: array<word>)
    requires out.Length == 32 && state.Length == 8
    modifies out
    ensures IsDigest(out[..], RegsOf(state[..]))
  {
    ghost var words := state[..];
    for i := 0 to 8
      invariant state[..] == words
      invariant forall j :: 0 <= j < i ==> Word(out[..], 4 * j) == words[j]
    {
      ghost var before := out[..];
      PutWord(out, 4 * i, state[i]);
      forall j | 0 <= j < i
        ensures Word(out[..], 4 * j) == words[j]
      {
        SameWord(before, out[..], 4 * j);
      }
    }
    EightWords(out[..], words);
  }

  lemma SameWord(s: seq<byte>, t: seq<byte>, at: nat)
    requires at + 4 <= |s| == |t| && forall k :: at <= k < at + 4 ==> s[k] == t[k]
    ensures Word(s, at) == Word(t, at)
  {
  }

  lemma EightWords(out: seq<byte>, words: seq<word>)
    requires |out| == 32 && |words| == 8 && forall j :: 0 <= j < 8 ==> Word(out, 4 * j) == words[j]
    ensures IsDigest(out, RegsOf(words))
  {
    assert Word(out, 4 * 0) == words[0] && Word(out, 4 * 1) == words[1] && Word(out, 4 * 2) == words[2];
    assert Word(out, 4 * 3) == words[3] && Word(out, 4 * 4) == words[4] && Word(out, 4 * 5) == words[5];
    assert Word(out, 4 * 6) == words[6] && Word(out, 4 * 7) == words[7];
  }

  // ------------------------------------------------------------------
  // The driver
  // ------------------------------------------------------------------

  /** What one block does to the state. */
  function Step(k: seq<word>): (Regs<word>, seq<byte>) -> Regs<word> {
    (r: Regs<word>, block: seq<byte>) => if |block| == 64 then Compress(Functions(k), r, Words(block)) else r
  }

  ghost predicate Asked(r: Regs<word>, block: seq<byte>) {
    |block| == 64
  }

  /** f is that step.  The loops below only pass it on. */
  ghost predicate IsStep(f: (Regs<word>, seq<byte>) -> Regs<word>, k: seq<word>) {
    |k| >= 16 && forall r, block {:trigger Asked(r, block)} :: Asked(r, block) ==>
        f(r, block) == Compress(Functions(k), r, Words(block))
  }

  lemma StepIsStep(k: seq<word>)
    requires |k| >= 16
    ensures IsStep(Step(k), k)
  {
  }

  method ProcessBlock(state: array<word>, block: seq<byte>, k: seq<word>,
                      ghost f: (Regs<word>, seq<byte>) -> Regs<word>)
    requires state.Length == 8 && |block| == 64 && IsStep(f, k)
    modifies state
    ensures RegsOf(state[..]) == f(RegsOf(old(state[..])), block)
  {
    assert Asked(RegsOf(state[..]), block);
    var m := ReadWords(block);
    ScheduleReorders(k);
    AddBlock(Functions(k), state, m);
  }

  // Block after block while a whole one is left.
  method WholeBlocks(state: array<word>, data: array<byte>, k: seq<word>,
                     ghost f: (Regs<word>, seq<byte>) -> Regs<word>)
    requires state.Length == 8 && IsStep(f, k)
    modifies state
    ensures RegsOf(state[..]) == Iterate(RegsOf(old(state[..])), data[..], data.Length - data.Length % 64, 64, f)
  {
    ghost var init := RegsOf(state[..]);
    for i := 0 to data.Length / 64
      invariant RegsOf(state[..]) == Iterate(init, data[..], 64 * i, 64, f)
    {
      var from := 64 * i;
      NextBlock(data[..], init, from, 64, f);
      ProcessBlock(state, data[from..from + 64], k, f);
    }
  }

  // The rest of the message, padded, in one block,
  method LastBlock(state: array<word>, data: array<byte>, k: seq<word>, ghost init: Regs<word>,
                   ghost f: (Regs<word>, seq<byte>) -> Regs<word>)
    requires state.Length == 8 && data.Length < 0x2000_0000_0000_0000 && IsStep(f, k) && state as object != data
    requires RegsOf(state[..]) == Iterate(init, data[..], data.Length - data.Length % 64, 64, f)
    requires data.Length % 64 + 1 + 8 <= 64
    modifies state
    ensures RegsOf(state[..]) == Hash(init, data[..], 64, 8, f)
  {
    ghost var m, tail := data[..], data.Length % 64;
    var block := new byte[64](_ => 0);
    StartTail(block, data);
    PutLength(block, data.Length * 8);
    OneTailBlock(init, m, tail, 64, 8, block[..], f);
    ProcessBlock(state, block[..], k, f);
    assert data[..] == m;
  }

  // or in two,
  method LastTwo(state: array<word>, data: array<byte>, k: seq<word>, ghost init: Regs<word>,
                 ghost f: (Regs<word>, seq<byte>) -> Regs<word>)
    requires state.Length == 8 && data.Length < 0x2000_0000_0000_0000 && IsStep(f, k) && state as object != data
    requires RegsOf(state[..]) == Iterate(init, data[..], data.Length - data.Length % 64, 64, f)
    requires data.Length % 64 + 1 + 8 > 64
    modifies state
    ensures RegsOf(state[..]) == Hash(init, data[..], 64, 8, f)
  {
    ghost var m, tail := data[..], data.Length % 64;
    var block := new byte[64](_ => 0);
    StartTail(block, data);
    ghost var one := block[..];
    ProcessBlock(state, block[..], k, f);
    Clear(block, 0, 64);
    PutLength(block, data.Length * 8);
    TwoTailBlocks(init, m, tail, 64, 8, one, block[..], f);
    ProcessBlock(state, block[..], k, f);
    assert data[..] == m;
  }

  // as it fits.
  method LastBlocks(state: array<word>, data: array<byte>, k: seq<word>, ghost init: Regs<word>,
                    ghost f: (Regs<word>, seq<byte>) -> Regs<word>)
    requires state.Length == 8 && data.Length < 0x2000_0000_0000_0000 && IsStep(f, k) && state as object != data
    requires RegsOf(state[..]) == Iterate(init, data[..], data.Length - data.Length % 64, 64, f)
    modifies state
    ensures RegsOf(state[..]) == Hash(init, data[..], 64, 8, f)
  {
    if data.Length % 64 >= 56 {
      LastTwo(state, data, k, init, f);
    } else {
      LastBlock(state, data, k, init, f);
    }
  }

  /** The digest of section 6.2 of FIPS 180-4: the words of the hash of the padded
      message. */
  method Digest(data: array<byte>, out: array<byte>)
    requires out.Length == 32 && data.Length < 0x2000_0000_0000_0000
    modifies out
    ensures IsDigest(out[..], Hash(Initial(), old(data[..]), 64, 8, Step(K())))
  {
    var state := new word[8];
    SetInitial(state);
    var k := K();
    StepIsStep(k);
    WholeBlocks(state, data, k, Step(k));
    LastBlocks(state, data, k, Initial(), Step(k));
    PutState(out, state);
  }

  method SetInitial(state: array<word>)
    requires state.Length == 8
    modifies state
    ensures RegsOf(state[..]) == Initial()
  {
    var r := Initial();
    state[0], state[1], state[2], state[3] := r.a, r.b, r.c, r.d;
    state[4], state[5], state[6], state[7] := r.e, r.f, r.g, r.h;
  }
}
