// The block step the two hashes share, on words of 32 or 64 bits: sections 6.2.2 and
// 6.4.2 of FIPS 180-4, and the loops that compute it.
module Sha2 {

  /** The standard's functions of a word size, its addition of two and of four words, and its
      round constants. */
  datatype Kit<!W> = Kit(add: (W, W) -> W, four: (W, W, W, W) -> W,
                         sum0: W -> W, sum1: W -> W, mix0: W -> W, mix1: W -> W,
                         ch: (W, W, W) -> W, maj: (W, W, W) -> W, k: seq<W>)

  datatype Regs<W> = Regs(a: W, b: W, c: W, d: W, e: W, f: W, g: W, h: W)

  // ------------------------------------------------------------------
  // The standard
  // ------------------------------------------------------------------

  /** Word t of the message schedule. */
  function Schedule<W>(kit: Kit<W>, m: seq<W>, t: nat): W
    requires |m| == 16
  {
    if t < 16 then m[t]
    else kit.four(kit.mix1(Schedule(kit, m, t - 2)), Schedule(kit, m, t - 7),
                  kit.mix0(Schedule(kit, m, t - 15)), Schedule(kit, m, t - 16))
  }

  /** Four words add to the same from either end; the loop below starts at the other one. */
  ghost predicate Reorders<W(!new)>(kit: Kit<W>) {
    forall x: W, y: W, z: W, u: W {:trigger Backwards(kit, x, y, z, u)} ::
      kit.four(x, y, z, u) == Backwards(kit, x, y, z, u)
  }

  function Backwards<W>(kit: Kit<W>, x: W, y: W, z: W, u: W): W {
    kit.four(u, z, y, x)
  }

  /** The working variables after one round. */
  function Round<W>(kit: Kit<W>, r: Regs<W>, k: W, w: W): Regs<W> {
    var t1 := kit.add(kit.add(kit.add(kit.add(r.h, kit.sum1(r.e)), kit.ch(r.e, r.f, r.g)), k), w);
    var t2 := kit.add(kit.sum0(r.a), kit.maj(r.a, r.b, r.c));
    Regs(kit.add(t1, t2), r.a, r.b, r.c, kit.add(r.d, t1), r.e, r.f, r.g)
  }

  function After<W>(kit: Kit<W>, r: Regs<W>, m: seq<W>, t: nat): Regs<W>
    requires |m| == 16 && t <= |kit.k|
  {
    if t == 0 then r else Round(kit, After(kit, r, m, t - 1), kit.k[t - 1], Schedule(kit, m, t - 1))
  }

  /** The hash value after one more block. */
  function Compress<W>(kit: Kit<W>, r: Regs<W>, m: seq<W>): Regs<W>
    requires |m| == 16
  {
    var s := After(kit, r, m, |kit.k|);
    Regs(kit.add(r.a, s.a), kit.add(r.b, s.b), kit.add(r.c, s.c), kit.add(r.d, s.d),
         kit.add(r.e, s.e), kit.add(r.f, s.f), kit.add(r.g, s.g), kit.add(r.h, s.h))
  }

  // ------------------------------------------------------------------
  // The loops
  // ------------------------------------------------------------------

  // The first n words of the schedule.
  ghost predicate Scheduled<W(!new)>(kit: Kit<W>, w: seq<W>, m: seq<W>, n: nat)
    requires |m| == 16
  {
    n <= |w| && forall t :: 0 <= t < n ==> w[t] == Schedule(kit, m, t)
  }

  method FillSchedule<W(!new)>(kit: Kit<W>, m: seq<W>) returns (w: array<W>)
    requires |m| == 16 && |kit.k| >= 16 && Reorders(kit)
    ensures fresh(w) && w.Length == |kit.k| && Scheduled(kit, w[..], m, w.Length)
  {
    w := new W[|kit.k|](_ => m[0]);
    CopyWords(w, m);
    for i := 16 to w.Length
      invariant Scheduled(kit, w[..], m, i)
    {
      ExtendSchedule(kit, w, i, m);
    }
  }

  method CopyWords<W>(w: array<W>, m: seq<W>)
    requires |m| == 16 <= w.Length
    modifies w
    ensures w[..16] == m
  {
    for i := 0 to 16
      invariant forall t :: 0 <= t < i ==> w[t] == m[t]
    {
      w[i] := m[i];
    }
  }

  method ExtendSchedule<W(!new)>(kit: Kit<W>, w: array<W>, i: nat, ghost m: seq<W>)
    requires |m| == 16 <= i < w.Length && Scheduled(kit, w[..], m, i) && Reorders(kit)
    modifies w
    ensures Scheduled(kit, w[..], m, i + 1)
  {
    ghost var was := w[..];
    var s0, s1 := kit.mix0(w[i - 15]), kit.mix1(w[i - 2]);
    w[i] := kit.four(w[i - 16], s0, w[i - 7], s1);
    assert kit.four(s1, was[i - 7], s0, was[i - 16]) == Backwards(kit, s1, was[i - 7], s0, was[i - 16]);
    OneMoreWord(kit, was, m, i);
    assert w[..] == was[i := Schedule(kit, m, i)];
  }

  lemma OneMoreWord<W(!new)>(kit: Kit<W>, w: seq<W>, m: seq<W>, i: nat)
    requires |m| == 16 <= i < |w| && Scheduled(kit, w, m, i)
    ensures Schedule(kit, m, i) ==
            kit.four(kit.mix1(w[i - 2]), w[i - 7], kit.mix0(w[i - 15]), w[i - 16])
    ensures Scheduled(kit, w[i := Schedule(kit, m, i)], m, i + 1)
  {
  }

  // Eight variables, shifted along at every round.
  method RunRounds<W(!new)>(kit: Kit<W>, r: Regs<W>, m: seq<W>) returns (s: Regs<W>)
    requires |m| == 16 && |kit.k| >= 16 && Reorders(kit)
    ensures s == After(kit, r, m, |kit.k|)
  {
    var w := FillSchedule(kit, m);
    var a, b, c, d := r.a, r.b, r.c, r.d;
    var e, f, g, h := r.e, r.f, r.g, r.h;
    for i := 0 to |kit.k|
      invariant Regs(a, b, c, d, e, f, g, h) == After(kit, r, m, i)
    {
      var t1 := kit.add(kit.add(kit.add(kit.add(h, kit.sum1(e)), kit.ch(e, f, g)), kit.k[i]), w[i]);
      var t2 := kit.add(kit.sum0(a), kit.maj(a, b, c));
      h := g;
      g := f;
      f := e;
      e := kit.add(d, t1);
      d := c;
      c := b;
      b := a;
      a := kit.add(t1, t2);
    }
    s := Regs(a, b, c, d, e, f, g, h);
  }

  function RegsOf<W>(s: seq<W>): Regs<W>
    requires |s| == 8
  {
    Regs(s[0], s[1], s[2], s[3], s[4], s[5], s[6], s[7])
  }

  /** One block added to the state in place. */
  method AddBlock<W(!new)>(kit: Kit<W>, state: array<W>, m: seq<W>)
    requires state.Length == 8 && |m| == 16 && |kit.k| >= 16 && Reorders(kit)
    modifies state
    ensures RegsOf(state[..]) == Compress(kit, RegsOf(old(state[..])), m)
  {
    var s := RunRounds(kit, RegsOf(state[..]), m);
    state[0] := kit.add(state[0], s.a);
    state[1] := kit.add(state[1], s.b);
    state[2] := kit.add(state[2], s.c);
    state[3] := kit.add(state[3], s.d);
    state[4] := kit.add(state[4], s.e);
    state[5] := kit.add(state[5], s.f);
    state[6] := kit.add(state[6], s.g);
    state[7] := kit.add(state[7], s.h);
  }
}
