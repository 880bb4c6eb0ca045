/** What a list of patches does to the words of a section. */
module PefAlgebra {
  import opened Bytes
  import opened PefCode
  import opened PefTrace

  /** The words at `p` and `q` are the same word or share no byte. */
  predicate Apart(p: nat, q: nat) { p == q || p + 4 <= q || q + 4 <= p }

  predicate ApartFrom(fs: seq<Fixup>, p: nat) {
    forall i :: 0 <= i < |fs| ==> Apart(fs[i].pos, p)
  }

  predicate NoStraddle(fs: seq<Fixup>) {
    forall i :: 0 <= i < |fs| ==> ApartFrom(fs, fs[i].pos)
  }

  predicate SameShape(a: Bases, b: Bases) { |a.sec| == |b.sec| && |a.imp| == |b.imp| }

  function AddAll(a: seq<u32>, b: seq<u32>): seq<u32>
    requires |a| == |b|
  {
    seq(|a|, i requires 0 <= i < |a| => Add32(a[i], b[i]))
  }

  function Plus(a: Bases, b: Bases): Bases
    requires SameShape(a, b)
  {
    Bases(AddAll(a.sec, b.sec), AddAll(a.imp, b.imp))
  }

  function Negated(s: seq<u32>): seq<u32> {
    seq(|s|, i requires 0 <= i < |s| => Sub32(0, s[i]))
  }

  function Negative(a: Bases): Bases { Bases(Negated(a.sec), Negated(a.imp)) }

  lemma {:induction false} MergeOne(buf: seq<byte>, p: nat, v: u32, w: u32)
    ensures PatchOne(PatchOne(buf, p, v), p, w) == PatchOne(buf, p, Add32(v, w))
  {
    if p + 4 <= |buf| {
      hide Rd32, Put32, Add32;
      var x := Rd32(buf, p);
      Rd32Put32(buf, p, Add32(x, v));
      AddAssoc(x, v, w);
      PutPut(buf, p, Add32(x, v), Add32(Add32(x, v), w));
    }
  }

  lemma {:induction false} AddAssoc(x: int, v: int, w: int)
    ensures Add32(Add32(x, v), w) == Add32(x, Add32(v, w)) == (x + v + w) % TWO32
  {
  }

  lemma {:induction false} ReadPatched(b: seq<byte>, q: nat, v: u32, p: nat)
    requires Apart(q, p) && p + 4 <= |b|
    ensures Rd32(PatchOne(b, q, v), p) == if q == p then Add32(Rd32(b, p), v) else Rd32(b, p)
  {
    hide Rd32, Put32, Add32;
    if q + 4 <= |b| {
      var x := Add32(Rd32(b, q), v);
      if q == p {
        Rd32Put32(b, p, x);
      } else {
        ReadApart(b, q, x, p);
      }
    }
  }

  lemma {:induction false} PutPut(buf: seq<byte>, p: nat, v: u32, w: u32)
    requires p + 4 <= |buf|
    ensures Put32(Put32(buf, p, v), p, w) == Put32(buf, p, w)
  {
  }

  lemma {:induction false} ReadApart(buf: seq<byte>, p: nat, v: u32, q: nat)
    requires p + 4 <= |buf| && q + 4 <= |buf| && (p + 4 <= q || q + 4 <= p)
    ensures Rd32(Put32(buf, p, v), q) == Rd32(buf, q)
  {
  }

  lemma {:induction false} SwapPut(buf: seq<byte>, p: nat, v: u32, q: nat, w: u32)
    requires p + 4 <= |buf| && q + 4 <= |buf| && (p + 4 <= q || q + 4 <= p)
    ensures Put32(Put32(buf, p, v), q, w) == Put32(Put32(buf, q, w), p, v)
  {
    var l, r := Put32(Put32(buf, p, v), q, w), Put32(Put32(buf, q, w), p, v);
    forall k | 0 <= k < |buf| ensures l[k] == r[k] {
    }
  }

  lemma {:induction false} SwapOne(buf: seq<byte>, p: nat, v: u32, q: nat, w: u32)
    requires Apart(p, q)
    ensures PatchOne(PatchOne(buf, p, v), q, w) == PatchOne(PatchOne(buf, q, w), p, v)
  {
    if p == q {
      MergeOne(buf, p, v, w);
      MergeOne(buf, p, w, v);
    } else if p + 4 <= |buf| && q + 4 <= |buf| {
      ReadApart(buf, p, Add32(Rd32(buf, p), v), q);
      ReadApart(buf, q, Add32(Rd32(buf, q), w), p);
      SwapPut(buf, p, Add32(Rd32(buf, p), v), q, Add32(Rd32(buf, q), w));
    }
  }

  lemma {:induction false} SwapPatch(env: Bases, buf: seq<byte>, fs: seq<Fixup>, p: nat, v: u32)
    requires ApartFrom(fs, p)
    ensures Patch(env, PatchOne(buf, p, v), fs) == PatchOne(Patch(env, buf, fs), p, v)
  {
    if fs != [] {
      var f := fs[|fs| - 1];
      SwapPatch(env, buf, fs[..|fs| - 1], p, v);
      SwapOne(Patch(env, buf, fs[..|fs| - 1]), p, v, f.pos, env.Value(f.base));
    }
  }

  /** Relocating by A and then by B is relocating by A + B. */
  lemma {:induction false} PatchAdditive(a: Bases, b: Bases, buf: seq<byte>, fs: seq<Fixup>)
    requires SameShape(a, b) && NoStraddle(fs)
    ensures Patch(b, Patch(a, buf, fs), fs) == Patch(Plus(a, b), buf, fs)
  {
    if fs != [] {
      var f, rest := fs[|fs| - 1], fs[..|fs| - 1];
      var v, w := a.Value(f.base), b.Value(f.base);
      forall i | 0 <= i < |rest| ensures ApartFrom(rest, rest[i].pos) {
        assert ApartFrom(fs, fs[i].pos);
      }
      PatchAdditive(a, b, buf, rest);
      assert ApartFrom(fs, fs[|fs| - 1].pos);
      SwapPatch(b, Patch(a, buf, rest), rest, f.pos, v);
      MergeOne(Patch(b, Patch(a, buf, rest), rest), f.pos, v, w);
      assert Plus(a, b).Value(f.base) == Add32(v, w);
    }
  }

  lemma {:induction false} PatchZero(env: Bases, buf: seq<byte>, fs: seq<Fixup>)
    requires forall i :: 0 <= i < |fs| ==> env.Value(fs[i].base) == 0
    ensures Patch(env, buf, fs) == buf
  {
    if fs != [] {
      PatchZero(env, buf, fs[..|fs| - 1]);
      var p := fs[|fs| - 1].pos;
      if p + 4 <= |buf| {
        Put32Rd32(buf, p);
        assert Add32(Rd32(buf, p), 0) == Rd32(buf, p);
      }
    }
  }

  /** Relocating by the negated bases undoes a relocation. */
  lemma {:induction false} PatchUndone(a: Bases, buf: seq<byte>, fs: seq<Fixup>)
    requires NoStraddle(fs)
    ensures Patch(Negative(a), Patch(a, buf, fs), fs) == buf
  {
    hide Patch, NoStraddle;
    PatchAdditive(a, Negative(a), buf, fs);
    PatchZero(Plus(a, Negative(a)), buf, fs);
  }

  /** The sum of everything added to the word at `p`. */
  function Total(env: Bases, fs: seq<Fixup>, p: nat): u32 {
    if fs == [] then 0
    else
      var f := fs[|fs| - 1];
      var t := Total(env, fs[..|fs| - 1], p);
      if f.pos == p then Add32(t, env.Value(f.base)) else t
  }

  lemma {:induction false} PatchedWord(env: Bases, buf: seq<byte>, fs: seq<Fixup>, p: nat)
    requires ApartFrom(fs, p) && p + 4 <= |buf|
    ensures Rd32(Patch(env, buf, fs), p) == Add32(Rd32(buf, p), Total(env, fs, p))
  {
    if fs != [] {
      hide Rd32, PatchOne, Add32;
      var f, b := fs[|fs| - 1], Patch(env, buf, fs[..|fs| - 1]);
      PatchedWord(env, buf, fs[..|fs| - 1], p);
      ReadPatched(b, f.pos, env.Value(f.base), p);
      AddAssoc(Rd32(buf, p), Total(env, fs[..|fs| - 1], p), env.Value(f.base));
    } else {
      assert Add32(Rd32(buf, p), 0) == Rd32(buf, p);
    }
  }

  /** Bytes no patch covers keep their value. */
  lemma {:induction false} PatchFrame(env: Bases, buf: seq<byte>, fs: seq<Fixup>, k: nat)
    requires k < |buf| && forall i :: 0 <= i < |fs| ==> !(fs[i].pos <= k < fs[i].pos + 4)
    ensures Patch(env, buf, fs)[k] == buf[k]
  {
    if fs != [] {
      PatchFrame(env, buf, fs[..|fs| - 1], k);
      assert !(fs[|fs| - 1].pos <= k < fs[|fs| - 1].pos + 4);
    }
  }

  /** The position-setting instructions move by whole words. */
  predicate AlignedPrim(p: Prim) {
    match p
    case Words(skip, _, _) => skip % 4 == 0
    case Incr(n) => n % 4 == 0
    case SetPosition(off) => off % 4 == 0
    case _ => true
  }

  predicate AlignedStream(ps: seq<Prim>) {
    forall i :: 0 <= i < |ps| ==> AlignedPrim(ps[i])
  }

  predicate AlignedFixes(fs: seq<Fixup>) {
    forall i :: 0 <= i < |fs| ==> fs[i].pos % 4 == 0
  }

  lemma {:induction false} OffsetAligned(k: Kind, n: nat)
    ensures Offset(k, n) % 4 == 0
  {
    assert k.TVector12? ==> Offset(k, n) == 4 * (3 * n);
    assert k.TVector8? || k.VTable8? ==> Offset(k, n) == 4 * (2 * n);
  }

  lemma {:induction false} AlignedRun(k: Kind, pos: nat, imp: nat, n: nat)
    requires pos % 4 == 0
    ensures AlignedFixes(RunFixes(k, pos, imp, n))
  {
    hide Offset, Stride, ItemFixes;
    if n > 0 {
      OffsetAligned(k, n - 1);
      AlignedRun(k, pos, imp, n - 1);
      AlignedItem(k, pos + Offset(k, n - 1), imp + n - 1);
    }
  }

  lemma {:induction false} AlignedItem(k: Kind, p: nat, imp: nat)
    requires p % 4 == 0
    ensures AlignedFixes(ItemFixes(k, p, imp))
  {
  }

  lemma {:induction false} AlignedMove(a: u32, n: int, d: u32)
    requires Sub32(a, d) % 4 == 0 && n % 4 == 0
    ensures Sub32(Add32(a, n), d) % 4 == 0 && Sub32(Add32(d, n), d) % 4 == 0
  {
    SubAligned(a, d);
    AddAligned(a, n, d);
    AddAligned(d, n, d);
    SubAligned(Add32(a, n), d);
    SubAligned(Add32(d, n), d);
    hide Add32, Sub32;
  }

  lemma {:induction false} SubAligned(a: int, d: int)
    ensures Sub32(a, d) % 4 == 0 <==> (a - d) % 4 == 0
  {
    var k := Mod4(a - d);
  }

  lemma {:induction false} AddAligned(a: int, n: int, d: int)
    requires (a - d) % 4 == 0 && n % 4 == 0
    ensures (Add32(a, n) - d) % 4 == 0
  {
    var k := Mod4(a + n);
    assert Add32(a, n) - d == (a - d) + n - 4 * k;
  }

  /** Reducing modulo 2^32 subtracts a multiple of 4. */
  lemma {:induction false} Mod4(x: int) returns (k: int)
    ensures x % TWO32 == x - 4 * k
  {
    k := 0x40000000 * (x / TWO32);
  }

  lemma {:induction false} AlignedStep(p: Prim, d: u32, len: nat, c: Cursor)
    requires AlignedPrim(p) && Sub32(c.addr, d) % 4 == 0
    ensures AlignedFixes(Step(p, d, len, c).fixes)
    ensures Sub32(Step(p, d, len, c).cur.addr, d) % 4 == 0
  {
    if p.Words? {
      var a := Add32(c.addr, p.skip);
      var pos := Sub32(a, d);
      AlignedMove(c.addr, p.skip, d);
      AlignedRun(p.kind, pos, c.imp, Fitting(p.kind, pos, p.run, len));
      OffsetAligned(p.kind, p.run);
      AlignedMove(a, Offset(p.kind, p.run), d);
    } else {
      AlignedMove(c.addr, 4, d);
      AlignedMove(c.addr, if p.Incr? then p.amount else if p.SetPosition? then p.off else 0, d);
    }
    hide Offset, Add32, Sub32, RunFixes, Fitting;
  }

  lemma {:induction false} AlignedTrace(ps: seq<Prim>, d: u32, len: nat, c: Cursor)
    requires AlignedStream(ps) && Sub32(c.addr, d) % 4 == 0
    ensures AlignedFixes(Trace(ps, d, len, c).fixes)
  {
    if ps != [] {
      assert AlignedPrim(ps[0]);
      AlignedStep(ps[0], d, len, c);
      var s := Step(ps[0], d, len, c);
      if s.ok {
        AlignedTrace(ps[1..], d, len, s.cur);
      }
    }
  }

  lemma {:induction false} AlignedApart(fs: seq<Fixup>)
    requires AlignedFixes(fs)
    ensures NoStraddle(fs)
  {
  }
}
