/** When relocation is additive: exactly when no two patches overlap partly, as
    long as no position is patched twice. */
module PefOverlap {
  import opened Bytes
  import opened PefCode
  import opened PefTrace
  import opened PefAlgebra
  import opened PefCarry
  import opened PefSection

  ghost predicate AdditiveAt(fs: seq<Fixup>, a: Bases, b: Bases, buf: seq<byte>)
    requires SameShape(a, b)
  {
    Patch(b, Patch(a, buf, fs), fs) == Patch(Plus(a, b), buf, fs)
  }

  /** Relocating by any A and then by any B is relocating by A + B, on every
      image of `len` bytes. */
  ghost predicate Additive(fs: seq<Fixup>, len: nat) {
    forall a: Bases, b: Bases, buf: seq<byte> :: SameShape(a, b) && |buf| == len ==> AdditiveAt(fs, a, b, buf)
  }

  /** No position is patched twice. */
  predicate OnceEach(fs: seq<Fixup>) {
    forall i, j :: 0 <= i < j < |fs| ==> fs[i].pos != fs[j].pos
  }

  // ------------------------------------------ two words in a list of patches

  /** Every base is worth `v`. */
  predicate Uniform(env: Bases, fs: seq<Fixup>, v: u32) {
    forall i :: 0 <= i < |fs| ==> env.Value(fs[i].base) == v
  }

  /** Patch positions other than p and q = p + d keep clear of the two words, but
      for words that begin above q. */
  predicate Clear(fs: seq<Fixup>, p: nat, d: nat) {
    forall i :: 0 <= i < |fs| ==> fs[i].pos in {p, p + d} || fs[i].pos + 4 <= p || fs[i].pos > p + d
  }

  predicate Mine(f: Fixup, p: nat, d: nat) { f.pos in {p, p + d} }

  /** The other patched words end in a byte below `top`. */
  predicate Quiet(fs: seq<Fixup>, b: seq<byte>, p: nat, d: nat, top: nat) {
    forall i :: 0 <= i < |fs| && !Mine(fs[i], p, d) ==> fs[i].pos + 4 <= |b| && b[fs[i].pos + 3] < top
  }

  /** The two words after the patches, from the patches at p and q alone. */
  function Seen(fs: seq<Fixup>, p: nat, d: nat, s: Pair, v: u32): Pair {
    if fs == [] then s
    else
      var f, before := fs[|fs| - 1], Seen(fs[..|fs| - 1], p, d, s, v);
      if f.pos == p then StepLow(d, before, v)
      else if f.pos == p + d then StepHigh(d, before, v)
      else before
  }

  /** A small value added to a word that ends in a small byte changes that byte
      only. */
  lemma {:induction false} QuietPatch(b: seq<byte>, t: nat, v: u32)
    requires t + 4 <= |b| && b[t + 3] + v < 0x100
    ensures PatchOne(b, t, v) == b[t + 3 := b[t + 3] + v]
  {
    var e0, e1, e2, e3 := b[t], b[t + 1], b[t + 2], b[t + 3];
    assert Add32(Word(e0, e1, e2, e3), v) == Word(e0, e1, e2, e3 + v);
    WordBytes(e0, e1, e2, e3 + v);
    var r := b[t + 3 := e3 + v];
    assert r[t] == e0 && r[t + 1] == e1 && r[t + 2] == e2 && r[t + 3] == e3 + v;
    assert Put32(b, t, Word(e0, e1, e2, e3 + v)) == r;
  }

  /** The other words have `v` added to their last byte. */
  ghost predicate Ends(fs: seq<Fixup>, b: seq<byte>, r: seq<byte>, p: nat, d: nat, v: u32) {
    && |r| == |b|
    && forall i :: 0 <= i < |fs| && !Mine(fs[i], p, d) ==>
         fs[i].pos + 4 <= |b| && r[fs[i].pos + 3] == b[fs[i].pos + 3] + v
  }

  /** Byte `u` is neither of the two words nor the last of another patched one. */
  predicate Untouched(fs: seq<Fixup>, p: nat, d: nat, u: nat) {
    !(p <= u < p + d + 4) && forall i :: 0 <= i < |fs| && !Mine(fs[i], p, d) ==> fs[i].pos + 3 != u
  }

  ghost predicate Still(fs: seq<Fixup>, b: seq<byte>, r: seq<byte>, p: nat, d: nat) {
    |r| == |b| && forall u :: 0 <= u < |b| && Untouched(fs, p, d, u) ==> r[u] == b[u]
  }

  /** What a run of uniform patches leaves of the image. */
  ghost predicate Ran(fs: seq<Fixup>, b: seq<byte>, r: seq<byte>, p: nat, d: nat, v: u32) {
    && p + d + 4 <= |b| == |r|
    && See(r, p, d) == Seen(fs, p, d, See(b, p, d), v)
    && Ends(fs, b, r, p, d, v) && Still(fs, b, r, p, d)
  }

  lemma {:induction false} UniformRun(env: Bases, fs: seq<Fixup>, b: seq<byte>, p: nat, d: nat, v: u32, top: nat)
    requires 1 <= d <= 3 && p + d + 4 <= |b|
    requires Uniform(env, fs, v) && OnceEach(fs) && Clear(fs, p, d) && Quiet(fs, b, p, d, top) && top + v <= 0x100
    ensures Ran(fs, b, Patch(env, b, fs), p, d, v)
  {
    hide PatchOne, Ran, Patch, Uniform, OnceEach, Clear, Quiet;
    if fs == [] {
      RanNone(env, b, p, d, v);
    } else {
      var pre, f := fs[..|fs| - 1], fs[|fs| - 1];
      Prefix(env, fs, b, p, d, v, top);
      UniformRun(env, pre, b, p, d, v, top);
      LastPatch(env, b, fs);
      NextPatch(pre, f, b, Patch(env, b, pre), p, d, v, top);
    }
  }

  lemma {:induction false} RanNone(env: Bases, b: seq<byte>, p: nat, d: nat, v: u32)
    requires p + d + 4 <= |b|
    ensures Ran([], b, Patch(env, b, []), p, d, v)
  {
    hide Rd32;
  }

  lemma {:induction false} Prefix(env: Bases, fs: seq<Fixup>, b: seq<byte>, p: nat, d: nat, v: u32, top: nat)
    requires fs != []
    requires Uniform(env, fs, v) && OnceEach(fs) && Clear(fs, p, d) && Quiet(fs, b, p, d, top)
    ensures var pre := fs[..|fs| - 1];
      Uniform(env, pre, v) && OnceEach(pre) && Clear(pre, p, d) && Quiet(pre, b, p, d, top)
    ensures env.Value(fs[|fs| - 1].base) == v
  {
  }

  lemma {:induction false} LastPatch(env: Bases, b: seq<byte>, fs: seq<Fixup>)
    requires fs != []
    ensures var f := fs[|fs| - 1];
      fs[..|fs| - 1] + [f] == fs
      && Patch(env, b, fs) == PatchOne(Patch(env, b, fs[..|fs| - 1]), f.pos, env.Value(f.base))
  {
  }

  /** One more patch. */
  lemma {:induction false} NextPatch(pre: seq<Fixup>, f: Fixup, b: seq<byte>, r: seq<byte>, p: nat, d: nat, v: u32, top: nat)
    requires 1 <= d <= 3 && Ran(pre, b, r, p, d, v) && OnceEach(pre + [f]) && Clear(pre + [f], p, d)
    requires Quiet(pre + [f], b, p, d, top) && top + v <= 0x100
    ensures Ran(pre + [f], b, PatchOne(r, f.pos, v), p, d, v)
  {
    hide Rd32, PatchOne, Seen, StepLow, StepHigh, Ends, Still;
    var fs := pre + [f];
    assert fs[|pre|] == f;
    assert forall i :: 0 <= i < |pre| ==> fs[i] == pre[i];
    SeenLast(pre, f, p, d, See(b, p, d), v);
    if Mine(f, p, d) {
      LowPatch(r, p, d, v);
      HighPatch(r, p, d, v);
      NextMine(pre, f, b, r, p, d, v);
    } else {
      NextOther(pre, f, b, r, p, d, v, top);
    }
  }

  lemma {:induction false} SeenLast(pre: seq<Fixup>, f: Fixup, p: nat, d: nat, s: Pair, v: u32)
    requires d >= 1
    ensures var before := Seen(pre, p, d, s, v);
      Seen(pre + [f], p, d, s, v) ==
      if f.pos == p then StepLow(d, before, v) else if f.pos == p + d then StepHigh(d, before, v) else before
  {
    assert (pre + [f])[..|pre|] == pre;
  }

  lemma {:induction false} PatchFar(b: seq<byte>, t: nat, v: u32)
    ensures forall u :: 0 <= u < |b| && (u < t || t + 4 <= u) ==> PatchOne(b, t, v)[u] == b[u]
  {
    if t + 4 <= |b| {
      PutFrame(b, t, Add32(Rd32(b, t), v));
    }
    hide Put32, Rd32, Add32;
  }

  lemma {:induction false} EndsSnoc(pre: seq<Fixup>, f: Fixup, b: seq<byte>, r: seq<byte>, s: seq<byte>, p: nat, d: nat, v: u32)
    requires Ends(pre, b, r, p, d, v) && |s| == |b|
    requires forall i :: 0 <= i < |pre| && !Mine(pre[i], p, d) ==> s[pre[i].pos + 3] == r[pre[i].pos + 3]
    requires Mine(f, p, d) || (f.pos + 4 <= |b| && s[f.pos + 3] == b[f.pos + 3] + v)
    ensures Ends(pre + [f], b, s, p, d, v)
  {
  }

  lemma {:induction false} StillSnoc(pre: seq<Fixup>, f: Fixup, b: seq<byte>, r: seq<byte>, s: seq<byte>, p: nat, d: nat)
    requires Still(pre, b, r, p, d) && |s| == |b|
    requires forall u :: 0 <= u < |b| && !(p <= u < p + d + 4) && (Mine(f, p, d) || u != f.pos + 3) ==> s[u] == r[u]
    ensures Still(pre + [f], b, s, p, d)
  {
    var fs := pre + [f];
    assert fs[|pre|] == f;
    assert forall i :: 0 <= i < |pre| ==> fs[i] == pre[i];
    forall u | 0 <= u < |b| && Untouched(fs, p, d, u) ensures s[u] == b[u] {
      assert Untouched(pre, p, d, u);
    }
  }

  lemma {:induction false} NextMine(pre: seq<Fixup>, f: Fixup, b: seq<byte>, r: seq<byte>, p: nat, d: nat, v: u32)
    requires 1 <= d <= 3 && Ends(pre, b, r, p, d, v) && Still(pre, b, r, p, d) && Mine(f, p, d) && Clear(pre, p, d)
    ensures var s := PatchOne(r, f.pos, v);
      Ends(pre + [f], b, s, p, d, v) && Still(pre + [f], b, s, p, d)
  {
    hide PatchOne;
    var s := PatchOne(r, f.pos, v);
    PatchFar(r, f.pos, v);
    EndsSnoc(pre, f, b, r, s, p, d, v);
    StillSnoc(pre, f, b, r, s, p, d);
  }

  lemma {:induction false} NextOther(pre: seq<Fixup>, f: Fixup, b: seq<byte>, r: seq<byte>, p: nat, d: nat, v: u32, top: nat)
    requires 1 <= d <= 3 && p + d + 4 <= |b| && Ends(pre, b, r, p, d, v) && Still(pre, b, r, p, d)
    requires !Mine(f, p, d) && (f.pos + 4 <= p || f.pos > p + d) && forall i :: 0 <= i < |pre| ==> pre[i].pos != f.pos
    requires f.pos + 4 <= |b| && b[f.pos + 3] < top && top + v <= 0x100
    ensures var s := PatchOne(r, f.pos, v);
      Ends(pre + [f], b, s, p, d, v) && Still(pre + [f], b, s, p, d) && See(s, p, d) == See(r, p, d)
  {
    hide Rd32, PatchOne;
    var s, t := PatchOne(r, f.pos, v), f.pos;
    assert Untouched(pre, p, d, t + 3);
    QuietPatch(r, t, v);
    SameSee(r, s, p, d);
    EndsSnoc(pre, f, b, r, s, p, d, v);
    StillSnoc(pre, f, b, r, s, p, d);
  }

  lemma {:induction false} SameSee(r: seq<byte>, s: seq<byte>, p: nat, d: nat)
    requires p + d + 4 <= |r| == |s| && d <= 3 && forall u :: p <= u < p + d + 4 ==> r[u] == s[u]
    ensures See(r, p, d) == See(s, p, d)
  {
    hide Word;
  }

  // ----------------------------------------------------------- the converse

  lemma {:induction false} SeenNone(fs: seq<Fixup>, p: nat, d: nat, s: Pair, v: u32)
    requires forall i :: 0 <= i < |fs| ==> !Mine(fs[i], p, d)
    ensures Seen(fs, p, d, s, v) == s
  {
    if fs != [] {
      SeenNone(fs[..|fs| - 1], p, d, s, v);
    }
  }

  lemma {:induction false} SeenOne(fs: seq<Fixup>, p: nat, d: nat, s: Pair, v: u32, x: nat)
    requires d >= 1 && x < |fs| && Mine(fs[x], p, d) && forall i :: 0 <= i < |fs| && i != x ==> !Mine(fs[i], p, d)
    ensures Seen(fs, p, d, s, v) == if fs[x].pos == p then StepLow(d, s, v) else StepHigh(d, s, v)
  {
    hide StepLow, StepHigh;
    if x == |fs| - 1 {
      SeenNone(fs[..x], p, d, s, v);
    } else {
      SeenOne(fs[..|fs| - 1], p, d, s, v, x);
    }
  }

  lemma {:induction false} SeenBoth(fs: seq<Fixup>, p: nat, d: nat, s: Pair, v: u32, x: nat, y: nat)
    requires d >= 1 && x < y < |fs| && fs[x].pos in {p, p + d} && fs[y].pos in {p, p + d} && fs[x].pos != fs[y].pos
    requires forall i :: 0 <= i < |fs| && i != x && i != y ==> !Mine(fs[i], p, d)
    ensures Seen(fs, p, d, s, v) == Both(d, fs[x].pos == p, s, v)
  {
    hide StepLow, StepHigh;
    if y == |fs| - 1 {
      SeenOne(fs[..y], p, d, s, v, x);
    } else {
      SeenBoth(fs[..|fs| - 1], p, d, s, v, x, y);
    }
  }

  /** Among the patches that overlap partly, two with no patch between or just
      below them. */
  lemma {:induction false} Closest(fs: seq<Fixup>, i: nat, j: nat) returns (x: nat, y: nat)
    requires OnceEach(fs) && i < |fs| && j < |fs| && fs[i].pos < fs[j].pos < fs[i].pos + 4
    ensures x < |fs| && y < |fs| && fs[x].pos < fs[y].pos < fs[x].pos + 4
    ensures Clear(fs, fs[x].pos, fs[y].pos - fs[x].pos)
    decreases fs[i].pos, fs[j].pos
  {
    var p, q := fs[i].pos, fs[j].pos;
    if k :| 0 <= k < |fs| && p < fs[k].pos + 4 && fs[k].pos < p {
      x, y := Closest(fs, k, i);
    } else if k :| 0 <= k < |fs| && p < fs[k].pos < q {
      x, y := Closest(fs, i, k);
    } else {
      x, y := i, j;
    }
  }

  function Same(n: nat, v: u32): Bases { Bases(seq(n, _ => v), seq(n, _ => v)) }

  function Most(fs: seq<Fixup>): (n: nat)
    ensures forall i :: 0 <= i < |fs| ==> fs[i].base.i < n
  {
    if fs == [] then 0
    else
      var m, i := Most(fs[..|fs| - 1]), fs[|fs| - 1].base.i;
      if i < m then m else i + 1
  }

  lemma {:induction false} SameUniform(fs: seq<Fixup>)
    ensures var a := Same(Most(fs), 1);
      SameShape(a, a) && Uniform(a, fs, 1) && Uniform(Plus(a, a), fs, 2)
  {
    assert Plus(Same(Most(fs), 1), Same(Most(fs), 1)) == Same(Most(fs), 2);
  }

  /** An image of zeros but for the word at q. */
  lemma {:induction false} ZeroImage(len: nat, p: nat, d: nat, y: u32) returns (b: seq<byte>)
    requires 1 <= d <= 3 && p + d + 4 <= len
    ensures |b| == len && See(b, p, d) == StepHigh(d, Pair(0, 0), y)
    ensures forall u :: 0 <= u < len && !(p <= u < p + d + 4) ==> b[u] == 0
  {
    hide PatchOne, StepHigh, Rd32, Zeros;
    var z := Zeros(len);
    b := PatchOne(z, p + d, y);
    HighPatch(z, p, d, y);
    PatchFar(z, p + d, y);
    ZeroWord(z, p);
    ZeroWord(z, p + d);
  }

  lemma {:induction false} ZeroWord(z: seq<byte>, p: nat)
    requires p + 4 <= |z| && z[p] == z[p + 1] == z[p + 2] == z[p + 3] == 0
    ensures Rd32(z, p) == 0
  {
  }

  /** Two patches that overlap partly show in some relocation. */
  lemma {:induction false} StraddleShows(fs: seq<Fixup>, len: nat, i: nat, j: nat)
    requires Within(fs, len) && OnceEach(fs)
    requires i < |fs| && j < |fs| && fs[i].pos < fs[j].pos < fs[i].pos + 4
    ensures !Additive(fs, len)
  {
    hide Patch, Seen, StepHigh, StepLow, Clear, Shows, Rd32, Seed, Both;
    var x, y := Closest(fs, i, j);
    var p, d := fs[x].pos, fs[y].pos - fs[x].pos;
    var low, a := x < y, Same(Most(fs), 1);
    var b := ZeroImage(len, p, d, Seed(d, low));
    SameUniform(fs);
    var b1 := OneRun(fs, a, b, p, d, 1, 1, x, y);
    var b2 := OneRun(fs, a, b1, p, d, 1, 2, x, y);
    var c := OneRun(fs, Plus(a, a), b, p, d, 2, 1, x, y);
    CarriesShow(d, low);
    ShowsMeans(d, low);
    assert See(b2, p, d) != See(c, p, d);
    assert !AdditiveAt(fs, a, a, b);
  }

  lemma {:induction false} ShowsMeans(d: nat, low: bool)
    requires 1 <= d <= 3 && Shows(d, low)
    ensures var s := StepHigh(d, Pair(0, 0), Seed(d, low));
      Both(d, low, Both(d, low, s, 1), 1) != Both(d, low, s, 2)
  {
  }

  lemma {:induction false} OneRun(fs: seq<Fixup>, env: Bases, b: seq<byte>, p: nat, d: nat, v: u32, top: nat, x: nat, y: nat)
    returns (r: seq<byte>)
    requires 1 <= d <= 3 && p + d + 4 <= |b| && Within(fs, |b|) && OnceEach(fs) && Clear(fs, p, d)
    requires x < |fs| && y < |fs| && fs[x].pos == p && fs[y].pos == p + d
    requires Uniform(env, fs, v) && top + v <= 0x100
    requires Quiet(fs, b, p, d, top)
    ensures r == Patch(env, b, fs) && |r| == |b|
    ensures See(r, p, d) == Both(d, x < y, See(b, p, d), v)
    ensures Quiet(fs, r, p, d, top + v)
  {
    hide Patch, Seen, StepHigh, StepLow, Rd32, Both;
    r := Patch(env, b, fs);
    UniformRun(env, fs, b, p, d, v, top);
    if x < y {
      SeenBoth(fs, p, d, See(b, p, d), v, x, y);
    } else {
      SeenBoth(fs, p, d, See(b, p, d), v, y, x);
    }
  }

  /** When no position is patched twice, relocation is additive exactly if no two
      patches overlap partly. */
  lemma {:induction false} AdditiveExactly(fs: seq<Fixup>, len: nat)
    requires Within(fs, len) && OnceEach(fs)
    ensures Additive(fs, len) <==> NoStraddle(fs)
  {
    if NoStraddle(fs) {
      forall a: Bases, b: Bases, buf: seq<byte> | SameShape(a, b) && |buf| == len
        ensures AdditiveAt(fs, a, b, buf)
      {
        PatchAdditive(a, b, buf, fs);
      }
    } else {
      var i :| 0 <= i < |fs| && !ApartFrom(fs, fs[i].pos);
      var j :| 0 <= j < |fs| && !Apart(fs[j].pos, fs[i].pos);
      if fs[i].pos < fs[j].pos {
        StraddleShows(fs, len, i, j);
      } else {
        StraddleShows(fs, len, j, i);
      }
    }
  }

  /** Of two patches: additive exactly if they are of one word or of words that
      share no byte. */
  lemma {:induction false} TwoPatchesExactly(f: Fixup, h: Fixup, len: nat)
    requires f.pos + 4 <= len && h.pos + 4 <= len
    ensures Additive([f, h], len) <==> Apart(f.pos, h.pos)
  {
    var fs := [f, h];
    assert Within(fs, len);
    if f.pos != h.pos {
      AdditiveExactly(fs, len);
      assert fs[0] == f && fs[1] == h;
      assert Apart(f.pos, h.pos) ==> ApartFrom(fs, f.pos) && ApartFrom(fs, h.pos);
      assert NoStraddle(fs) ==> ApartFrom(fs, fs[0].pos) && Apart(fs[1].pos, fs[0].pos);
    } else {
      forall a: Bases, b: Bases, buf: seq<byte> | SameShape(a, b) && |buf| == len
        ensures AdditiveAt(fs, a, b, buf)
      {
        PatchAdditive(a, b, buf, fs);
      }
    }
  }

  /** For a whole section: when its streams patch no position twice, relocating it
      is additive exactly if no two of the patches overlap partly. */
  lemma {:induction false} SectionAdditiveExactly(progs: seq<seq<Prim>>, d: u32, len: nat)
    requires OnceEach(SectionTrace(progs, d, len).fixes)
    ensures var fs := SectionTrace(progs, d, len).fixes;
      Additive(fs, len) <==> NoStraddle(fs)
  {
    SectionWithin(progs, d, len);
    AdditiveExactly(SectionTrace(progs, d, len).fixes, len);
  }

  /** A stream of four words, a run, a move to offset 2 and a run, is not
      additive on any section it fits. */
  lemma {:induction false} OverlapNotAdditive(len: nat)
    requires len >= 6
    ensures var cs := ChunkStream([0x42, 0x00, 0xA0, 0x00, 0x00, 0x02, 0x42, 0x00], 4);
      var r := SectionTrace([Unroll(cs, 0, 4)], 0, len);
      r.ok && !Additive(r.fixes, len)
  {
    var cs := ChunkStream([0x42, 0x00, 0xA0, 0x00, 0x00, 0x02, 0x42, 0x00], 4);
    var run, move := Words(0, BySectD, 1), SetPosition(2);
    OverlapStream(cs);
    OverlapTrace(len);
    hide SectionTrace, Unroll, Additive;
    TwoPatchesExactly(Fixup(0, Section(1)), Fixup(2, Section(1)), len);
  }

  lemma {:induction false} OverlapStream(cs: ChunkStream)
    requires cs == ChunkStream([0x42, 0x00, 0xA0, 0x00, 0x00, 0x02, 0x42, 0x00], 4)
    ensures Unroll(cs, 0, 4) == [Words(0, BySectD, 1), SetPosition(2), Words(0, BySectD, 1)]
  {
    hide Decode, Unroll, BlockStart;
    assert cs.At(0) == 0x4200 && cs.At(1) == 0xA000 && cs.At(2) == 2 && cs.At(3) == 0x4200;
    OverlapWords(cs.At(4));
    UnrollEnd(cs, 4, 4);
    UnrollStep(cs, 3, 4);
    UnrollStep(cs, 1, 4);
    UnrollStep(cs, 0, 4);
  }

  lemma {:induction false} OverlapWords(next: u16)
    ensures Decode(0x4200, 0xA000) == Do(Words(0, BySectD, 1), 1) == Decode(0x4200, next)
    ensures Decode(0xA000, 2) == Do(SetPosition(2), 2)
  {
  }

  lemma {:induction false} OverlapTrace(len: nat)
    requires len >= 6
    ensures SectionTrace([[Words(0, BySectD, 1), SetPosition(2), Words(0, BySectD, 1)]], 0, len) ==
            Result(true, [Fixup(0, Section(1)), Fixup(2, Section(1))])
  {
    var run, move := Words(0, BySectD, 1), SetPosition(2);
    RunFixesStep(BySectD, 0, 0, 0, Bases([], []), []);
    RunFixesStep(BySectD, 2, 0, 0, Bases([], []), []);
    TraceCons(run, [move, run], 0, len, Cursor(0, 0));
    TraceCons(move, [run], 0, len, Cursor(4, 0));
    TraceOne(run, 0, len, Cursor(2, 0));
    SectionSnoc([], [run, move, run], 0, len);
    assert [run, move, run] == [run] + [move, run] && [move, run] == [move] + [run];
    assert [] + [[run, move, run]] == [[run, move, run]];
    hide Trace, SectionTrace;
  }

  /** `n` patches of one position are one patch by `n` times the value. */
  lemma {:induction false} RepeatedPatch(env: Bases, b: seq<byte>, f: Fixup, n: nat)
    ensures Patch(env, b, Times(n, [f])) == PatchOne(b, f.pos, n * env.Value(f.base) % TWO32)
  {
    hide PatchOne, Patch, Add32, Bases.Value;
    var v := env.Value(f.base);
    if n == 0 {
      NoChange(b, f.pos);
      NoPatches(env, b);
    } else {
      RepeatedPatch(env, b, f, n - 1);
      var t := Times(n - 1, [f]);
      assert Times(n, [f])[..|t|] == t && Times(n, [f])[|t|] == f;
      LastPatch(env, b, Times(n, [f]));
      MergeOne(b, f.pos, (n - 1) * v % TWO32, v);
      OneMore(n, v);
    }
  }

  lemma {:induction false} OneMore(n: nat, v: nat)
    requires n > 0
    ensures Add32((n - 1) * v % TWO32, v) == n * v % TWO32
  {
    assert (n - 1) * v + v == n * v;
    SumMod((n - 1) * v, v);
    hide Add32;
  }

  lemma {:induction false} NoPatches(env: Bases, b: seq<byte>)
    ensures Patch(env, b, []) == b
  {
  }

  lemma {:induction false} SumMod(x: nat, v: nat)
    ensures Add32(x % TWO32, v) == (x + v) % TWO32
  {
    AddMultiple(x % TWO32 + v, x / TWO32);
  }

  lemma {:induction false} NoChange(b: seq<byte>, p: nat)
    ensures PatchOne(b, p, 0) == b
  {
    if p + 4 <= |b| {
      Put32Rd32(b, p);
      assert Add32(Rd32(b, p), 0) == Rd32(b, p);
    }
    hide Rd32, Put32;
  }

  /** When a position is patched again and again, partial overlap need not show:
      a patch repeated a multiple of 2^32 times cancels out. */
  lemma {:induction false} StraddleMayCancel(f: Fixup, h: Fixup, n: nat, len: nat)
    requires n % TWO32 == 0
    ensures Additive(Times(n, [f]) + [h], len)
  {
    hide Patch, PatchOne, Plus;
    var fs := Times(n, [f]) + [h];
    forall a: Bases, b: Bases, buf: seq<byte> | SameShape(a, b) && |buf| == len
      ensures AdditiveAt(fs, a, b, buf)
    {
      LastOnly(a, buf, f, h, n);
      LastOnly(b, Patch(a, buf, fs), f, h, n);
      LastOnly(Plus(a, b), buf, f, h, n);
      MergeOne(buf, h.pos, a.Value(h.base), b.Value(h.base));
      SumValue(a, b, h.base);
    }
  }

  lemma {:induction false} SumValue(a: Bases, b: Bases, i: Base)
    requires SameShape(a, b)
    ensures Plus(a, b).Value(i) == Add32(a.Value(i), b.Value(i))
  {
  }

  lemma {:induction false} LastOnly(env: Bases, b: seq<byte>, f: Fixup, h: Fixup, n: nat)
    requires n % TWO32 == 0
    ensures Patch(env, b, Times(n, [f]) + [h]) == PatchOne(b, h.pos, env.Value(h.base))
  {
    hide Patch, PatchOne;
    var v := env.Value(f.base);
    RepeatedPatch(env, b, f, n);
    assert n == TWO32 * (n / TWO32);
    assert n * v == TWO32 * (n / TWO32 * v);
    MultipleMod(TWO32, n / TWO32 * v);
    NoChange(b, f.pos);
    LastPatch(env, b, Times(n, [f]) + [h]);
    assert (Times(n, [f]) + [h])[..|Times(n, [f])|] == Times(n, [f]);
  }
}
