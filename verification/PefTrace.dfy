/** How traces and patches compose. */
module PefTrace {
  import opened Bytes
  import opened PefCode

  lemma {:induction false} TraceAppend(a: seq<Prim>, b: seq<Prim>, d: u32, len: nat, c: Cursor)
    ensures var s := Trace(a, d, len, c);
      Trace(a + b, d, len, c) ==
      if !s.ok then s
      else
        var t := Trace(b, d, len, s.cur);
        Outcome(t.ok, t.cur, s.fixes + t.fixes)
  {
    if a == [] {
      assert a + b == b;
    } else {
      assert (a + b)[1..] == a[1..] + b;
      var s := Step(a[0], d, len, c);
      if s.ok {
        TraceAppend(a[1..], b, d, len, s.cur);
        var u := Trace(a[1..], d, len, s.cur);
        if u.ok {
          var t := Trace(b, d, len, u.cur);
          assert s.fixes + (u.fixes + t.fixes) == (s.fixes + u.fixes) + t.fixes;
        }
      }
    }
  }

  lemma {:induction false} TraceNil(d: u32, len: nat, c: Cursor)
    ensures Trace([], d, len, c) == Outcome(true, c, [])
  {
  }

  lemma {:induction false} TraceCons(p: Prim, rest: seq<Prim>, d: u32, len: nat, c: Cursor)
    ensures var s := Step(p, d, len, c);
      Trace([p] + rest, d, len, c) ==
      if !s.ok then s
      else
        var t := Trace(rest, d, len, s.cur);
        Outcome(t.ok, t.cur, s.fixes + t.fixes)
  {
    assert ([p] + rest)[1..] == rest;
  }

  lemma {:induction false} TraceOne(p: Prim, d: u32, len: nat, c: Cursor)
    ensures Trace([p], d, len, c) == Step(p, d, len, c)
  {
    var s := Step(p, d, len, c);
    assert [p][1..] == [];
    assert s.fixes + [] == s.fixes;
  }

  lemma {:induction false} RunWithin(k: Kind, pos: nat, imp: nat, n: nat, len: nat)
    requires n > 0 ==> Fits(k, pos, n - 1, len)
    ensures Within(RunFixes(k, pos, imp, n), len)
  {
    if n > 0 {
      RunWithin(k, pos, imp, n - 1, len);
    }
  }

  lemma {:induction false} StepWithin(p: Prim, d: u32, len: nat, c: Cursor)
    ensures Within(Step(p, d, len, c).fixes, len)
  {
    if p.Words? {
      var pos := Sub32(Add32(c.addr, p.skip), d);
      RunWithin(p.kind, pos, c.imp, Fitting(p.kind, pos, p.run, len), len);
    }
  }

  /** A trace never patches outside the buffer. */
  lemma {:induction false} TraceWithin(ps: seq<Prim>, d: u32, len: nat, c: Cursor)
    ensures Within(Trace(ps, d, len, c).fixes, len)
  {
    if ps != [] {
      StepWithin(ps[0], d, len, c);
      var s := Step(ps[0], d, len, c);
      if s.ok {
        TraceWithin(ps[1..], d, len, s.cur);
      }
    }
  }

  lemma {:induction false} RunFixesPrefix(k: Kind, pos: nat, imp: nat, i: nat, n: nat)
    requires i <= n
    ensures RunFixes(k, pos, imp, i) <= RunFixes(k, pos, imp, n)
  {
    if i < n {
      RunFixesPrefix(k, pos, imp, i, n - 1);
    }
  }

  /** A run that has patched `i` items has not met the end of the buffer yet. */
  lemma {:induction false} FittingFrom(k: Kind, pos: nat, i: nat, run: nat, len: nat)
    requires i <= run && (i > 0 ==> Fits(k, pos, i - 1, len))
    ensures i <= Fitting(k, pos, run, len)
    ensures i < run && !Fits(k, pos, i, len) ==> Fitting(k, pos, run, len) == i
  {
  }

  lemma {:induction false} PatchAppend(env: Bases, buf: seq<byte>, a: seq<Fixup>, b: seq<Fixup>)
    ensures Patch(env, buf, a + b) == Patch(env, Patch(env, buf, a), b)
  {
    if b == [] {
      assert a + b == a;
    } else {
      var b' := b[..|b| - 1];
      PatchAppend(env, buf, a, b');
      assert (a + b)[..|a + b| - 1] == a + b';
    }
  }

  lemma {:induction false} ItemInside(k: Kind, p: nat, imp: nat, len: nat)
    requires p + Stride(k) <= len
    ensures Within(ItemFixes(k, p, imp), len)
  {
  }

  lemma {:induction false} RunFixesStep(k: Kind, pos: nat, imp: nat, i: nat, env: Bases, buf: seq<byte>)
    ensures RunFixes(k, pos, imp, i + 1) == RunFixes(k, pos, imp, i) + ItemFixes(k, pos + Offset(k, i), imp + i)
    ensures Patch(env, buf, RunFixes(k, pos, imp, 0)) == buf
  {
  }

  lemma {:induction false} MiddleResolves(env: Bases, a: seq<Fixup>, b: seq<Fixup>, all: seq<Fixup>)
    requires a + b <= all && Resolves(env, all)
    ensures Resolves(env, b)
  {
    forall j | 0 <= j < |b| ensures env.Has(b[j].base) {
      assert all[|a| + j] == (a + b)[|a| + j] == b[j];
    }
  }

  /** Running `next` after `done`, both at the front of a longer list. */
  lemma {:induction false} Extend(env: Bases, was: seq<byte>, done: seq<Prim>, next: seq<Prim>, rest: seq<Prim>, d: u32, c: Cursor)
    requires Trace(done, d, |was|, c).ok
    requires Resolves(env, Trace(done + (next + rest), d, |was|, c).fixes)
    ensures var a := Trace(done, d, |was|, c);
      var b := Trace(next, d, |was|, a.cur);
      && Resolves(env, b.fixes)
      && Trace(done + next, d, |was|, c) == Outcome(b.ok, b.cur, a.fixes + b.fixes)
      && Patch(env, was, a.fixes + b.fixes) == Patch(env, Patch(env, was, a.fixes), b.fixes)
      && (!b.ok ==> Trace(done + (next + rest), d, |was|, c) == Trace(done + next, d, |was|, c))
  {
    hide Trace, Patch;
    var a := Trace(done, d, |was|, c);
    var b := Trace(next, d, |was|, a.cur);
    TraceAppend(done, next, d, |was|, c);
    TraceAppend(done, next + rest, d, |was|, c);
    TraceAppend(next, rest, d, |was|, a.cur);
    PatchAppend(env, was, a.fixes, b.fixes);
    var all := Trace(done + (next + rest), d, |was|, c).fixes;
    assert a.fixes + b.fixes <= all;
    MiddleResolves(env, a.fixes, b.fixes, all);
  }

  /** The instructions one word unrolls to. */
  function Block(cs: ChunkStream, pc: nat): seq<Prim>
    requires cs.Valid()
  {
    match Decode(cs.At(pc), cs.At(pc + 1))
    case Do(p, _) => [p]
    case Repeat(cc, rc, _) => Times(rc, Unroll(cs, BlockStart(pc, cc), pc))
  }

  lemma {:induction false} UnrollStep(cs: ChunkStream, pc: nat, end: nat)
    requires cs.Valid() && pc < end
    ensures Unroll(cs, pc, end) ==
            Block(cs, pc) + Unroll(cs, pc + Decode(cs.At(pc), cs.At(pc + 1)).size, end)
  {
  }

  lemma {:induction false} UnrollEnd(cs: ChunkStream, pc: nat, end: nat)
    requires cs.Valid() && pc >= end
    ensures Unroll(cs, pc, end) == []
  {
  }

  lemma {:induction false} BlockEnd(pc: u64, cc: nat)
    ensures (BlockStart(pc, cc) + cc) % TWO64 == pc
  {
  }
}
