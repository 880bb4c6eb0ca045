/** The in-place relocator: one pass over the chunk words, recursing for the
    repeats. */
module PefExec {
  import opened Bytes
  import opened PefCode
  import opened PefPatch
  import opened PefTrace

  /** `len` bits of a 16-bit word, `off` bits from its most significant end. */
  function PefField(chunk: u16, off: nat, len: nat): nat
    requires off + len <= 16
  {
    chunk as int / Pow2(16 - (off + len)) % Pow2(len)
  }

  /** The range table of Decode is the bit-field layout the relocator reads. */
  lemma {:induction false} DecodeFields(w: u16, next: u16)
    ensures var op := w / 512;
      var i := Decode(w, next);
      var idx := PefField(w, 6, 10) * 0x10000 + next;
      var count := PefField(w, 10, 6) * 0x10000 + next;
      if op < 0x20 then i == Do(Words(PefField(w, 2, 8) * 4, BySectD, PefField(w, 10, 6)), 1)
      else if op <= 0x25 then i == Do(Words(0, RunKind(PefField(w, 3, 4)), PefField(w, 7, 9) + 1), 1)
      else if op <= 0x33 then
        i == Do(if PefField(w, 3, 4) == 0 then ByImport(PefField(w, 7, 9))
                else if PefField(w, 3, 4) <= 2 then SetSection else BySection(PefField(w, 7, 9)), 1)
      else if 0x40 <= op <= 0x47 then i == Do(Incr(PefField(w, 4, 12) + 1), 1)
      else if 0x48 <= op <= 0x4F then i == Repeat(PefField(w, 4, 4) + 1, PefField(w, 8, 8) + 1, 1)
      else if op == 0x50 then i == Do(SetPosition(idx), 2)
      else if op == 0x52 then i == Do(if idx >= 0x100000 then Illegal else ByImport(idx), 2)
      else if op == 0x58 then i == Repeat(PefField(w, 6, 4) + 1, count, 2)
      else if op == 0x5A then
        i == Do(if PefField(w, 6, 4) != 0 then SetSection
                else if count >= 64 then Illegal else BySection(count), 2)
      else i == Do(Illegal, 1)
  {
    Fields(w);
    DecodeShort(w, next);
    DecodeMiddle(w, next);
    DecodeLong(w, next);
    DecodeLongGroups(w, next);
    hide *;
  }

  lemma {:induction false} DecodeShort(w: u16, next: u16)
    ensures var op := w / 512;
      var i := Decode(w, next);
      var sub := w / 512 % 16;
      if op < 0x20 then i == Do(Words(w / 64 % 256 * 4, BySectD, w % 64), 1)
      else if op <= 0x25 then i == Do(Words(0, RunKind(sub), w % 512 + 1), 1)
      else if op <= 0x33 then
        i == Do(if sub == 0 then ByImport(w % 512) else if sub <= 2 then SetSection else BySection(w % 512), 1)
      else true
  {
    if 0x20 <= w / 512 <= 0x25 {
      assert (w - 0x4000) / 512 == w / 512 % 16;
    }
  }

  lemma {:induction false} DecodeMiddle(w: u16, next: u16)
    ensures var op := w / 512;
      var i := Decode(w, next);
      if op <= 0x33 then true
      else if 0x40 <= op <= 0x47 then i == Do(Incr(w % 4096 + 1), 1)
      else if 0x48 <= op <= 0x4F then i == Repeat(w / 256 % 16 + 1, w % 256 + 1, 1)
      else if op == 0x50 || op == 0x52 || op == 0x58 || op == 0x5A then true
      else i == Do(Illegal, 1)
  {
  }

  lemma {:induction false} DecodeLong(w: u16, next: u16)
    ensures var op := w / 512;
      var i := Decode(w, next);
      var idx := w % 1024 * 0x10000 + next;
      if op == 0x50 then i == Do(SetPosition(idx), 2)
      else op == 0x52 ==> i == Do(if idx >= 0x100000 then Illegal else ByImport(idx), 2)
  {
    if w / 512 == 0x50 {
      assert w % 1024 == w - 0xA000;
    } else if w / 512 == 0x52 {
      assert w % 1024 == w - 0xA400;
    }
  }

  lemma {:induction false} DecodeLongGroups(w: u16, next: u16)
    ensures var op := w / 512;
      var i := Decode(w, next);
      var count := w % 64 * 0x10000 + next;
      if op == 0x58 then i == Repeat(w / 64 % 16 + 1, count, 2)
      else op == 0x5A ==>
        i == Do(if w / 64 % 16 != 0 then SetSection
                else if count >= 64 then Illegal else BySection(count), 2)
  {
    if w / 512 == 0x58 {
      assert (w - 0xB000) / 64 == w / 64 % 16;
    } else if w / 512 == 0x5A {
      assert (w - 0xB400) / 64 == w / 64 % 16;
    }
  }

  lemma {:induction false} Fields(w: u16)
    ensures PefField(w, 2, 8) == w / 64 % 256 && PefField(w, 10, 6) == w % 64
    ensures PefField(w, 3, 4) == w / 512 % 16 && PefField(w, 7, 9) == w % 512
    ensures PefField(w, 4, 12) == w % 4096 && PefField(w, 4, 4) == w / 256 % 16
    ensures PefField(w, 8, 8) == w % 256 && PefField(w, 6, 10) == w % 1024 && PefField(w, 6, 4) == w / 64 % 16
  {
    assert Pow2(0) == 1 && Pow2(4) == 16 && Pow2(6) == 64;
    assert Pow2(8) == 256 && Pow2(9) == 512 && Pow2(10) == 1024 && Pow2(12) == 4096;
  }

  class Relocator {
    const cs: ChunkStream
    const secDefault: u32
    const env: Bases
    const buf: array<byte>
    var relocAddr: u32
    var importIndex: nat

    constructor (cs: ChunkStream, secDefault: u32, env: Bases, buf: array<byte>)
      ensures this.cs == cs && this.secDefault == secDefault && this.env == env && this.buf == buf
      ensures relocAddr == secDefault && importIndex == 0
    {
      this.cs, this.secDefault, this.env, this.buf := cs, secDefault, env, buf;
      relocAddr, importIndex := secDefault, 0;
    }

    ghost predicate Valid() { cs.Valid() }

    ghost function Cur(): Cursor
      reads this
    {
      Cursor(relocAddr, importIndex)
    }

    /** What running `ps` from here would do. */
    ghost function Ahead(ps: seq<Prim>): Outcome
      reads this
    {
      Trace(ps, secDefault, buf.Length, Cur())
    }

    /** The patch loop of one run instruction. */
    method PatchRun(k: Kind, run: nat) returns (ok: bool)
      requires var pos := Sub32(relocAddr, secDefault);
        Resolves(env, RunFixes(k, pos, importIndex, Fitting(k, pos, run, buf.Length)))
      modifies buf
      ensures var pos := Sub32(relocAddr, secDefault);
        var n := Fitting(k, pos, run, buf.Length);
        ok == (n == run) && buf[..] == Patch(env, old(buf[..]), RunFixes(k, pos, importIndex, n))
    {
      hide Patch, RunFixes, ItemFixes, Within, Resolves;
      ghost var was := buf[..];
      var pos := Sub32(relocAddr, secDefault);
      RunFixesStep(k, pos, importIndex, 0, env, was);
      var i := 0;
      while i < run
        invariant i <= run && (i > 0 ==> Fits(k, pos, i - 1, buf.Length))
        invariant buf[..] == Patch(env, was, RunFixes(k, pos, importIndex, i))
      {
        var p := pos + Offset(k, i);
        FittingFrom(k, pos, i, run, buf.Length);
        if p + Stride(k) > buf.Length {
          return false;
        }
        FittingFrom(k, pos, i + 1, run, buf.Length);
        RunFixesStep(k, pos, importIndex, i, env, was);
        ItemResolves(env, k, pos, importIndex, i, Fitting(k, pos, run, buf.Length));
        ItemInside(k, p, importIndex + i, buf.Length);
        PatchItem(buf, env, k, p, importIndex + i, was, RunFixes(k, pos, importIndex, i));
        i := i + 1;
      }
      return true;
    }

    ghost predicate Reached(o: Outcome, ok: bool, was: seq<byte>)
      reads this, buf
    {
      ok == o.ok && Cur() == o.cur && buf[..] == Patch(env, was, o.fixes)
    }

    ghost function StepHere(p: Prim): Outcome
      reads this
    {
      Step(p, secDefault, buf.Length, Cur())
    }

    /** RelocBySectDWithSkip and the RelocRun group. */
    method ExecRun(skip: nat, k: Kind, run: nat) returns (ok: bool)
      requires Resolves(env, StepHere(Words(skip, k, run)).fixes)
      modifies `relocAddr, `importIndex, buf
      ensures Reached(old(StepHere(Words(skip, k, run))), ok, old(buf[..]))
    {
      relocAddr := Add32(relocAddr, skip);
      ok := PatchRun(k, run);
      if !ok {
        return;
      }
      if k.ImportRun? {
        importIndex := importIndex + run;
      }
      relocAddr := Add32(relocAddr, Offset(k, run));
    }

    /** One word at the current position. */
    method ExecWord(p: Prim) returns (ok: bool)
      requires p.ByImport? || p.BySection?
      requires Resolves(env, StepHere(p).fixes)
      modifies `relocAddr, `importIndex, buf
      ensures Reached(old(StepHere(p)), ok, old(buf[..]))
    {
      var pos := Sub32(relocAddr, secDefault);
      if pos + 4 > buf.Length {
        return false;
      }
      ghost var f := StepHere(p).fixes[0];
      assert env.Has(f.base);
      OnePatch(env, buf[..], f);
      if p.ByImport? {
        PatchWord(buf, pos, env.imp[p.idx]);
        importIndex := p.idx + 1;
      } else {
        PatchWord(buf, pos, env.sec[p.idx]);
      }
      relocAddr := Add32(relocAddr, 4);
      return true;
    }

    /** Instructions that leave the position alone. */
    lemma {:induction false} Idle()
      ensures Reached(StepHere(SetSection), true, buf[..])
      ensures Reached(StepHere(Illegal), false, buf[..])
    {
    }

    method MoveTo(addr: u32, ghost p: Prim)
      requires p.Incr? || p.SetPosition?
      requires addr == StepHere(p).cur.addr
      modifies `relocAddr
      ensures Reached(old(StepHere(p)), true, old(buf[..]))
    {
      relocAddr := addr;
    }

    /** Every instruction but the repeats, dispatched on its leading bits. */
    method ExecPlain(chunk: u16, next: u16) returns (ok: bool, size: nat)
      requires Decode(chunk, next).Do?
      requires Resolves(env, StepHere(Decode(chunk, next).prim).fixes)
      modifies `relocAddr, `importIndex, buf
      ensures size == Decode(chunk, next).size
      ensures Reached(old(StepHere(Decode(chunk, next).prim)), ok, old(buf[..]))
    {
      hide *;
      DecodeFields(chunk, next);
      var op := chunk / 512;
      if op < 0x20 {
        ok := ExecRun(PefField(chunk, 2, 8) * 4, BySectD, PefField(chunk, 10, 6));
        size := 1;
      } else if op <= 0x25 {
        ok := ExecRun(0, RunKind(PefField(chunk, 3, 4)), PefField(chunk, 7, 9) + 1);
        size := 1;
      } else if op <= 0x33 {
        ok := ExecSmIndex(chunk, next);
        size := 1;
      } else {
        ok, size := ExecLong(chunk, next);
      }
    }

    /** The RelocSmIndex group. */
    method ExecSmIndex(chunk: u16, ghost next: u16) returns (ok: bool)
      requires 0x26 <= chunk / 512 <= 0x33
      requires Decode(chunk, next).Do? && Resolves(env, StepHere(Decode(chunk, next).prim).fixes)
      modifies `relocAddr, `importIndex, buf
      ensures Reached(old(StepHere(Decode(chunk, next).prim)), ok, old(buf[..]))
    {
      hide *;
      DecodeFields(chunk, next);
      Idle();
      var sub, idx := PefField(chunk, 3, 4), PefField(chunk, 7, 9);
      if sub == 0 {
        ok := ExecWord(ByImport(idx));
      } else if sub == 1 || sub == 2 {
        ok := true;
      } else {
        ok := ExecWord(BySection(idx));
      }
    }

    /** RelocIncrPosition, the two-word forms and the unassigned codes. */
    method ExecLong(chunk: u16, next: u16) returns (ok: bool, size: nat)
      requires chunk / 512 > 0x33
      requires Decode(chunk, next).Do? && Resolves(env, StepHere(Decode(chunk, next).prim).fixes)
      modifies `relocAddr, `importIndex, buf
      ensures size == Decode(chunk, next).size
      ensures Reached(old(StepHere(Decode(chunk, next).prim)), ok, old(buf[..]))
    {
      hide *;
      DecodeFields(chunk, next);
      Idle();
      ghost var prim := Decode(chunk, next).prim;
      var op := chunk / 512;
      size := 2;
      if 0x40 <= op <= 0x47 {
        StepMoves(prim);
        MoveTo(Add32(relocAddr, PefField(chunk, 4, 12) + 1), prim);
        ok, size := true, 1;
      } else if op == 0x50 {
        StepMoves(prim);
        MoveTo(Add32(secDefault, PefField(chunk, 6, 10) * 0x10000 + next), prim);
        ok := true;
      } else if op == 0x52 {
        var idx := PefField(chunk, 6, 10) * 0x10000 + next;
        if idx >= 0x100000 {
          ok := false;
        } else {
          ok := ExecWord(ByImport(idx));
        }
      } else if op == 0x5A {
        ok := ExecLgSection(PefField(chunk, 6, 4), PefField(chunk, 10, 6) * 0x10000 + next);
      } else {
        ok, size := false, 1;
      }
    }

    lemma {:induction false} StepMoves(p: Prim)
      ensures p.Incr? ==> StepHere(p).cur.addr == Add32(relocAddr, p.amount)
      ensures p.SetPosition? ==> StepHere(p).cur.addr == Add32(secDefault, p.off)
    {
    }

    /** RelocLgSetOrBySection. */
    method ExecLgSection(sub: nat, idx: nat) returns (ok: bool)
      requires sub == 0 && idx < 64 ==> Resolves(env, StepHere(BySection(idx)).fixes)
      modifies `relocAddr, `importIndex, buf
      ensures var p := if sub != 0 then SetSection else if idx >= 64 then Illegal else BySection(idx);
        Reached(old(StepHere(p)), ok, old(buf[..]))
    {
      hide *;
      Idle();
      if sub != 0 {
        ok := true;
      } else if idx >= 64 {
        ok := false;
      } else {
        ok := ExecWord(BySection(idx));
      }
    }

    /** Interpret `count` words from `start`, which a repeat's block start may
        have wrapped past 2^64. */
    method ExecRange(start: u64, count: u64) returns (ok: bool)
      requires cs.Valid() && (start + count) % TWO64 <= TWO32
      requires Resolves(env, Ahead(Unroll(cs, start, (start + count) % TWO64)).fixes)
      modifies `relocAddr, `importIndex, buf
      ensures Reached(old(Ahead(Unroll(cs, start, (start + count) % TWO64))), ok, old(buf[..]))
      decreases (start + count) % TWO64, 0
    {
      hide Decode, Unroll, Trace, Patch, Reached, Resolves, Block;
      var pc, end := start as nat, (start + count) % TWO64;
      ghost var was, c, done := buf[..], Cur(), [];
      Start();
      while pc < end
        invariant done + Unroll(cs, pc, end) == Unroll(cs, start, end)
        invariant Reached(Trace(done, secDefault, |was|, c), true, was)
      {
        ghost var block, rest := Block(cs, pc), Unroll(cs, pc + Decode(cs.At(pc), cs.At(pc + 1)).size, end);
        UnrollStep(cs, pc, end);
        ghost var mid, o := buf[..], Ahead(block);
        Ready(was, done, block, rest, c);
        var size;
        ok, size := ExecInstr(pc);
        Joined(was, done, block, rest, c, mid, o, ok);
        if !ok {
          return false;
        }
        Assoc(done, block, rest);
        done := done + block;
        pc := pc + size;
      }
      UnrollEnd(cs, pc, end);
      assert done + [] == done;
      return true;
    }

    /** Interpret the instruction at `pc`, a repeat with its whole block. */
    method ExecInstr(pc: nat) returns (ok: bool, size: nat)
      requires cs.Valid() && pc < TWO32
      requires Resolves(env, Ahead(Block(cs, pc)).fixes)
      modifies `relocAddr, `importIndex, buf
      ensures size == Decode(cs.At(pc), cs.At(pc + 1)).size
      ensures Reached(old(Ahead(Block(cs, pc))), ok, old(buf[..]))
      decreases pc, 2
    {
      hide Decode, Unroll, Trace, Patch, PefField, Reached, Resolves, BlockStart, Ahead, StepHere;
      var chunk := cs.At(pc);
      var next := cs.At(pc + 1);
      DecodeFields(chunk, next);
      var op := chunk / 512;
      if 0x48 <= op <= 0x4F {
        ok := ExecRepeat(pc, PefField(chunk, 4, 4) + 1, PefField(chunk, 8, 8) + 1);
        size := 1;
      } else if op == 0x58 {
        ok := ExecRepeat(pc, PefField(chunk, 6, 4) + 1, PefField(chunk, 10, 6) * 0x10000 + next);
        size := 2;
      } else {
        AheadOne(Decode(chunk, next).prim);
        ok, size := ExecPlain(chunk, next);
      }
    }

    lemma {:induction false} AheadOne(p: Prim)
      ensures Ahead([p]) == StepHere(p)
    {
      TraceOne(p, secDefault, buf.Length, Cur());
    }

    /** Interpret the whole stream of a fresh relocator. */
    method Run(count: u32) returns (ok: bool)
      requires cs.Valid() && Cur() == Cursor(secDefault, 0)
      requires Resolves(env, Ahead(Unroll(cs, 0, count)).fixes)
      modifies `relocAddr, `importIndex, buf
      ensures var o := Trace(Unroll(cs, 0, count), secDefault, buf.Length, Cursor(secDefault, 0));
        ok == o.ok && buf[..] == Patch(env, old(buf[..]), o.fixes)
    {
      hide Trace, Unroll, Patch, Resolves;
      ok := ExecRange(0, count);
    }

    /** Interpret the `cc` words before `pc`, `rc` times. */
    method ExecRepeat(pc: u64, cc: nat, rc: nat) returns (ok: bool)
      requires cs.Valid() && 1 <= cc <= 16 && pc <= TWO32
      requires Resolves(env, Ahead(Times(rc, Unroll(cs, BlockStart(pc, cc), pc))).fixes)
      modifies `relocAddr, `importIndex, buf
      ensures Reached(old(Ahead(Times(rc, Unroll(cs, BlockStart(pc, cc), pc)))), ok, old(buf[..]))
      decreases pc, 1
    {
      hide Unroll, Trace, Patch, Reached, Resolves, Times, BlockStart;
      var blkStart := BlockStart(pc, cc);
      BlockEnd(pc, cc);
      ghost var was, c, body := buf[..], Cur(), Unroll(cs, blkStart, pc);
      Start();
      var r := 0;
      while r < rc
        invariant r <= rc
        invariant Reached(Trace(Times(r, body), secDefault, |was|, c), true, was)
      {
        ghost var rest := TimesSplit(body, r, rc);
        ghost var mid, o := buf[..], Ahead(body);
        Ready(was, Times(r, body), body, rest, c);
        ok := ExecRange(blkStart, cc);
        Joined(was, Times(r, body), body, rest, c, mid, o, ok);
        if !ok {
          return false;
        }
        r := r + 1;
      }
      return true;
    }

    lemma {:induction false} Start()
      ensures Reached(Trace([], secDefault, buf.Length, Cur()), true, buf[..])
      ensures forall s: seq<Prim> :: Times(0, s) == []
    {
    }

    lemma {:induction false} Ready(was: seq<byte>, done: seq<Prim>, next: seq<Prim>, rest: seq<Prim>, c: Cursor)
      requires |was| == buf.Length && Reached(Trace(done, secDefault, |was|, c), true, was)
      requires Resolves(env, Trace(done + (next + rest), secDefault, |was|, c).fixes)
      ensures Trace(done, secDefault, |was|, c).ok
      ensures Ahead(next) == Trace(next, secDefault, |was|, Trace(done, secDefault, |was|, c).cur)
      ensures buf[..] == Patch(env, was, Trace(done, secDefault, |was|, c).fixes)
      ensures Resolves(env, Ahead(next).fixes)
    {
      Extend(env, was, done, next, rest, secDefault, c);
    }

    lemma {:induction false} Joined(was: seq<byte>, done: seq<Prim>, next: seq<Prim>, rest: seq<Prim>, c: Cursor,
                 mid: seq<byte>, o: Outcome, ok: bool)
      requires Trace(done, secDefault, |was|, c).ok
      requires Resolves(env, Trace(done + (next + rest), secDefault, |was|, c).fixes)
      requires o == Trace(next, secDefault, |was|, Trace(done, secDefault, |was|, c).cur)
      requires mid == Patch(env, was, Trace(done, secDefault, |was|, c).fixes)
      requires Reached(o, ok, mid)
      ensures Reached(Trace(done + next, secDefault, |was|, c), ok, was)
      ensures !ok ==> Reached(Trace(done + (next + rest), secDefault, |was|, c), ok, was)
    {
      Extend(env, was, done, next, rest, secDefault, c);
    }

    lemma {:induction false} TimesSplit<T>(s: seq<T>, r: nat, n: nat) returns (rest: seq<T>)
      requires r < n
      ensures Times(n, s) == Times(r, s) + (s + rest)
      ensures Times(r + 1, s) == Times(r, s) + s
    {
      if r + 1 == n {
        rest := [];
        assert s + [] == s;
      } else {
        rest := TimesSplit(s, r, n - 1);
        assert Times(r, s) + (s + rest) + s == Times(r, s) + (s + (rest + s));
        rest := rest + s;
      }
    }
  }
}
