/** What each relocation instruction does to the words of a section, in numbers:
    the code that stands in the stream, the address it works at, what it adds and
    where it leaves the position and the import index. */
module PefMeaning {
  import opened Bytes
  import opened PefCode
  import opened PefTrace
  import opened PefPatch
  import opened PefAlgebra

  /** Running a whole stream from a cursor. */
  function Ran(cs: ChunkStream, d: u32, len: nat, c: Cursor): Outcome
    requires cs.Valid()
  {
    Trace(Unroll(cs, 0, cs.nchunks), d, len, c)
  }

  /** A stream of one instruction. */
  lemma {:induction false} OneInstruction(cs: ChunkStream, p: Prim, d: u32, len: nat, c: Cursor)
    requires cs.Valid() && cs.nchunks > 0 && Decode(cs.At(0), cs.At(1)) == Do(p, cs.nchunks)
    ensures Ran(cs, d, len, c) == Step(p, d, len, c)
  {
    hide Decode, Step, Trace, Unroll, Block;
    UnrollStep(cs, 0, cs.nchunks);
    UnrollEnd(cs, cs.nchunks, cs.nchunks);
    BlockOfOne(cs, 0);
    assert [p] + [] == [p];
    TraceOne(p, d, len, c);
  }

  lemma {:induction false} BlockOfOne(cs: ChunkStream, pc: nat)
    requires cs.Valid() && Decode(cs.At(pc), cs.At(pc + 1)).Do?
    ensures Block(cs, pc) == [Decode(cs.At(pc), cs.At(pc + 1)).prim]
  {
  }

  /** `v` has been added to the word at `pos`, and no other byte has changed. */
  ghost predicate Added(was: seq<byte>, now: seq<byte>, pos: nat, v: u32) {
    && |now| == |was| && pos + 4 <= |was|
    && Rd32(now, pos) == Add32(Rd32(was, pos), v)
    && forall k :: 0 <= k < |was| && !(pos <= k < pos + 4) ==> now[k] == was[k]
  }

  lemma {:induction false} PatchAdds(buf: seq<byte>, pos: nat, v: u32)
    requires pos + 4 <= |buf|
    ensures Added(buf, PatchOne(buf, pos, v), pos, v)
  {
    Rd32Put32(buf, pos, Add32(Rd32(buf, pos), v));
    hide Rd32, Add32;
  }

  // ------------------------------------------------------- one word at a time

  /** RelocSmBySection, the codes next to it that act alike, and the two-word
      form: the base of the section named is added, and the position moves on. */
  lemma {:induction false} BySectionAdds(cs: ChunkStream, idx: nat, d: u32, c: Cursor, env: Bases, buf: seq<byte>)
    requires cs.Valid() && idx < |env.sec|
    requires (cs.nchunks == 1 && idx < 512 && cs.At(0) == 0x6600 + idx)
             || (cs.nchunks == 1 && 0x4C00 <= cs.At(0) < 0x6000 && idx == cs.At(0) % 512)
             || (cs.nchunks == 2 && idx < 64 && cs.At(0) == 0xB400 && cs.At(1) == idx)
    ensures var o, pos := Ran(cs, d, |buf|, c), (c.addr - d) % 0x1_0000_0000;
      if pos + 4 > |buf| then !o.ok && o.fixes == []
      else
        && o.ok && o.cur == Cursor((c.addr + 4) % 0x1_0000_0000, c.imp)
        && Resolves(env, o.fixes) && Added(buf, Patch(env, buf, o.fixes), pos, env.sec[idx])
  {
    hide Ran, Patch, PatchOne, Decode, Added;
    SectionCode(cs.At(0), cs.At(1), idx);
    OneInstruction(cs, BySection(idx), d, |buf|, c);
    var pos := Sub32(c.addr, d);
    if pos + 4 <= |buf| {
      OnePatch(env, buf, Fixup(pos, Section(idx)));
      PatchAdds(buf, pos, env.sec[idx]);
    }
  }

  lemma {:induction false} SectionCode(w: u16, next: u16, idx: nat)
    ensures idx < 512 && w == 0x6600 + idx ==> Decode(w, next) == Do(BySection(idx), 1)
    ensures 0x4C00 <= w < 0x6000 && idx == w % 512 ==> Decode(w, next) == Do(BySection(idx), 1)
    ensures idx < 64 && w == 0xB400 && next == idx ==> Decode(w, next) == Do(BySection(idx), 2)
  {
  }

  /** RelocSmByImport and its two-word form: the address of the import named is
      added, and the import index goes to the one after it. */
  lemma {:induction false} ByImportAdds(cs: ChunkStream, idx: nat, d: u32, c: Cursor, env: Bases, buf: seq<byte>)
    requires cs.Valid() && idx < |env.imp|
    requires (cs.nchunks == 1 && idx < 512 && cs.At(0) == 0x6000 + idx)
             || (cs.nchunks == 2 && idx < 0x100000 && cs.At(0) == 0xA400 + idx / 0x10000 && cs.At(1) == idx % 0x10000)
    ensures var o, pos := Ran(cs, d, |buf|, c), (c.addr - d) % 0x1_0000_0000;
      if pos + 4 > |buf| then !o.ok && o.fixes == []
      else
        && o.ok && o.cur == Cursor((c.addr + 4) % 0x1_0000_0000, idx + 1)
        && Resolves(env, o.fixes) && Added(buf, Patch(env, buf, o.fixes), pos, env.imp[idx])
  {
    hide Ran, Patch, PatchOne, Decode, Added;
    ImportCode(cs.At(0), cs.At(1), idx);
    OneInstruction(cs, ByImport(idx), d, |buf|, c);
    var pos := Sub32(c.addr, d);
    if pos + 4 <= |buf| {
      OnePatch(env, buf, Fixup(pos, Import(idx)));
      PatchAdds(buf, pos, env.imp[idx]);
    }
  }

  lemma {:induction false} ImportCode(w: u16, next: u16, idx: nat)
    ensures idx < 512 && w == 0x6000 + idx ==> Decode(w, next) == Do(ByImport(idx), 1)
    ensures idx < 0x100000 && w == 0xA400 + idx / 0x10000 && next == idx % 0x10000 ==> Decode(w, next) == Do(ByImport(idx), 2)
  {
  }

  /** RelocIncrPosition moves by its amount and patches nothing. */
  lemma {:induction false} IncrMoves(cs: ChunkStream, d: u32, len: nat, c: Cursor)
    requires cs.Valid() && cs.nchunks == 1 && 0x8000 <= cs.At(0) < 0x9000
    ensures Ran(cs, d, len, c) ==
            Outcome(true, Cursor((c.addr + cs.At(0) % 0x1000 + 1) % 0x1_0000_0000, c.imp), [])
  {
    MoveCode(cs.At(0), cs.At(1));
    hide Ran, Decode;
    OneInstruction(cs, Incr(cs.At(0) as int % 0x1000 + 1), d, len, c);
  }

  /** RelocSetPosition goes to its offset in the section. */
  lemma {:induction false} PositionMoves(cs: ChunkStream, d: u32, len: nat, c: Cursor)
    requires cs.Valid() && cs.nchunks == 2 && 0xA000 <= cs.At(0) < 0xA200
    ensures Ran(cs, d, len, c) ==
            Outcome(true, Cursor((d + cs.At(0) % 0x200 * 0x10000 + cs.At(1)) % 0x1_0000_0000, c.imp), [])
  {
    MoveCode(cs.At(0), cs.At(1));
    hide Ran, Decode;
    OneInstruction(cs, SetPosition(cs.At(0) as int % 0x200 * 0x10000 + cs.At(1)), d, len, c);
  }

  /** The SetSect codes do nothing. */
  lemma {:induction false} SelectionsStay(cs: ChunkStream, d: u32, len: nat, c: Cursor)
    requires cs.Valid()
    requires (cs.nchunks == 1 && 0x6200 <= cs.At(0) < 0x6600) || (cs.nchunks == 2 && 0xB440 <= cs.At(0) < 0xB600)
    ensures Ran(cs, d, len, c) == Outcome(true, c, [])
  {
    MoveCode(cs.At(0), cs.At(1));
    hide Ran, Decode;
    OneInstruction(cs, SetSection, d, len, c);
  }

  lemma {:induction false} MoveCode(w: u16, next: u16)
    ensures 0x8000 <= w < 0x9000 ==> Decode(w, next) == Do(Incr(w % 0x1000 + 1), 1)
    ensures 0xA000 <= w < 0xA200 ==> Decode(w, next) == Do(SetPosition(w % 0x200 * 0x10000 + next), 2)
    ensures 0x6200 <= w < 0x6600 ==> Decode(w, next) == Do(SetSection, 1)
    ensures 0xB440 <= w < 0xB600 ==> Decode(w, next) == Do(SetSection, 2)
  {
  }

  /** The codes that are no instruction end the run with nothing patched. */
  lemma {:induction false} Unassigned(cs: ChunkStream, d: u32, len: nat, c: Cursor)
    requires cs.Valid() && cs.nchunks == 1
    requires var w := cs.At(0);
      0x6800 <= w < 0x8000 || 0xA200 <= w < 0xA400 || 0xA600 <= w < 0xB000 || 0xB200 <= w < 0xB400 || w >= 0xB600
    ensures Ran(cs, d, len, c) == Outcome(false, c, [])
  {
    OneInstruction(cs, Illegal, d, len, c);
    hide Ran;
  }

  /** The two-word forms refuse indices that are too large. */
  lemma {:induction false} IndexTooLarge(cs: ChunkStream, d: u32, len: nat, c: Cursor)
    requires cs.Valid() && cs.nchunks == 2
    requires var w, v := cs.At(0), cs.At(1);
      (0xA400 <= w < 0xA600 && w % 0x200 * 0x10000 + v >= 0x100000)
      || (0xB400 <= w < 0xB440 && w % 0x40 * 0x10000 + v >= 64)
    ensures Ran(cs, d, len, c) == Outcome(false, c, [])
  {
    LargeCode(cs.At(0), cs.At(1));
    hide Ran, Decode;
    OneInstruction(cs, Illegal, d, len, c);
  }

  lemma {:induction false} LargeCode(w: u16, v: u16)
    ensures 0xA400 <= w < 0xA600 && w % 0x200 * 0x10000 + v >= 0x100000 ==> Decode(w, v) == Do(Illegal, 2)
    ensures 0xB400 <= w < 0xB440 && w % 0x40 * 0x10000 + v >= 64 ==> Decode(w, v) == Do(Illegal, 2)
  {
  }

  // ------------------------------------------------------------------- runs

  /** What word `j` of item `i` of a run has added: by the number of the run, 0 to
      5 in the order of their codes. */
  function Share(env: Bases, sub: nat, imp: nat, i: nat, j: nat): u32
    requires sub <= 5 && |env.sec| >= 2 && (sub == 5 ==> imp + i < |env.imp|)
  {
    if sub == 0 then env.sec[0]
    else if sub == 1 then env.sec[1]
    else if sub == 2 then (if j == 0 then env.sec[0] else if j == 1 then env.sec[1] else 0)
    else if sub == 3 then (if j == 0 then env.sec[0] else env.sec[1])
    else if sub == 4 then (if j == 0 then env.sec[1] else 0)
    else env.imp[imp + i]
  }

  /** Bytes of an item of a run. */
  function ItemSize(sub: nat): nat { if sub == 2 then 12 else if sub == 3 || sub == 4 then 8 else 4 }

  lemma {:induction false} RunApart(k: Kind, pos: nat, imp: nat, n: nat, i: nat, j: nat)
    requires i < n && 4 * j < Stride(k)
    ensures ApartFrom(RunFixes(k, pos, imp, n), pos + Stride(k) * i + 4 * j)
  {
    RunGrid(k, pos, imp, n);
    hide RunFixes;
    var fs, p := RunFixes(k, pos, imp, n), pos + Stride(k) * i + 4 * j;
    OffsetAligned(k, i);
    forall x | 0 <= x < |fs| ensures Apart(fs[x].pos, p) {
      assert (fs[x].pos - pos) % 4 == 0;
    }
  }

  lemma {:induction false} RunGrid(k: Kind, pos: nat, imp: nat, n: nat)
    ensures forall x :: 0 <= x < |RunFixes(k, pos, imp, n)| ==>
              (RunFixes(k, pos, imp, n)[x].pos - pos) % 4 == 0
              && pos <= RunFixes(k, pos, imp, n)[x].pos && RunFixes(k, pos, imp, n)[x].pos + 4 <= pos + Offset(k, n)
  {
    if n > 0 {
      RunGrid(k, pos, imp, n - 1);
      OffsetAligned(k, n - 1);
      NextOffset(k, n - 1);
      hide Offset;
    }
  }

  lemma {:induction false} NextOffset(k: Kind, n: nat)
    ensures Offset(k, n + 1) == Offset(k, n) + Stride(k) && Stride(k) >= 4
    ensures k.TVector12? ==> Stride(k) == 12
    ensures k.TVector8? || k.VTable8? ==> Stride(k) == 8
  {
  }

  lemma {:induction false} TotalAppend(env: Bases, a: seq<Fixup>, b: seq<Fixup>, p: nat)
    ensures Total(env, a + b, p) == Add32(Total(env, a, p), Total(env, b, p))
  {
    if b == [] {
      assert a + b == a;
      Sum32(Total(env, a, p), 0, 0);
    } else {
      var f := b[|b| - 1];
      TotalAppend(env, a, b[..|b| - 1], p);
      assert (a + b)[..|a + b| - 1] == a + b[..|b| - 1];
      Sum32(Total(env, a, p), Total(env, b[..|b| - 1], p), env.Value(f.base));
    }
    hide Add32;
  }

  lemma {:induction false} Sum32(x: u32, y: u32, z: u32)
    ensures Add32(Add32(x, y), z) == Add32(x, Add32(y, z)) && Add32(x, 0) == x == Add32(0, x)
  {
    AddAssoc(x, y, z);
  }

  lemma {:induction false} TotalNone(env: Bases, fs: seq<Fixup>, p: nat)
    requires forall x :: 0 <= x < |fs| ==> fs[x].pos != p
    ensures Total(env, fs, p) == 0
  {
    if fs != [] {
      TotalNone(env, fs[..|fs| - 1], p);
    }
  }

  /** The words of one item. */
  lemma {:induction false} ItemTotal(env: Bases, sub: nat, imp: nat, p: nat, j: nat)
    requires sub <= 5 && |env.sec| >= 2 && (sub == 5 ==> imp < |env.imp|) && 4 * j < ItemSize(sub)
    ensures Stride(RunKind(sub)) == ItemSize(sub)
    ensures Total(env, ItemFixes(RunKind(sub), p, imp), p + 4 * j) == Share(env, sub, imp, 0, j)
  {
    var fs := ItemFixes(RunKind(sub), p, imp);
    assert fs[..|fs| - 1] == if |fs| == 2 then [fs[0]] else [];
    assert |fs| == 2 ==> [fs[0]][..0] == [];
    Zero32(env.Value(fs[|fs| - 1].base));
    Zero32(env.Value(fs[0].base));
    hide Add32;
    if |fs| == 2 {
      OneTotal(env, fs[0], p + 4 * j);
    }
  }

  lemma {:induction false} OneTotal(env: Bases, f: Fixup, p: nat)
    ensures Total(env, [f], p) == if f.pos == p then env.Value(f.base) else 0
  {
    assert [f][..0] == [];
    Zero32(env.Value(f.base));
    hide Add32;
    assert Total(env, [f][..0], p) == 0;
  }

  lemma {:induction false} Zero32(v: u32)
    ensures Add32(0, v) == v == Add32(v, 0)
  {
  }

  /** The sum added to word `j` of item `i` of a run is its share. */
  lemma {:induction false} RunTotal(env: Bases, sub: nat, pos: nat, imp: nat, n: nat, i: nat, j: nat)
    requires sub <= 5 && |env.sec| >= 2 && (sub == 5 ==> imp + n <= |env.imp|) && i < n && 4 * j < ItemSize(sub)
    ensures Total(env, RunFixes(RunKind(sub), pos, imp, n), pos + ItemSize(sub) * i + 4 * j) == Share(env, sub, imp, i, j)
  {
    hide RunFixes, Total, ItemFixes, Add32, Share, RunKind, Stride, Offset;
    var k, p := RunKind(sub), pos + ItemSize(sub) * i + 4 * j;
    var pre, item := RunFixes(k, pos, imp, n - 1), ItemFixes(k, pos + Offset(k, n - 1), imp + n - 1);
    RunFixesStep(k, pos, imp, n - 1, env, []);
    TotalAppend(env, pre, item, p);
    Zero32(Share(env, sub, imp, i, j));
    if i == n - 1 {
      LastTotal(env, sub, pos, imp, n - 1, j);
    } else {
      RunTotal(env, sub, pos, imp, n - 1, i, j);
      EarlierWord(sub, n - 1, i, j);
      ItemBeyond(k, pos + Offset(k, n - 1), imp + n - 1);
      TotalNone(env, item, p);
    }
  }

  /** In its last item only that item adds. */
  lemma {:induction false} LastTotal(env: Bases, sub: nat, pos: nat, imp: nat, n: nat, j: nat)
    requires sub <= 5 && |env.sec| >= 2 && (sub == 5 ==> imp + n < |env.imp|) && 4 * j < ItemSize(sub)
    ensures var k, p := RunKind(sub), pos + ItemSize(sub) * n + 4 * j;
      && Total(env, RunFixes(k, pos, imp, n), p) == 0
      && Total(env, ItemFixes(k, pos + Offset(k, n), imp + n), p) == Share(env, sub, imp, n, j)
  {
    hide RunFixes, Total, ItemFixes, Add32, RunKind, Offset;
    var k, p := RunKind(sub), pos + ItemSize(sub) * n + 4 * j;
    ItemTotal(env, sub, imp + n, pos + Offset(k, n), j);
    LastWord(k, n, j);
    RunGrid(k, pos, imp, n);
    TotalNone(env, RunFixes(k, pos, imp, n), p);
  }

  lemma {:induction false} LastWord(k: Kind, n: nat, j: nat)
    ensures Offset(k, n) == Stride(k) * n
  {
  }

  lemma {:induction false} EarlierWord(sub: nat, n: nat, i: nat, j: nat)
    requires sub <= 5 && i < n && 4 * j < ItemSize(sub)
    ensures ItemSize(sub) * i + 4 * j < Offset(RunKind(sub), n)
  {
  }

  lemma {:induction false} ItemBeyond(k: Kind, p: nat, imp: nat)
    ensures forall x :: 0 <= x < |ItemFixes(k, p, imp)| ==> ItemFixes(k, p, imp)[x].pos >= p
  {
  }

  /** RelocBySectDWithSkip and the RelocRun group. A code below 0x4000 skips its
      first 8 bits in words and relocates as many words as its last 6 bits say by
      the second section's base; the codes from 0x4000 on relocate items of kind 0
      to 5 where they stand. If all fit, each word has its share added and no
      other byte changes, the position moves behind the items, and the import
      index by their number if they are imports. */
  lemma {:induction false} RunAdds(cs: ChunkStream, sub: nat, skip: nat, n: nat, d: u32, c: Cursor, env: Bases, buf: seq<byte>)
    requires cs.Valid() && cs.nchunks == 1 && sub <= 5 && |env.sec| >= 2 && (sub == 5 ==> c.imp + n <= |env.imp|)
    requires (cs.At(0) < 0x4000 && sub == 1 && skip == cs.At(0) / 64 * 4 && n == cs.At(0) % 64)
             || (skip == 0 && 1 <= n <= 512 && cs.At(0) == 0x4000 + 0x200 * sub + (n - 1))
    ensures var o, pos := Ran(cs, d, |buf|, c), ((c.addr + skip) % 0x1_0000_0000 - d) % 0x1_0000_0000;
      var now := Patch(env, buf, o.fixes);
      && (o.ok <==> n == 0 || pos + ItemSize(sub) * n <= |buf|)
      && (o.ok ==> o.cur == Cursor((c.addr + skip + ItemSize(sub) * n) % 0x1_0000_0000, if sub == 5 then c.imp + n else c.imp))
      && (o.ok ==> forall i: nat, j: nat :: i < n && 4 * j < ItemSize(sub) ==> WordAdded(buf, now, env, sub, pos, c.imp, i, j))
      && (o.ok ==> forall k: nat :: k < |buf| && !(pos <= k < pos + ItemSize(sub) * n) ==> now[k] == buf[k])
  {
    hide Ran, Patch, Decode, RunFixes, Fitting, RunKind, Stride, Offset, WordAdded;
    RunCode(cs.At(0), cs.At(1), sub, skip, n);
    var k := RunKind(sub);
    OneInstruction(cs, Words(skip, k, n), d, |buf|, c);
    var a := Add32(c.addr, skip);
    var pos := Sub32(a, d);
    RunShape(sub, pos, n, |buf|);
    if Fitting(k, pos, n, |buf|) == n {
      Twice(c.addr, skip, Offset(k, n));
      forall i: nat, j: nat | i < n && 4 * j < ItemSize(sub)
        ensures WordAdded(buf, Patch(env, buf, RunFixes(k, pos, c.imp, n)), env, sub, pos, c.imp, i, j)
      {
        RunWord(env, buf, sub, pos, c.imp, n, i, j);
      }
      RunFrame(env, buf, k, pos, c.imp, n);
    }
  }

  /** Word `j` of item `i` has its share added. */
  ghost predicate WordAdded(was: seq<byte>, now: seq<byte>, env: Bases, sub: nat, pos: nat, imp: nat, i: nat, j: nat)
    requires sub <= 5 && |env.sec| >= 2 && (sub == 5 ==> imp + i < |env.imp|)
  {
    var p := pos + ItemSize(sub) * i + 4 * j;
    p + 4 <= |was| == |now| && Rd32(now, p) == (Rd32(was, p) + Share(env, sub, imp, i, j)) % 0x1_0000_0000
  }

  lemma {:induction false} RunCode(w: u16, next: u16, sub: nat, skip: nat, n: nat)
    requires sub <= 5
    requires (w < 0x4000 && sub == 1 && skip == w / 64 * 4 && n == w % 64)
             || (skip == 0 && 1 <= n <= 512 && w == 0x4000 + 0x200 * sub + (n - 1))
    ensures Decode(w, next) == Do(Words(skip, RunKind(sub), n), 1)
    ensures RunKind(sub).ImportRun? <==> sub == 5
  {
    hide Stride;
  }

  lemma {:induction false} RunShape(sub: nat, pos: nat, n: nat, len: nat)
    requires sub <= 5
    ensures var k := RunKind(sub);
      && Offset(k, n) == ItemSize(sub) * n && Stride(k) == ItemSize(sub)
      && (Fitting(k, pos, n, len) == n <==> n == 0 || pos + ItemSize(sub) * n <= len)
  {
    var k := RunKind(sub);
    if n > 0 {
      NextOffset(k, n - 1);
    }
    hide Fitting;
  }

  lemma {:induction false} Twice(a: u32, skip: nat, n: nat)
    ensures Add32(Add32(a, skip), n) == (a + skip + n) % 0x1_0000_0000
  {
    AddAssoc(a, skip, n);
  }

  lemma {:induction false} RunWord(env: Bases, buf: seq<byte>, sub: nat, pos: nat, imp: nat, n: nat, i: nat, j: nat)
    requires sub <= 5 && |env.sec| >= 2 && (sub == 5 ==> imp + n <= |env.imp|) && i < n && 4 * j < ItemSize(sub)
    requires pos + ItemSize(sub) * n <= |buf|
    ensures WordAdded(buf, Patch(env, buf, RunFixes(RunKind(sub), pos, imp, n)), env, sub, pos, imp, i, j)
  {
    hide RunFixes, Total, Patch, Rd32, Share, Offset;
    var k, p := RunKind(sub), pos + ItemSize(sub) * i + 4 * j;
    WordInside(sub, n, i, j);
    RunApart(k, pos, imp, n, i, j);
    RunTotal(env, sub, pos, imp, n, i, j);
    PatchedWord(env, buf, RunFixes(k, pos, imp, n), p);
  }

  lemma {:induction false} WordInside(sub: nat, n: nat, i: nat, j: nat)
    requires sub <= 5 && i < n && 4 * j < ItemSize(sub)
    ensures ItemSize(sub) * i + 4 * j + 4 <= ItemSize(sub) * n && Stride(RunKind(sub)) == ItemSize(sub)
  {
    Multiples(ItemSize(sub), n - i);
    assert ItemSize(sub) * (n - i) == ItemSize(sub) * n - ItemSize(sub) * i;
  }

  lemma {:induction false} RunFrame(env: Bases, buf: seq<byte>, k: Kind, pos: nat, imp: nat, n: nat)
    ensures forall u: nat :: u < |buf| && !(pos <= u < pos + Offset(k, n)) ==>
              Patch(env, buf, RunFixes(k, pos, imp, n))[u] == buf[u]
  {
    hide RunFixes, Patch, Offset;
    RunGrid(k, pos, imp, n);
    forall u: nat | u < |buf| && !(pos <= u < pos + Offset(k, n))
      ensures Patch(env, buf, RunFixes(k, pos, imp, n))[u] == buf[u]
    {
      PatchFrame(env, buf, RunFixes(k, pos, imp, n), u);
    }
  }

  // ----------------------------------------------------------------- repeats

  /** The words [start, pc) are whole instructions: a walk of them ends at `pc`. */
  predicate EndsAt(cs: ChunkStream, start: nat, pc: nat)
    requires cs.Valid()
    decreases pc - start
  {
    if start >= pc then start == pc
    else EndsAt(cs, start + Decode(cs.At(start), cs.At(start + 1)).size, pc)
  }

  lemma {:induction false} UnrollSplit(cs: ChunkStream, start: nat, pc: nat, end: nat)
    requires cs.Valid() && start <= pc <= end && EndsAt(cs, start, pc)
    ensures Unroll(cs, start, end) == Unroll(cs, start, pc) + Unroll(cs, pc, end)
    decreases pc - start
  {
    hide Decode, Unroll, Block;
    if start == pc {
      UnrollEnd(cs, pc, pc);
      assert [] + Unroll(cs, pc, end) == Unroll(cs, pc, end);
    } else {
      var next := start + Decode(cs.At(start), cs.At(start + 1)).size;
      UnrollStep(cs, start, end);
      UnrollStep(cs, start, pc);
      WholeStep(cs, start, pc);
      UnrollSplit(cs, next, pc, end);
      Assoc(Block(cs, start), Unroll(cs, next, pc), Unroll(cs, pc, end));
    }
  }

  lemma {:induction false} WholeStep(cs: ChunkStream, start: nat, pc: nat)
    requires cs.Valid() && start < pc && EndsAt(cs, start, pc)
    ensures var next := start + Decode(cs.At(start), cs.At(start + 1)).size;
      next <= pc && EndsAt(cs, next, pc)
  {
  }

  /** RelocSmRepeat and RelocLgRepeat, number of words and times read off the code:
      the words before it, whole instructions, are in the end carried out once and
      then as many times again. */
  lemma {:induction false} RepeatsBlock(cs: ChunkStream, pc: nat, words: nat, times: nat, size: nat)
    requires cs.Valid() && words <= pc < 0x1_0000_0000 && EndsAt(cs, pc - words, pc)
    requires var w, v := cs.At(pc), cs.At(pc + 1);
      (size == 1 && 0x9000 <= w < 0xA000 && words == w / 0x100 % 0x10 + 1 && times == w % 0x100 + 1)
      || (size == 2 && 0xB000 <= w < 0xB200 && words == w / 0x40 % 0x10 + 1 && times == w % 0x40 * 0x10000 + v)
    ensures Unroll(cs, pc, pc + size) == Times(times, Unroll(cs, pc - words, pc))
    ensures Unroll(cs, pc - words, pc + size) == Times(times + 1, Unroll(cs, pc - words, pc))
  {
    var w, v := cs.At(pc), cs.At(pc + 1);
    RepeatCode(w, v, words, times, size);
    hide Decode, Unroll, Times, EndsAt;
    RepeatUnrolls(cs, pc, words, times, size);
  }

  lemma {:induction false} RepeatUnrolls(cs: ChunkStream, pc: nat, words: nat, times: nat, size: nat)
    requires cs.Valid() && words <= pc < 0x1_0000_0000 && EndsAt(cs, pc - words, pc)
    requires size >= 1 && Decode(cs.At(pc), cs.At(pc + 1)) == Repeat(words, times, size)
    ensures Unroll(cs, pc, pc + size) == Times(times, Unroll(cs, pc - words, pc))
    ensures Unroll(cs, pc - words, pc + size) == Times(times + 1, Unroll(cs, pc - words, pc))
  {
    hide Decode, Unroll, BlockStart, Times, EndsAt, Block;
    InRange(pc, words);
    RepeatBlock(cs, pc, words, times, size);
    UnrollLast(cs, pc, size);
    UnrollSplit(cs, pc - words, pc, pc + size);
    TimesFront(times, Unroll(cs, pc - words, pc));
  }

  /** The last instruction of a range. */
  lemma {:induction false} UnrollLast(cs: ChunkStream, pc: nat, size: nat)
    requires cs.Valid() && size >= 1 && Decode(cs.At(pc), cs.At(pc + 1)).size == size
    ensures Unroll(cs, pc, pc + size) == Block(cs, pc)
  {
    hide Decode, Unroll, Block, ChunkStream.At;
    UnrollStep(cs, pc, pc + size);
    UnrollEnd(cs, pc + size, pc + size);
    assert Block(cs, pc) + [] == Block(cs, pc);
  }

  lemma {:induction false} RepeatBlock(cs: ChunkStream, pc: nat, words: nat, times: nat, size: nat)
    requires cs.Valid() && Decode(cs.At(pc), cs.At(pc + 1)) == Repeat(words, times, size)
    ensures Block(cs, pc) == Times(times, Unroll(cs, BlockStart(pc, words), pc))
  {
  }

  lemma {:induction false} RepeatCode(w: u16, v: u16, words: nat, times: nat, size: nat)
    requires (size == 1 && 0x9000 <= w < 0xA000 && words == w / 0x100 % 0x10 + 1 && times == w % 0x100 + 1)
             || (size == 2 && 0xB000 <= w < 0xB200 && words == w / 0x40 % 0x10 + 1 && times == w % 0x40 * 0x10000 + v)
    ensures Decode(w, v) == Repeat(words, times, size)
  {
  }

  lemma {:induction false} InRange(pc: nat, words: nat)
    requires words <= pc < 0x1_0000_0000
    ensures BlockStart(pc, words) == pc - words
  {
  }

  lemma {:induction false} TimesFront<T>(n: nat, s: seq<T>)
    ensures Times(n + 1, s) == s + Times(n, s)
  {
    if n == 0 {
      assert [] + s == s == s + [];
    } else {
      TimesFront(n - 1, s);
      Assoc(s, Times(n - 1, s), s);
    }
  }

  /** A repeat that reaches back before the start of the stream carries out nothing. */
  lemma {:induction false} RepeatsNothing(cs: ChunkStream, pc: nat, words: nat, times: nat, size: nat)
    requires cs.Valid() && pc < words && Decode(cs.At(pc), cs.At(pc + 1)) == Repeat(words, times, size)
    ensures Unroll(cs, pc, pc + size) == []
  {
    hide Decode, Unroll, Times, Block;
    RepeatBlock(cs, pc, words, times, size);
    UnrollLast(cs, pc, size);
    BeforeStart(cs, pc, words, times, size);
    UnrollEnd(cs, BlockStart(pc, words), pc);
    TimesNone(times, Unroll(cs, BlockStart(pc, words), pc));
  }

  lemma {:induction false} BeforeStart(cs: ChunkStream, pc: nat, words: nat, times: nat, size: nat)
    requires cs.Valid() && pc < words && Decode(cs.At(pc), cs.At(pc + 1)) == Repeat(words, times, size)
    ensures size >= 1 && BlockStart(pc, words) >= pc
  {
    hide Unroll;
  }

  lemma {:induction false} TimesNone<T>(n: nat, none: seq<T>)
    requires none == []
    ensures Times(n, none) == none
  {
    if n > 0 {
      TimesNone(n - 1, none);
    }
  }
}
