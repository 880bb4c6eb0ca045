/** The relocation bytecode of a PEF container: its instruction set, the
    unrolling of its repeats, and the list of patches a stream prescribes. */
module PefCode {
  import opened Bytes

  /** `count` big-endian 16-bit words. */
  datatype ChunkStream = ChunkStream(bytes: seq<byte>, nchunks: nat) {
    ghost predicate Valid() { 2 * nchunks <= |bytes| && nchunks < TWO32 }

    function At(i: nat): u16
      requires Valid()
    {
      if i >= nchunks then 0 else Rd16(bytes, 2 * i)
    }
  }

  /** Which words of one item of a run are patched, and with what. */
  datatype Kind = BySectC | BySectD | TVector12 | TVector8 | VTable8 | ImportRun

  function Stride(k: Kind): nat {
    match k
    case TVector12 => 12
    case TVector8 | VTable8 => 8
    case _ => 4
  }

  /** The distance of item `i` from the start of its run. */
  function Offset(k: Kind, i: nat): nat { Stride(k) * i }

  /** An instruction without repeats. */
  datatype Prim =
    | Words(skip: nat, kind: Kind, run: nat)
    | ByImport(idx: nat)
    | BySection(idx: nat)
    | SetSection
    | Incr(amount: nat)
    | SetPosition(off: nat)
    | Illegal

  datatype Instr =
    | Do(prim: Prim, size: nat)
    | Repeat(cc: nat, rc: nat, size: nat)

  function RunKind(sub: nat): Kind {
    if sub == 0 then BySectC else if sub == 1 then BySectD else if sub == 2 then TVector12
    else if sub == 3 then TVector8 else if sub == 4 then VTable8 else ImportRun
  }

  /** The instruction set as ranges of the 16-bit word, `next` being the second
      word of the long forms. */
  function Decode(w: u16, next: u16): (r: Instr)
    ensures r.size == 1 || r.size == 2
    ensures r.Repeat? ==> 1 <= r.cc <= 16
  {
    if w < 0x4000 then Do(Words(w / 64 * 4, BySectD, w % 64), 1)
    else if w < 0x4C00 then Do(Words(0, RunKind((w - 0x4000) / 512), w % 512 + 1), 1)
    else if 0x6000 <= w < 0x6200 then Do(ByImport(w - 0x6000), 1)
    else if 0x6200 <= w < 0x6600 then Do(SetSection, 1)
    else if w < 0x6800 then Do(BySection(w % 512), 1)
    else if 0x8000 <= w < 0x9000 then Do(Incr(w - 0x8000 + 1), 1)
    else if 0x9000 <= w < 0xA000 then Repeat((w - 0x9000) / 256 + 1, w % 256 + 1, 1)
    else if 0xA000 <= w < 0xA200 then Do(SetPosition((w - 0xA000) * 0x10000 + next), 2)
    else if 0xA400 <= w < 0xA600 then
      var idx := (w - 0xA400) * 0x10000 + next;
      Do(if idx < 0x100000 then ByImport(idx) else Illegal, 2)
    else if 0xB000 <= w < 0xB200 then Repeat((w - 0xB000) / 64 + 1, w % 64 * 0x10000 + next, 2)
    else if 0xB400 <= w < 0xB440 then
      var idx := (w - 0xB400) * 0x10000 + next;
      Do(if idx < 64 then BySection(idx) else Illegal, 2)
    else if 0xB440 <= w < 0xB600 then Do(SetSection, 2)
    else Do(Illegal, 1)
  }

  /** Where the block of a repeat at `pc` starts, in 64-bit arithmetic. */
  function BlockStart(pc: int, cc: int): u64 { (pc - cc) % TWO64 }

  /** The repeat-free instruction list of the words [pc, end). */
  function Unroll(cs: ChunkStream, pc: nat, end: nat): seq<Prim>
    requires cs.Valid()
    decreases end, end - pc
  {
    if pc >= end then []
    else
      match Decode(cs.At(pc), cs.At(pc + 1))
      case Do(p, size) => [p] + Unroll(cs, pc + size, end)
      case Repeat(cc, rc, size) =>
        Times(rc, Unroll(cs, BlockStart(pc, cc), pc)) + Unroll(cs, pc + size, end)
  }

  /** A patched word and the address added to it. */
  datatype Base = Section(i: nat) | Import(i: nat)
  datatype Fixup = Fixup(pos: nat, base: Base)
  datatype Cursor = Cursor(addr: u32, imp: nat)
  datatype Outcome = Outcome(ok: bool, cur: Cursor, fixes: seq<Fixup>)

  /** The words patched in one item at `p`, `imp` being the next import. */
  function ItemFixes(k: Kind, p: nat, imp: nat): seq<Fixup> {
    match k
    case BySectC => [Fixup(p, Section(0))]
    case BySectD | VTable8 => [Fixup(p, Section(1))]
    case TVector12 | TVector8 => [Fixup(p, Section(0)), Fixup(p + 4, Section(1))]
    case ImportRun => [Fixup(p, Import(imp))]
  }

  /** Item `i` of a run at `pos` ends inside the buffer. */
  predicate Fits(k: Kind, pos: nat, i: nat, len: nat) {
    pos + Offset(k, i) + Stride(k) <= len
  }

  /** How many of the first `run` items are patched before one leaves the buffer. */
  function Fitting(k: Kind, pos: nat, run: nat, len: nat): (n: nat)
    ensures n <= run && (n > 0 ==> Fits(k, pos, n - 1, len)) && (n < run ==> !Fits(k, pos, n, len))
  {
    if run == 0 || Fits(k, pos, run - 1, len) then run else Fitting(k, pos, run - 1, len)
  }

  function RunFixes(k: Kind, pos: nat, imp: nat, n: nat): seq<Fixup> {
    if n == 0 then [] else RunFixes(k, pos, imp, n - 1) + ItemFixes(k, pos + Offset(k, n - 1), imp + n - 1)
  }

  /** One instruction, at cursor `c` of a section whose default address is `d`. */
  function Step(p: Prim, d: u32, len: nat, c: Cursor): Outcome {
    match p
    case Words(skip, kind, run) =>
      var a := Add32(c.addr, skip);
      var n := Fitting(kind, Sub32(a, d), run, len);
      Outcome(n == run,
              if n < run then Cursor(a, c.imp)
              else Cursor(Add32(a, Offset(kind, run)), if kind.ImportRun? then c.imp + run else c.imp),
              RunFixes(kind, Sub32(a, d), c.imp, n))
    case ByImport(idx) =>
      var pos := Sub32(c.addr, d);
      if pos + 4 > len then Outcome(false, c, [])
      else Outcome(true, Cursor(Add32(c.addr, 4), idx + 1), [Fixup(pos, Import(idx))])
    case BySection(idx) =>
      var pos := Sub32(c.addr, d);
      if pos + 4 > len then Outcome(false, c, [])
      else Outcome(true, Cursor(Add32(c.addr, 4), c.imp), [Fixup(pos, Section(idx))])
    case SetSection => Outcome(true, c, [])
    case Incr(n) => Outcome(true, Cursor(Add32(c.addr, n), c.imp), [])
    case SetPosition(off) => Outcome(true, Cursor(Add32(d, off), c.imp), [])
    case Illegal => Outcome(false, c, [])
  }

  /** The fold of the instructions, stopping at the first one that fails. */
  function Trace(ps: seq<Prim>, d: u32, len: nat, c: Cursor): Outcome {
    if ps == [] then Outcome(true, c, [])
    else
      var s := Step(ps[0], d, len, c);
      if !s.ok then s
      else
        var t := Trace(ps[1..], d, len, s.cur);
        Outcome(t.ok, t.cur, s.fixes + t.fixes)
  }

  /** Section bases and resolved import addresses. */
  datatype Bases = Bases(sec: seq<u32>, imp: seq<u32>) {
    predicate Has(b: Base) {
      match b
      case Section(i) => i < |sec|
      case Import(i) => i < |imp|
    }

    function Value(b: Base): u32 {
      match b
      case Section(i) => if i < |sec| then sec[i] else 0
      case Import(i) => if i < |imp| then imp[i] else 0
    }
  }

  predicate Within(fs: seq<Fixup>, len: nat) {
    forall i :: 0 <= i < |fs| ==> fs[i].pos + 4 <= len
  }

  predicate Resolves(env: Bases, fs: seq<Fixup>) {
    forall i :: 0 <= i < |fs| ==> env.Has(fs[i].base)
  }

  /** `v` added to the word at `pos`; traces never patch outside the buffer. */
  function PatchOne(buf: seq<byte>, pos: nat, v: u32): (r: seq<byte>)
    ensures |r| == |buf|
  {
    if pos + 4 <= |buf| then Put32(buf, pos, Add32(Rd32(buf, pos), v)) else buf
  }

  /** The buffer after the patches, first to last. */
  function Patch(env: Bases, buf: seq<byte>, fs: seq<Fixup>): (r: seq<byte>)
    ensures |r| == |buf|
  {
    if fs == [] then buf
    else
      var f := fs[|fs| - 1];
      PatchOne(Patch(env, buf, fs[..|fs| - 1]), f.pos, env.Value(f.base))
  }
}
