/** Rebasing the 68K jump tables of a ROM image in place. */
module RomJumpTables {
  import opened Bytes

  const HEADER: seq<byte> := [0x41, 0xFA, 0x00, 0x0E, 0x21, 0xC8, 0x20, 0x10, 0x4E, 0x75]
  const NEXT_TABLE: u32 := 0x41FA000E
  const ROM_BASE: u32 := 0x40800000

  predicate HeaderAt(r: seq<byte>, off: nat) {
    off + 10 <= |r| && forall k :: 0 <= k < 10 ==> r[off + k] == HEADER[k]
  }

  /** A table entry still in its ROM-relative form. */
  predicate Raw(r: seq<byte>, lp: nat) { lp + 4 <= |r| && Rd32(r, lp) / 0x1000000 == 0xFF }

  predicate ZeroAt(r: seq<byte>, lp: nat) { lp + 4 <= |r| && Rd32(r, lp) == 0 }

  predicate TableAt(r: seq<byte>, lp: nat) { lp + 4 <= |r| && Rd32(r, lp) == NEXT_TABLE }

  function Rebased(w: u32, base: u32): u32 { Add32(w % 0x400000, base) }

  /** The contiguous raw entries from `lp`, rewritten; and where they end. */
  function RebaseRun(r: seq<byte>, lp: nat, base: u32): (q: seq<byte>)
    ensures |q| == |r|
    decreases |r| - lp
  {
    if Raw(r, lp) then RebaseRun(Put32(r, lp, Rebased(Rd32(r, lp), base)), lp + 4, base) else r
  }

  function RunEnd(r: seq<byte>, lp: nat, base: u32): (n: nat)
    ensures n >= lp
    decreases |r| - lp
  {
    if Raw(r, lp) then RunEnd(Put32(r, lp, Rebased(Rd32(r, lp), base)), lp + 4, base) else lp
  }

  function SkipZeros(r: seq<byte>, lp: nat): (n: nat)
    ensures n >= lp && !ZeroAt(r, n)
    decreases |r| - lp
  {
    if ZeroAt(r, lp) then SkipZeros(r, lp + 4) else lp
  }

  /** The blocks of one table, from `lp` on. */
  function Walk(r: seq<byte>, lp: nat, base: u32): (q: seq<byte>)
    ensures |q| == |r|
    decreases |r| - lp
  {
    var r1 := RebaseRun(r, lp, base);
    var l := SkipZeros(r1, RunEnd(r, lp, base));
    if TableAt(r1, l) then Walk(r1, l + 4, base) else r1
  }

  /** The pass over the image from `off` on. */
  function Pass(r: seq<byte>, off: nat, base: u32): (q: seq<byte>)
    ensures |q| == |r|
    decreases |r| - off
  {
    if off + 20 > |r| then r
    else Pass(if HeaderAt(r, off) then Walk(r, off + 16, base) else r, off + 2, base)
  }

  method RebaseEntries(rom: array<byte>, start: nat, base: u32) returns (lp: nat)
    requires rom.Length + 4 < TWO32
    modifies rom
    ensures rom[..] == RebaseRun(old(rom[..]), start, base)
    ensures lp == RunEnd(old(rom[..]), start, base)
  {
    lp := start;
    ghost var was := rom[..];
    while lp + 4 <= rom.Length
      invariant RebaseRun(rom[..], lp, base) == RebaseRun(was, start, base)
      invariant RunEnd(rom[..], lp, base) == RunEnd(was, start, base)
      decreases rom.Length - lp
    {
      var w := Read32(rom, lp);
      if w / 0x1000000 != 0xFF {
        return;
      }
      Write32(rom, lp, Rebased(w, base));
      lp := lp + 4;
    }
  }

  method SkipPadding(rom: array<byte>, start: nat) returns (lp: nat)
    ensures lp == SkipZeros(rom[..], start)
  {
    lp := start;
    while lp + 4 <= rom.Length
      invariant SkipZeros(rom[..], lp) == SkipZeros(rom[..], start)
      decreases rom.Length - lp
    {
      var w := Read32(rom, lp);
      if w != 0 {
        return;
      }
      lp := lp + 4;
    }
  }

  method RelocateTable(rom: array<byte>, start: nat, base: u32)
    requires rom.Length + 4 < TWO32
    modifies rom
    ensures rom[..] == Walk(old(rom[..]), start, base)
  {
    var lp := start;
    ghost var was := rom[..];
    while true
      invariant Walk(rom[..], lp, base) == Walk(was, start, base)
      decreases rom.Length - lp
    {
      lp := RebaseEntries(rom, lp, base);
      lp := SkipPadding(rom, lp);
      if lp + 4 > rom.Length {
        return;
      }
      var w := Read32(rom, lp);
      if w != NEXT_TABLE {
        return;
      }
      lp := lp + 4;
    }
  }

  /** Find every table header at an even offset and relocate its table. */
  method RomRelocateJumpTables(rom: array<byte>, base: u32)
    requires rom.Length + 4 < TWO32
    modifies rom
    ensures rom[..] == Pass(old(rom[..]), 0, base)
  {
    ghost var was := rom[..];
    var off := 0;
    while off + 20 <= rom.Length
      invariant Pass(rom[..], off, base) == Pass(was, 0, base)
      decreases rom.Length - off
    {
      var k := 0;
      while k < 10 && rom[off + k] == HEADER[k]
        invariant k <= 10 && forall j :: 0 <= j < k ==> rom[off + j] == HEADER[j]
      {
        k := k + 1;
      }
      assert HeaderAt(rom[..], off) <==> k == 10;
      if k == 10 {
        RelocateTable(rom, off + 16, base);
      }
      off := off + 2;
    }
  }

  /** A base under which rebasing an entry changes its first halfword only, to a
      value that is neither zero, nor raw, nor a halfword of the header. */
  predicate SafeBase(base: u32) {
    && base % 0x400000 == 0 && base / 0x1000000 != 0xFF
    && base / 0x400000 !in {0, 0x2010 / 64, 0x21C8 / 64, 0x41FA / 64, 0x4E75 / 64}
  }

  lemma {:induction false} RomBaseSafe()
    ensures SafeBase(ROM_BASE)
  {
  }

  /** The bytes of the halfword a raw entry's first halfword, 0xFF `b`, becomes. */
  function NewHi(base: u32): byte { base / 0x1000000 }

  function NewLo(base: u32, b: byte): int { base / 0x10000 % 0x100 + b % 64 }

  /** The halfword at `i` is as it was, or began a raw entry and is rebased. */
  predicate HalfStep(r: seq<byte>, q: seq<byte>, i: nat, base: u32)
    requires i + 1 < |r| == |q|
  {
    if q[i] == r[i] then q[i + 1] == r[i + 1]
    else r[i] == 0xFF && q[i] == NewHi(base) && q[i + 1] == NewLo(base, r[i + 1])
  }

  /** `q` is `r` with some of its even halfwords rebased. */
  ghost predicate Settles(r: seq<byte>, q: seq<byte>, base: u32) {
    && |r| == |q|
    && (forall i :: 0 <= i < |r| - 1 && i % 2 == 0 ==> HalfStep(r, q, i, base))
    && (|r| % 2 == 1 ==> r[|r| - 1] == q[|r| - 1])
  }

  lemma {:induction false} RawByte(r: seq<byte>, lp: nat)
    requires lp + 4 <= |r|
    ensures Raw(r, lp) <==> r[lp] == 0xFF
    ensures ZeroAt(r, lp) <==> r[lp] == r[lp + 1] == r[lp + 2] == r[lp + 3] == 0
    ensures TableAt(r, lp) <==> r[lp] == 0x41 && r[lp + 1] == 0xFA && r[lp + 2] == 0 && r[lp + 3] == 0x0E
  {
    WordBytes(r[lp], r[lp + 1], r[lp + 2], r[lp + 3]);
    WordBytes(0x41, 0xFA, 0, 0x0E);
  }

  lemma {:induction false} RebasedBytes(a: byte, b: byte, c: byte, d: byte, base: u32)
    requires SafeBase(base)
    ensures var v := Rebased(Word(a, b, c, d), base);
      && v / 0x1000000 == NewHi(base) && v / 0x10000 % 0x100 == NewLo(base, b)
      && v / 0x100 % 0x100 == c && v % 0x100 == d
  {
    var k := BaseParts(base);
    RebasedWord(a, b, c, d, k);
    hide Rebased, Word;
    WordBytes(k / 4, k % 4 * 64 + b % 64, c, d);
  }

  lemma {:induction false} RebasedWord(a: byte, b: byte, c: byte, d: byte, k: nat)
    requires k < 0x400
    ensures Rebased(Word(a, b, c, d), k * 0x400000) == Word(k / 4, k % 4 * 64 + b % 64, c, d)
  {
    var x := b % 64 * 0x10000 + c * 0x100 + d;
    Low22(4 * a + b / 64, x);
    assert Word(a, b, c, d) == 0x400000 * (4 * a + b / 64) + x;
    assert Word(k / 4, k % 4 * 64 + b % 64, c, d) == k * 0x400000 + x;
  }

  lemma {:induction false} BaseParts(base: u32) returns (k: nat)
    requires base % 0x400000 == 0
    ensures k == base / 0x400000 < 0x400 && base == k * 0x400000
    ensures NewHi(base) == k / 4 && base / 0x10000 % 0x100 == k % 4 * 64
  {
    k := base / 0x400000;
    assert base == k * 0x400000;
    assert base / 0x10000 == 64 * k;
    assert base / 0x1000000 == k / 4;
  }

  lemma {:induction false} Low22(q: nat, x: nat)
    requires x < 0x400000
    ensures (0x400000 * q + x) % 0x400000 == x
  {
  }

  /** Rebasing one entry rebases the halfword it begins with. */
  lemma {:induction false} EntrySettles(r: seq<byte>, lp: nat, base: u32)
    requires SafeBase(base) && Raw(r, lp) && lp % 2 == 0
    ensures var q := Put32(r, lp, Rebased(Rd32(r, lp), base));
      Settles(r, q, base) && q[lp] == NewHi(base) && !ZeroAt(q, lp) && !TableAt(q, lp)
  {
    hide Rebased, SafeBase, NewHi, NewLo;
    RawByte(r, lp);
    NewHalf(r[lp + 1], base);
    RebasedBytes(r[lp], r[lp + 1], r[lp + 2], r[lp + 3], base);
    var v := Rebased(Rd32(r, lp), base);
    var q := Put32(r, lp, v);
    assert q[lp] == v / 0x1000000 && q[lp + 1] == v / 0x10000 % 0x100 && q[lp + 2] == r[lp + 2] && q[lp + 3] == r[lp + 3];
    hide Rd32;
    RawByte(q, lp);
  }

  /** A rebased halfword is not one the pass looks for. */
  lemma {:induction false} NewHalf(b: byte, base: u32)
    requires SafeBase(base)
    ensures NewHi(base) != 0xFF
    ensures !(NewHi(base) == 0 && NewLo(base, b) == 0) && !(NewHi(base) == 0 && NewLo(base, b) == 0x0E)
    ensures !(NewHi(base) == 0x41 && NewLo(base, b) == 0xFA) && !(NewHi(base) == 0x21 && NewLo(base, b) == 0xC8)
    ensures !(NewHi(base) == 0x20 && NewLo(base, b) == 0x10) && !(NewHi(base) == 0x4E && NewLo(base, b) == 0x75)
  {
    var k := BaseParts(base);
  }

  lemma {:induction false} SettlesRefl(r: seq<byte>, base: u32)
    ensures Settles(r, r, base)
  {
  }

  lemma {:induction false} SettlesLength(r: seq<byte>, s: seq<byte>, base: u32)
    requires Settles(r, s, base)
    ensures |r| == |s|
  {
  }

  lemma {:induction false} SettlesTrans(r: seq<byte>, q: seq<byte>, s: seq<byte>, base: u32)
    requires SafeBase(base) && Settles(r, q, base) && Settles(q, s, base)
    ensures Settles(r, s, base)
  {
    NewHalf(0, base);
    hide NewHi, NewLo, SafeBase;
    forall i | 0 <= i < |r| - 1 && i % 2 == 0 ensures HalfStep(r, s, i, base) {
      assert HalfStep(r, q, i, base) && HalfStep(q, s, i, base);
    }
  }

  lemma {:induction false} RunSettles(r: seq<byte>, lp: nat, base: u32)
    requires SafeBase(base) && lp % 2 == 0
    ensures Settles(r, RebaseRun(r, lp, base), base)
    ensures RunEnd(r, lp, base) % 2 == 0
    ensures Raw(r, lp) ==>
              var q := RebaseRun(r, lp, base);
              q[lp] == NewHi(base) && !ZeroAt(q, lp) && !TableAt(q, lp)
    decreases |r| - lp
  {
    hide NewHi, NewLo, SafeBase;
    if Raw(r, lp) {
      var q := Put32(r, lp, Rebased(Rd32(r, lp), base));
      EntrySettles(r, lp, base);
      RunSettles(q, lp + 4, base);
      SettlesTrans(r, q, RebaseRun(q, lp + 4, base), base);
      assert HalfStep(q, RebaseRun(q, lp + 4, base), lp, base);
      NewHalf(0, base);
      SameMarks(q, RebaseRun(q, lp + 4, base), lp, base);
    } else {
      SettlesRefl(r, base);
    }
  }

  lemma {:induction false} SkipEven(r: seq<byte>, lp: nat)
    requires lp % 2 == 0
    ensures SkipZeros(r, lp) % 2 == 0
    decreases |r| - lp
  {
    if ZeroAt(r, lp) {
      SkipEven(r, lp + 4);
    }
  }

  /** A walk only rebases raw entries. */
  lemma {:induction false} WalkSettles(r: seq<byte>, lp: nat, base: u32)
    requires SafeBase(base) && lp % 2 == 0
    ensures Settles(r, Walk(r, lp, base), base)
    decreases |r| - lp
  {
    hide Settles, SafeBase, RebaseRun, RunEnd, SkipZeros;
    var r1 := RebaseRun(r, lp, base);
    var l := SkipZeros(r1, RunEnd(r, lp, base));
    RunSettles(r, lp, base);
    SkipEven(r1, RunEnd(r, lp, base));
    if TableAt(r1, l) {
      WalkSettles(r1, l + 4, base);
      SettlesTrans(r, r1, Walk(r1, l + 4, base), base);
    }
  }

  /** A later state of the image has the same padding, the same table marks and
      no raw entry where there was none. */
  lemma {:induction false} SameMarks(r: seq<byte>, s: seq<byte>, lp: nat, base: u32)
    requires SafeBase(base) && Settles(r, s, base) && lp % 2 == 0
    ensures ZeroAt(r, lp) <==> ZeroAt(s, lp)
    ensures TableAt(r, lp) <==> TableAt(s, lp)
    ensures !Raw(r, lp) ==> !Raw(s, lp)
  {
    hide SafeBase, Raw, ZeroAt, TableAt, NewHi, NewLo;
    SettlesLength(r, s, base);
    if lp + 4 <= |r| {
      RawByte(r, lp);
      RawByte(s, lp);
      assert HalfStep(r, s, lp, base) && HalfStep(r, s, lp + 2, base);
      NewHalf(r[lp + 1], base);
      NewHalf(r[lp + 3], base);
    } else {
      NoMarks(r, lp);
      NoMarks(s, lp);
    }
  }

  lemma {:induction false} NoMarks(r: seq<byte>, lp: nat)
    requires lp + 4 > |r|
    ensures !ZeroAt(r, lp) && !TableAt(r, lp) && !Raw(r, lp)
  {
  }

  lemma {:induction false} SameHeader(r: seq<byte>, s: seq<byte>, off: nat, base: u32)
    requires SafeBase(base) && Settles(r, s, base) && off % 2 == 0
    ensures HeaderAt(r, off) <==> HeaderAt(s, off)
  {
    hide SafeBase, NewHi, NewLo;
    if off + 10 <= |r| {
      assert HalfStep(r, s, off, base) && HalfStep(r, s, off + 2, base) && HalfStep(r, s, off + 4, base);
      assert HalfStep(r, s, off + 6, base) && HalfStep(r, s, off + 8, base);
      NewHalf(r[off + 1], base);
      NewHalf(r[off + 3], base);
      NewHalf(r[off + 5], base);
      NewHalf(r[off + 7], base);
      NewHalf(r[off + 9], base);
      HeaderBytes(r, off);
      HeaderBytes(s, off);
      hide HeaderAt;
    }
  }

  lemma {:induction false} HeaderBytes(r: seq<byte>, off: nat)
    requires off + 10 <= |r|
    ensures HeaderAt(r, off) <==>
            && r[off] == 0x41 && r[off + 1] == 0xFA && r[off + 2] == 0 && r[off + 3] == 0x0E
            && r[off + 4] == 0x21 && r[off + 5] == 0xC8 && r[off + 6] == 0x20 && r[off + 7] == 0x10
            && r[off + 8] == 0x4E && r[off + 9] == 0x75
  {
    if HeaderAt(r, off) {
      assert r[off + 0] == HEADER[0] && r[off + 1] == HEADER[1] && r[off + 2] == HEADER[2];
      assert r[off + 3] == HEADER[3] && r[off + 4] == HEADER[4] && r[off + 5] == HEADER[5];
      assert r[off + 6] == HEADER[6] && r[off + 7] == HEADER[7] && r[off + 8] == HEADER[8] && r[off + 9] == HEADER[9];
    }
  }

  lemma {:induction false} SkipSame(r: seq<byte>, s: seq<byte>, lp: nat, base: u32)
    requires SafeBase(base) && Settles(r, s, base) && lp % 2 == 0
    ensures SkipZeros(r, lp) == SkipZeros(s, lp)
    decreases |r| - lp
  {
    hide Settles, SafeBase;
    SettlesLength(r, s, base);
    SameMarks(r, s, lp, base);
    if ZeroAt(r, lp) {
      SkipSame(r, s, lp + 4, base);
    }
  }

  /** A walk that meets no raw entry first. */
  lemma {:induction false} WalkStill(s: seq<byte>, lp: nat, base: u32)
    requires !Raw(s, lp)
    ensures var l := SkipZeros(s, lp);
      Walk(s, lp, base) == if TableAt(s, l) then Walk(s, l + 4, base) else s
  {
  }

  /** Walking a table again, in any later state of the image, changes nothing. */
  lemma {:induction false} WalkQuiet(r: seq<byte>, s: seq<byte>, lp: nat, base: u32)
    requires SafeBase(base) && lp % 2 == 0 && Settles(Walk(r, lp, base), s, base)
    ensures Walk(s, lp, base) == s
    decreases |r| - lp
  {
    hide Settles, SafeBase, SkipZeros, Walk, ZeroAt, TableAt, RebaseRun, RunEnd;
    var r1 := RebaseRun(r, lp, base);
    var l := SkipZeros(r1, RunEnd(r, lp, base));
    WalkStep(r, lp, base);
    RunSettles(r, lp, base);
    SkipEven(r1, RunEnd(r, lp, base));
    if TableAt(r1, l) {
      WalkSettles(r1, l + 4, base);
      SettlesTrans(r1, Walk(r1, l + 4, base), s, base);
    }
    if Raw(r, lp) {
      FirstEntry(r1, s, lp, base);
    } else {
      SameMarks(r1, s, lp, base);
      WalkStill(s, lp, base);
      SkipSame(r1, s, lp, base);
      SameMarks(r1, s, l, base);
      if TableAt(r1, l) {
        WalkQuiet(r1, s, l + 4, base);
      }
    }
  }

  lemma {:induction false} WalkStep(r: seq<byte>, lp: nat, base: u32)
    ensures var r1 := RebaseRun(r, lp, base);
      var l := SkipZeros(r1, RunEnd(r, lp, base));
      && Walk(r, lp, base) == (if TableAt(r1, l) then Walk(r1, l + 4, base) else r1)
      && (TableAt(r1, l) ==> lp <= l < |r|)
      && (!Raw(r, lp) ==> r1 == r && l == SkipZeros(r, lp))
  {
  }

  /** A rebased entry stops a walk that meets it first. */
  lemma {:induction false} FirstEntry(q: seq<byte>, s: seq<byte>, lp: nat, base: u32)
    requires SafeBase(base) && Settles(q, s, base) && lp % 2 == 0 && lp + 4 <= |q|
    requires q[lp] == NewHi(base) && !ZeroAt(q, lp) && !TableAt(q, lp)
    ensures Walk(s, lp, base) == s
  {
    hide SafeBase, NewHi, NewLo, Walk, Raw;
    NewHalf(0, base);
    RawByte(q, lp);
    SameMarks(q, s, lp, base);
    WalkStill(s, lp, base);
  }

  /** The pass only rebases raw entries: no other halfword changes, and a
      rebased one is never rebased again. */
  lemma {:induction false} PassSettles(r: seq<byte>, off: nat, base: u32)
    requires SafeBase(base) && off % 2 == 0
    ensures Settles(r, Pass(r, off, base), base)
    decreases |r| - off
  {
    hide Settles, SafeBase, Walk, HeaderAt;
    SettlesRefl(r, base);
    if off + 20 <= |r| {
      var q := if HeaderAt(r, off) then Walk(r, off + 16, base) else r;
      WalkSettles(r, off + 16, base);
      PassSettles(q, off + 2, base);
      SettlesTrans(r, q, Pass(q, off + 2, base), base);
    }
  }

  lemma {:induction false} PassQuiet(r: seq<byte>, s: seq<byte>, off: nat, base: u32)
    requires SafeBase(base) && off % 2 == 0 && Settles(Pass(r, off, base), s, base)
    ensures Pass(s, off, base) == s
    decreases |r| - off
  {
    hide Settles, SafeBase, Walk, HeaderAt;
    SettlesLength(Pass(r, off, base), s, base);
    if off + 20 <= |r| {
      var q := if HeaderAt(r, off) then Walk(r, off + 16, base) else r;
      PassSettles(q, off + 2, base);
      SettlesTrans(q, Pass(q, off + 2, base), s, base);
      WalkSettles(r, off + 16, base);
      SettlesRefl(r, base);
      SettlesTrans(r, q, s, base);
      SameHeader(r, s, off, base);
      if HeaderAt(r, off) {
        WalkQuiet(r, s, off + 16, base);
      }
      PassQuiet(q, s, off + 2, base);
    }
  }

  /** A second pass changes nothing, whatever the image and however the tables
      in it overlap. */
  lemma {:induction false} PassIdempotent(r: seq<byte>, base: u32)
    requires SafeBase(base)
    ensures Pass(Pass(r, 0, base), 0, base) == Pass(r, 0, base)
  {
    SettlesRefl(Pass(r, 0, base), base);
    PassQuiet(r, Pass(r, 0, base), 0, base);
  }

  /** The pass keeps every table header and makes no new one. */
  lemma {:induction false} HeadersKept(r: seq<byte>, off: nat, base: u32)
    requires SafeBase(base) && off % 2 == 0
    ensures HeaderAt(Pass(r, 0, base), off) <==> HeaderAt(r, off)
  {
    PassSettles(r, 0, base);
    SameHeader(r, Pass(r, 0, base), off, base);
  }

  function WordAt(v: u32): (b: seq<byte>)
    ensures |b| == 4 && Rd32(b, 0) == v
  {
    BytesWord(v);
    [v / 0x1000000, v / 0x10000 % 0x100, v / 0x100 % 0x100, v % 0x100]
  }

  /** Under a base that leaves entries looking raw, and is no multiple of the
      4 MB an entry addresses, a second pass rebases them again. */
  lemma {:induction false} RawBaseNotIdempotent(base: u32)
    requires base / 0x1000000 == 0xFF && base % 0x400000 != 0
    ensures var r := HEADER + [0, 0, 0, 0, 0, 0] + [0xFF, 0, 0, 0];
      Pass(Pass(r, 0, base), 0, base) != Pass(r, 0, base)
  {
    var pad: seq<byte> := [0, 0, 0, 0, 0, 0];
    var e: seq<byte> := [0xFF, 0, 0, 0];
    var f, h := WordAt(base), WordAt(Rebased(base, base));
    FirstRebase(base);
    SecondRebase(base);
    hide Pass, Rebased, Rd32;
    OneEntry(pad, e, f, base);
    OneEntry(pad, f, h, base);
    assert (HEADER + pad + f)[16..] == f && (HEADER + pad + h)[16..] == h;
  }

  lemma {:induction false} FirstRebase(base: u32)
    requires base / 0x1000000 == 0xFF
    ensures Rd32([0xFF, 0, 0, 0], 0) == 0xFF000000 && Rebased(0xFF000000, base) == base
    ensures WordAt(base)[0] == 0xFF
  {
  }

  lemma {:induction false} SecondRebase(base: u32)
    requires base % 0x400000 != 0
    ensures Rebased(base, base) != base && Rd32(WordAt(base), 0) == base
  {
  }

  lemma {:induction false} OneEntry(pad: seq<byte>, e: seq<byte>, f: seq<byte>, base: u32)
    requires |pad| == 6 && |e| == 4 && |f| == 4 && e[0] == 0xFF
    requires Rebased(Rd32(e, 0), base) == Rd32(f, 0)
    ensures Pass(HEADER + pad + e, 0, base) == HEADER + pad + f
  {
    hide Rebased;
    var r, q := HEADER + pad + e, HEADER + pad + f;
    RawByte(r, 16);
    assert HeaderAt(r, 0);
    WordBytes(f[0], f[1], f[2], f[3]);
    assert Rd32(r, 16) == Rd32(e, 0);
    assert Put32(r, 16, Rd32(f, 0)) == q;
    hide Rd32, Put32, HeaderAt;
    LastEntry(r, q, base);
  }

  lemma {:induction false} LastEntry(r: seq<byte>, q: seq<byte>, base: u32)
    requires |r| == 20 && HeaderAt(r, 0) && Raw(r, 16)
    requires Put32(r, 16, Rebased(Rd32(r, 16), base)) == q
    ensures Pass(r, 0, base) == q
  {
    hide Rebased, Rd32, Put32, HeaderAt;
    assert RebaseRun(q, 20, base) == q && RunEnd(q, 20, base) == 20;
    assert SkipZeros(q, 20) == 20;
    assert Walk(r, 16, base) == q;
    assert Pass(q, 2, base) == q;
  }
}
