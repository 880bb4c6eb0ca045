/** Neutralising the rlwimi words that write bit 20 of r29. */
module RomSweep {
  import opened Bytes

  const FIRST: nat := 0x360000
  const LAST: nat := 0x380000
  const NOP: u32 := 0x60000000

  /** Instruction fields, numbered as in the PowerPC UISA. */
  function Opcode(w: u32): nat { w / 0x4000000 % 64 }

  function RegS(w: u32): nat { w / 0x200000 % 32 }

  function RegA(w: u32): nat { w / 0x10000 % 32 }

  function Shift(w: u32): nat { w / 0x800 % 32 }

  function MaskBegin(w: u32): nat { w / 0x40 % 32 }

  function MaskEnd(w: u32): nat { w / 2 % 32 }

  /** MASK(mb, me): the bits met going up from `mb`, wrapping at 32, until `me`. */
  function MaskFrom(b: nat, me: nat): set<nat>
    requires b < 32 && me < 32
    decreases (me - b) % 32
  {
    if b == me then {b} else {b} + MaskFrom((b + 1) % 32, me)
  }

  /** A register, bit 0 the most significant. */
  type Reg = r: seq<bool> | |r| == 32 witness seq(32, _ => false)

  function RotateLeft(r: Reg, n: nat): Reg
    requires n < 32
  {
    r[n..] + r[..n]
  }

  /** The register file. */
  type Regs = f: seq<Reg> | |f| == 32 witness seq(32, _ => seq(32, _ => false))

  /** The registers after rlwimi rA,rS,SH,MB,ME, where rS may be rA itself. */
  function Rlwimi(w: u32, f: Regs): Regs {
    var rotated, ra := RotateLeft(f[RegS(w)], Shift(w)), f[RegA(w)];
    var mask := MaskFrom(MaskBegin(w), MaskEnd(w));
    f[RegA(w) := seq(32, i requires 0 <= i < 32 => if i in mask then rotated[i] else ra[i])]
  }

  predicate IsRlwimi29(w: u32) { Opcode(w) == 20 && RegA(w) == 29 }

  /** Bit 20 counted from the least significant end. */
  const BIT20: nat := 11

  /** The interval test of the sweep. */
  predicate CoversBit20(mb: nat, me: nat) {
    if mb <= me then mb <= 11 <= me else 11 >= mb || 11 <= me
  }

  /** For all register values the instruction leaves bit 20 of r29 alone. */
  ghost predicate KeepsBit20(w: u32) {
    forall f: Regs :: Rlwimi(w, f)[29][BIT20] == f[29][BIT20]
  }

  /** The instruction inserts r29, not rotated, into itself. */
  predicate SelfCopy(w: u32) { RegS(w) == 29 && Shift(w) == 0 }

  lemma {:induction false} MaskIsInterval(b: nat, me: nat, i: nat)
    requires b < 32 && me < 32 && i < 32
    ensures i in MaskFrom(b, me) <==> (if b <= me then b <= i <= me else i >= b || i <= me)
    decreases (me - b) % 32
  {
    if b != me {
      MaskIsInterval((b + 1) % 32, me, i);
    }
  }

  /** The interval test is membership of bit 11 in the wrap-around mask, and
      decides exactly whether the instruction can change the bit, except for the
      insertion of r29 into itself. */
  lemma {:induction false} TestIsExact(w: u32)
    requires IsRlwimi29(w)
    ensures CoversBit20(MaskBegin(w), MaskEnd(w)) && !SelfCopy(w) <==> !KeepsBit20(w)
  {
    MaskIsInterval(MaskBegin(w), MaskEnd(w), BIT20);
    if CoversBit20(MaskBegin(w), MaskEnd(w)) && !SelfCopy(w) {
      var f := Witness(w);
      assert Rlwimi(w, f)[29][BIT20] != f[29][BIT20];
    } else {
      forall f: Regs ensures Rlwimi(w, f)[29][BIT20] == f[29][BIT20] {
        NewBit(w, f);
      }
    }
  }

  /** Bit 11 of r29 afterwards. */
  lemma {:induction false} NewBit(w: u32, f: Regs)
    requires IsRlwimi29(w)
    ensures Rlwimi(w, f)[29][BIT20] ==
            if BIT20 in MaskFrom(MaskBegin(w), MaskEnd(w)) then f[RegS(w)][(BIT20 + Shift(w)) % 32]
            else f[29][BIT20]
  {
    RotatedBit(f[RegS(w)], Shift(w), BIT20);
  }

  lemma {:induction false} RotatedBit(r: Reg, n: nat, i: nat)
    requires n < 32 && i < 32
    ensures RotateLeft(r, n)[i] == r[(i + n) % 32]
  {
  }

  /** Register values that show the bit changed. */
  lemma {:induction false} Witness(w: u32) returns (f: Regs)
    requires IsRlwimi29(w) && BIT20 in MaskFrom(MaskBegin(w), MaskEnd(w)) && !SelfCopy(w)
    ensures Rlwimi(w, f)[29][BIT20] != f[29][BIT20]
  {
    var k := (BIT20 + Shift(w)) % 32;
    var zeros: Reg := seq(32, _ => false);
    var one := zeros[k := true];
    f := seq(32, i => if i == RegS(w) then one else zeros);
    NewBit(w, f);
  }

  /** That insertion changes no register, so removing it changes no meaning. */
  lemma {:induction false} SelfCopyIdle(w: u32, f: Regs)
    requires IsRlwimi29(w) && SelfCopy(w)
    ensures Rlwimi(w, f) == f
  {
    assert RotateLeft(f[29], 0) == f[29];
    assert Rlwimi(w, f)[29] == f[29];
  }

  predicate Swept(w: u32) { IsRlwimi29(w) && CoversBit20(MaskBegin(w), MaskEnd(w)) }

  /** Word `i` of the image after the sweep. */
  function SweptWord(w: u32): u32 { if Swept(w) then NOP else w }

  /** The words at FIRST + 4k below `end` have been visited. */
  ghost predicate SweptTo(r: seq<byte>, q: seq<byte>, end: nat) {
    && |q| == |r|
    && (forall i :: FIRST <= i < end && i % 4 == 0 && i + 4 <= |r| ==> Rd32(q, i) == SweptWord(Rd32(r, i)))
    && (forall k :: 0 <= k < |r| && !(FIRST <= k < end) ==> q[k] == r[k])
  }

  lemma {:induction false} ReadSame(s: seq<byte>, q: seq<byte>, i: nat)
    requires i + 4 <= |s| == |q| && s[i..i + 4] == q[i..i + 4]
    ensures Rd32(s, i) == Rd32(q, i)
  {
    assert s[i] == s[i..i + 4][0] && s[i + 1] == s[i..i + 4][1];
    assert s[i + 2] == s[i..i + 4][2] && s[i + 3] == s[i..i + 4][3];
    assert q[i] == q[i..i + 4][0] && q[i + 1] == q[i..i + 4][1];
    assert q[i + 2] == q[i..i + 4][2] && q[i + 3] == q[i..i + 4][3];
  }

  lemma {:induction false} SweepStep(r: seq<byte>, q: seq<byte>, i: nat)
    requires SweptTo(r, q, i) && FIRST <= i && i % 4 == 0 && i + 4 <= |r|
    ensures Rd32(q, i) == Rd32(r, i)
    ensures SweptTo(r, if Swept(Rd32(r, i)) then Put32(q, i, NOP) else q, i + 4)
  {
    hide Swept, Rd32;
    assert q[i..i + 4] == r[i..i + 4];
    ReadSame(q, r, i);
    var s := if Swept(Rd32(r, i)) then Put32(q, i, NOP) else q;
    Rd32Put32(q, i, NOP);
    assert s[..i] == q[..i] && s[i + 4..] == q[i + 4..];
    hide Put32;
    forall j | FIRST <= j < i + 4 && j % 4 == 0 && j + 4 <= |r| ensures Rd32(s, j) == SweptWord(Rd32(r, j)) {
      if j < i {
        assert s[j..j + 4] == s[..i][j..j + 4] == q[..i][j..j + 4] == q[j..j + 4];
        ReadSame(s, q, j);
      }
    }
    forall k | 0 <= k < |r| && !(FIRST <= k < i + 4) ensures s[k] == r[k] {
      assert if k < i then s[k] == s[..i][k] && q[k] == q[..i][k]
             else s[k] == s[i + 4..][k - i - 4] && q[k] == q[i + 4..][k - i - 4];
    }
  }

  /** The sweep's test of one word. */
  method MustGo(w: u32) returns (b: bool)
    ensures b <==> Swept(w)
  {
    var mb, me := w / 0x40 % 32, w / 2 % 32;
    var covers := if mb <= me then mb <= 11 && 11 <= me else 11 >= mb || 11 <= me;
    b := w / 0x4000000 % 64 == 20 && w / 0x10000 % 32 == 29 && covers;
  }

  /** The sweep over the dispatch glue of the emulator. */
  method SweepRlwimi(rom: array<byte>)
    requires rom.Length >= LAST
    modifies rom
    ensures SweptTo(old(rom[..]), rom[..], LAST)
  {
    hide SweptTo, Swept, Rd32, Put32;
    ghost var was := rom[..];
    SweepStart(was);
    var i := FIRST;
    while i + 4 <= LAST
      invariant FIRST <= i <= LAST && i % 4 == 0
      invariant SweptTo(was, rom[..], i)
    {
      SweepStep(was, rom[..], i);
      var w := Read32(rom, i);
      var go := MustGo(w);
      if go {
        Write32(rom, i, NOP);
      }
      i := i + 4;
    }
  }

  lemma {:induction false} SweepStart(r: seq<byte>)
    ensures SweptTo(r, r, FIRST)
  {
  }

  /** The instruction changes no register, whatever the registers hold. */
  ghost predicate Idle(w: u32) { forall f: Regs :: Rlwimi(w, f) == f }

  /** After the sweep no rlwimi into r29 can change bit 20; the only words gone
      are those that could, and insertions of r29 into itself that do nothing. */
  lemma {:induction false} SweepSound(r: seq<byte>, q: seq<byte>, i: nat)
    requires |r| >= LAST && SweptTo(r, q, LAST)
    requires 0x360000 <= i < 0x380000 && i % 4 == 0
    ensures var w, v := Rd32(r, i), Rd32(q, i);
      && (IsRlwimi29(v) ==> KeepsBit20(v))
      && (v != w ==> IsRlwimi29(w) && v == 0x60000000 && (!KeepsBit20(w) || (SelfCopy(w) && Idle(w))))
      && (IsRlwimi29(w) && !KeepsBit20(w) ==> v == 0x60000000)
  {
    var w := Rd32(r, i);
    assert Rd32(q, i) == SweptWord(w);
    assert !IsRlwimi29(NOP);
    hide KeepsBit20, IsRlwimi29, Rd32, SelfCopy, Rlwimi;
    if IsRlwimi29(w) {
      TestIsExact(w);
      if SelfCopy(w) {
        forall f: Regs ensures Rlwimi(w, f) == f {
          SelfCopyIdle(w, f);
        }
      }
    }
  }

  /** Outside the region no byte changes. */
  lemma {:induction false} SweepKeeps(r: seq<byte>, q: seq<byte>, k: nat)
    requires |r| >= LAST && SweptTo(r, q, LAST)
    ensures |q| == |r| && (k < |r| && !(0x360000 <= k < 0x380000) ==> q[k] == r[k])
  {
  }

  /** The instruction word of rlwimi rA,rS,SH,MB,ME, its record bit last, and the
      fields the sweep and the instruction read from it. */
  lemma {:induction false} Assembled(rs: nat, ra: nat, sh: nat, mb: nat, me: nat, rc: nat, w: u32)
    requires rs < 32 && ra < 32 && sh < 32 && mb < 32 && me < 32 && rc < 2
    requires w == 20 * 0x4000000 + rs * 0x200000 + ra * 0x10000 + sh * 0x800 + mb * 0x40 + me * 2 + rc
    ensures RegS(w) == rs && RegA(w) == ra && Shift(w) == sh && MaskBegin(w) == mb && MaskEnd(w) == me
    ensures IsRlwimi29(w) <==> ra == 29
    ensures Swept(w) <==> ra == 29 && (if mb <= me then mb <= 11 <= me else 11 >= mb || 11 <= me)
  {
    assert w / 2 == 20 * 0x2000000 + rs * 0x100000 + ra * 0x8000 + sh * 0x400 + mb * 0x20 + me;
    assert w / 0x40 == 20 * 0x100000 + rs * 0x8000 + ra * 0x400 + sh * 0x20 + mb;
    assert w / 0x800 == 20 * 0x8000 + rs * 0x400 + ra * 0x20 + sh;
    assert w / 0x10000 == 20 * 0x400 + rs * 0x20 + ra;
    assert w / 0x200000 == 20 * 0x20 + rs;
    assert w / 0x4000000 == 20;
  }

  /** Only words with primary opcode 20 are rlwimi. */
  lemma {:induction false} OtherOpcodes(w: u32)
    requires !(20 * 0x4000000 <= w < 21 * 0x4000000)
    ensures !IsRlwimi29(w) && !Swept(w)
  {
  }
}
