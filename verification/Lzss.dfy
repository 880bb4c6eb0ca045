/** The LZSS expansion of compressed ROM parcels: a ring-dictionary decoder
    against a decoder that copies from its own output. */
module Lzss {
  import opened Bytes

  const RING: nat := 0x1000
  const RING_START: nat := 0xFEE

  /** The byte at position `i` of an output preceded by zeros. */
  function Hist(out: seq<byte>, i: int): byte
    requires i < |out|
  {
    if i < 0 then 0 else out[i]
  }

  /** `n` more bytes, each the one `d` places back. */
  function CopyBack(out: seq<byte>, d: nat, n: nat): seq<byte>
    requires d >= 1
    decreases n
  {
    if n == 0 then out else CopyBack(out + [Hist(out, |out| - d)], d, n - 1)
  }

  /** How far back in an output of length `len` the ring cell `cell` lies. */
  function Distance(len: nat, cell: nat): (d: nat)
    ensures 1 <= d <= RING
  {
    (RING_START + len - cell - 1) % RING + 1
  }

  function RunCell(idx: byte, cnt: byte): nat { idx + cnt / 16 * 0x100 }

  function RunLength(cnt: byte): nat { cnt % 16 + 3 }

  /** Expand src[p..] with `k` flags left in the control bits `v`: a set flag is
      a literal byte, a clear one a two-byte run. */
  function Expand(src: seq<byte>, p: nat, k: nat, v: nat, out: seq<byte>): seq<byte>
    decreases |src| - p
  {
    if k == 0 then
      if p >= |src| then out else Expand(src, p + 1, 8, src[p], out)
    else if v % 2 == 1 then
      if p >= |src| then out else Expand(src, p + 1, k - 1, v / 2, out + [src[p]])
    else if p + 1 >= |src| then out
    else
      var d := Distance(|out|, RunCell(src[p], src[p + 1]));
      Expand(src, p + 2, k - 1, v / 2, CopyBack(out, d, RunLength(src[p + 1])))
  }

  /** The whole expansion of a stream. */
  function Expansion(src: seq<byte>): seq<byte> { Expand(src, 0, 0, 0, []) }

  /** Every ring cell holds the output byte last written there. */
  ghost predicate Ring(dict: seq<byte>, idx: nat, out: seq<byte>) {
    && |dict| == RING
    && idx == (RING_START + |out|) % RING
    && forall i :: 0 <= i < RING ==> dict[i] == Hist(out, |out| - Distance(|out|, i))
  }

  /** The destination holds as much of the output as fits. */
  ghost predicate Clipped(dest: seq<byte>, was: seq<byte>, written: nat, out: seq<byte>) {
    && |dest| == |was|
    && written == Min(|out|, |dest|)
    && dest[..written] == out[..written]
    && dest[written..] == was[written..]
  }

  /** The run mask with `k` flags left: the eight bits shifted in above them
      reach bit 8 exactly when no flag is left. */
  predicate Mask(m: int, k: nat, v: nat) {
    if k == 0 then 0 <= m < 0x100 else k <= 8 && v < Pow2(k) && m == 255 * Pow2(k) + v
  }

  lemma {:induction false} MaskFull(b: byte)
    ensures Mask(b + 0xFF00, 8, b)
  {
    assert Pow2(8) == 256;
  }

  lemma {:induction false} MaskShift(m: int, k: nat, v: nat)
    requires k > 0 && Mask(m, k, v)
    ensures Mask(m / 2, k - 1, v / 2) && m % 2 == v % 2 && m >= 0x100
  {
    assert Pow2(k) == 2 * Pow2(k - 1);
  }

  lemma {:induction false} DistanceNext(len: nat, cell: nat)
    requires cell < RING
    ensures cell == (RING_START + len) % RING ==> Distance(len + 1, cell) == 1
    ensures cell != (RING_START + len) % RING ==> Distance(len + 1, cell) == Distance(len, cell) + 1
    ensures Distance(len + 1, (cell + 1) % RING) == Distance(len, cell)
  {
  }

  lemma {:induction false} RingNext(x: nat)
    ensures (x % RING + 1) % RING == (x + 1) % RING
  {
  }

  lemma {:induction false} RingPut(dict: seq<byte>, idx: nat, out: seq<byte>, c: byte)
    requires Ring(dict, idx, out)
    ensures |dict| == RING && idx < RING && Ring(dict[idx := c], (idx + 1) % RING, out + [c])
  {
    hide Distance;
    var d, o := dict[idx := c], out + [c];
    RingNext(RING_START + |out|);
    forall i | 0 <= i < RING ensures d[i] == Hist(o, |o| - Distance(|o|, i)) {
      DistanceNext(|out|, i);
      assert dict[i] == Hist(out, |out| - Distance(|out|, i));
    }
  }

  /** Append one byte: to the ring, and to the destination while it has room. */
  method PutByte(dict: array<byte>, dest: array<byte>, idx: nat, written: nat, c: byte,
                 ghost was: seq<byte>, ghost out: seq<byte>) returns (idx': nat, written': nat)
    requires dict != dest && Ring(dict[..], idx, out) && Clipped(dest[..], was, written, out)
    modifies dict, dest
    ensures Ring(dict[..], idx', out + [c]) && Clipped(dest[..], was, written', out + [c])
    ensures idx' == (idx + 1) % RING
  {
    hide Ring, Clipped;
    RingPut(dict[..], idx, out, c);
    ClipPut(dest[..], was, written, out, c);
    Store(dict, idx % RING, c);
    written' := written;
    if written < dest.Length {
      Store(dest, written, c);
      written' := written + 1;
    }
    idx' := (idx + 1) % RING;
  }

  method Store(a: array<byte>, i: nat, c: byte)
    requires i < a.Length
    modifies a
    ensures a[..] == old(a[..])[i := c]
  {
    a[i] := c;
  }

  lemma {:induction false} ClipPut(dest: seq<byte>, was: seq<byte>, written: nat, out: seq<byte>, c: byte)
    requires Clipped(dest, was, written, out)
    ensures written <= |dest|
    ensures if written < |dest| then Clipped(dest[written := c], was, written + 1, out + [c])
            else Clipped(dest, was, written, out + [c])
  {
    if written < |dest| {
      var d := dest[written := c];
      assert d[..written] == dest[..written];
      assert d[..written + 1] == d[..written] + [c];
      assert d[written + 1..] == dest[written..][1..];
    }
  }

  /** Copy a run out of the ring, byte by byte. */
  method CopyRun(dict: array<byte>, dest: array<byte>, cell: nat, n: nat, idx: nat, written: nat,
                 ghost was: seq<byte>, ghost out: seq<byte>) returns (idx': nat, written': nat)
    requires dict != dest && cell < RING && Ring(dict[..], idx, out) && Clipped(dest[..], was, written, out)
    modifies dict, dest
    ensures var o := CopyBack(out, Distance(|out|, cell), n);
      Ring(dict[..], idx', o) && Clipped(dest[..], was, written', o)
  {
    hide Clipped, Distance, CopyBack;
    ghost var d, o := Distance(|out|, cell), out;
    var start: nat, left: nat := cell, n;
    idx', written' := idx, written;
    while left > 0
      invariant start < RING && dict.Length == RING && Distance(|o|, start) == d
      invariant CopyBack(o, d, left) == CopyBack(out, d, n)
      invariant Ring(dict[..], idx', o) && Clipped(dest[..], was, written', o)
    {
      var c := dict[start];
      assert c == Hist(o, |o| - d);
      CopyNext(o, d, left);
      DistanceNext(|o|, start);
      idx', written' := PutByte(dict, dest, idx', written', c, was, o);
      o := o + [c];
      start := (start + 1) % RING;
      left := left - 1;
    }
    CopyNone(o, d);
  }

  lemma {:induction false} CopyNext(o: seq<byte>, d: nat, n: nat)
    requires d >= 1 && n > 0
    ensures CopyBack(o, d, n) == CopyBack(o + [Hist(o, |o| - d)], d, n - 1)
  {
  }

  lemma {:induction false} CopyNone(o: seq<byte>, d: nat)
    requires d >= 1
    ensures CopyBack(o, d, 0) == o
  {
  }

  /** The ring-dictionary decoder. */
  method BootLzssDecode(src: seq<byte>, dict: array<byte>, dest: array<byte>)
    requires dict != dest && dict.Length == RING
    modifies dict, dest
    ensures Clipped(dest[..], old(dest[..]), Min(|Expansion(src)|, dest.Length), Expansion(src))
  {
    hide Expand, Clipped, Ring, Distance, CopyBack, Mask;
    ghost var was := dest[..];
    ghost var k: nat, v: nat, out: seq<byte> := 0, 0, [];
    for i := 0 to RING
      invariant forall j :: 0 <= j < i ==> dict[j] == 0
      invariant dest[..] == was
    {
      dict[i] := 0;
    }
    StartRing(dict[..], was);
    var mask: int, remaining: int := 0, |src|;
    var idx: nat, written: nat, p: nat := RING_START, 0, 0;
    while remaining >= 0
      invariant p + remaining == |src| && remaining >= 0
      invariant Mask(mask, k, v)
      invariant Expand(src, p, k, v, out) == Expand(src, 0, 0, 0, [])
      invariant Ring(dict[..], idx, out) && Clipped(dest[..], was, written, out)
      decreases remaining
    {
      ExpandStep(src, p, k, v, out, mask);
      if mask < 0x100 {
        remaining := remaining - 1;
        if remaining < 0 { break; }
        mask := src[p] as int + 0xFF00;
        MaskFull(src[p]);
        k, v, p := 8, src[p], p + 1;
        ExpandStep(src, p, k, v, out, mask);
      }
      MaskShift(mask, k, v);
      if mask % 2 == 1 {
        remaining := remaining - 1;
        if remaining < 0 { break; }
        var c := src[p];
        idx, written := PutByte(dict, dest, idx, written, c, was, out);
        out := out + [c];
        p := p + 1;
      } else {
        remaining := remaining - 1;
        if remaining < 0 { break; }
        var low := src[p];
        remaining := remaining - 1;
        if remaining < 0 { break; }
        var cnt := src[p + 1];
        var cell, n := RunCell(low, cnt), RunLength(cnt);
        idx, written := CopyRun(dict, dest, cell, n, idx, written, was, out);
        out := CopyBack(out, Distance(|out|, cell), n);
        p := p + 2;
      }
      mask := mask / 2;
      k, v := k - 1, v / 2;
    }
    ClippedAt(dest[..], was, written, out);
  }

  lemma {:induction false} ClippedAt(dest: seq<byte>, was: seq<byte>, written: nat, out: seq<byte>)
    requires Clipped(dest, was, written, out)
    ensures written == Min(|out|, |dest|)
  {
  }

  lemma {:induction false} StartRing(dict: seq<byte>, was: seq<byte>)
    requires |dict| == RING && forall i :: 0 <= i < RING ==> dict[i] == 0
    ensures Ring(dict, RING_START, []) && Clipped(was, was, 0, []) && Mask(0, 0, 0)
  {
  }

  /** What the decoder owes at a token, by the run mask alone. */
  lemma {:induction false} ExpandStep(src: seq<byte>, p: nat, k: nat, v: nat, out: seq<byte>, m: int)
    requires Mask(m, k, v) && p <= |src|
    ensures k == 0 <==> m < 0x100
    ensures k == 0 ==> Expand(src, p, k, v, out) == if p >= |src| then out else Expand(src, p + 1, 8, src[p], out)
    ensures k > 0 && m % 2 == 1 ==>
      Expand(src, p, k, v, out) == if p >= |src| then out else Expand(src, p + 1, k - 1, v / 2, out + [src[p]])
    ensures k > 0 && m % 2 == 0 ==>
      Expand(src, p, k, v, out) ==
      if p + 1 >= |src| then out
      else Expand(src, p + 2, k - 1, v / 2,
                  CopyBack(out, Distance(|out|, RunCell(src[p], src[p + 1])), RunLength(src[p + 1])))
  {
    if k > 0 {
      MaskShift(m, k, v);
    }
    hide Mask, Distance, CopyBack;
  }

  /** The decoder of the extraction script: same tokens, the end of input tested
      before each read. */
  method ScriptDecode(src: seq<byte>) returns (out: seq<byte>)
    ensures out == Expansion(src)
  {
    hide Expand, Ring, Distance, CopyBack, Mask, Clipped;
    var dict := new byte[RING](_ => 0);
    ghost var k: nat, v: nat := 0, 0;
    StartRing(dict[..], []);
    out := [];
    var mask: int, remaining: int := 0, |src|;
    var idx: nat, sp: nat := RING_START, 0;
    while remaining >= 0
      invariant sp + remaining == |src| && remaining >= 0
      invariant Mask(mask, k, v)
      invariant Expand(src, sp, k, v, out) == Expansion(src)
      invariant Ring(dict[..], idx, out)
      decreases remaining
    {
      ExpandStep(src, sp, k, v, out, mask);
      if mask < 0x100 {
        if remaining <= 0 { break; }
        mask := src[sp] as int + 0xFF00;
        MaskFull(src[sp]);
        k, v, sp, remaining := 8, src[sp], sp + 1, remaining - 1;
        ExpandStep(src, sp, k, v, out, mask);
      }
      MaskShift(mask, k, v);
      if mask % 2 == 1 {
        if remaining <= 0 { break; }
        var c := src[sp];
        sp, remaining := sp + 1, remaining - 1;
        idx := ScriptPut(dict, idx, c, out);
        out := out + [c];
      } else {
        if remaining <= 0 { break; }
        var low := src[sp];
        sp, remaining := sp + 1, remaining - 1;
        if remaining <= 0 { break; }
        var cnt := src[sp];
        sp, remaining := sp + 1, remaining - 1;
        out, idx := ScriptRun(dict, RunCell(low, cnt), RunLength(cnt), idx, out);
      }
      mask := mask / 2;
      k, v := k - 1, v / 2;
    }
  }

  method ScriptPut(dict: array<byte>, idx: nat, c: byte, ghost out: seq<byte>) returns (idx': nat)
    requires Ring(dict[..], idx, out)
    modifies dict
    ensures Ring(dict[..], idx', out + [c])
  {
    hide Ring;
    RingPut(dict[..], idx, out, c);
    Store(dict, idx % RING, c);
    idx' := (idx + 1) % RING;
  }

  method ScriptRun(dict: array<byte>, cell: nat, n: nat, idx: nat, out: seq<byte>)
    returns (o: seq<byte>, idx': nat)
    requires cell < RING && Ring(dict[..], idx, out)
    modifies dict
    ensures o == CopyBack(out, Distance(|out|, cell), n) && Ring(dict[..], idx', o)
  {
    hide Distance, CopyBack;
    ghost var d := Distance(|out|, cell);
    var start: nat := cell;
    o, idx' := out, idx;
    for i := 0 to n
      invariant start < RING && dict.Length == RING && Distance(|o|, start) == d
      invariant CopyBack(o, d, n - i) == CopyBack(out, d, n)
      invariant Ring(dict[..], idx', o)
    {
      var c := dict[start % RING];
      assert c == Hist(o, |o| - d);
      CopyNext(o, d, n - i);
      DistanceNext(|o|, start);
      idx' := ScriptPut(dict, idx', c, o);
      o := o + [c];
      start := (start + 1) % RING;
    }
    CopyNone(o, d);
  }

  /** Every expansion continues the output it starts from, by at most nine bytes
      for each byte read. */
  lemma {:induction false} ExpandGrows(src: seq<byte>, p: nat, k: nat, v: nat, out: seq<byte>)
    requires p <= |src|
    ensures out <= Expand(src, p, k, v, out)
    ensures |Expand(src, p, k, v, out)| <= |out| + 9 * (|src| - p)
    decreases |src| - p
  {
    hide Distance, RunCell;
    if k == 0 {
      if p < |src| {
        ExpandGrows(src, p + 1, 8, src[p], out);
      }
    } else if v % 2 == 1 {
      if p < |src| {
        ExpandGrows(src, p + 1, k - 1, v / 2, out + [src[p]]);
      }
    } else if p + 1 < |src| {
      var d := Distance(|out|, RunCell(src[p], src[p + 1]));
      CopyGrows(out, d, RunLength(src[p + 1]));
      ExpandGrows(src, p + 2, k - 1, v / 2, CopyBack(out, d, RunLength(src[p + 1])));
    }
  }

  lemma {:induction false} CopyGrows(out: seq<byte>, d: nat, n: nat)
    requires d >= 1
    ensures out <= CopyBack(out, d, n) && |CopyBack(out, d, n)| == |out| + n
    decreases n
  {
    if n > 0 {
      CopyGrows(out + [Hist(out, |out| - d)], d, n - 1);
    }
  }

  /** A truncated stream expands to a prefix of the whole expansion. */
  lemma {:induction false} ExpandPrefix(src: seq<byte>, n: nat, p: nat, k: nat, v: nat, out: seq<byte>)
    requires p <= n <= |src|
    ensures Expand(src[..n], p, k, v, out) <= Expand(src, p, k, v, out)
    decreases n - p
  {
    hide Distance, RunCell, CopyBack;
    ExpandGrows(src, p, k, v, out);
    if k == 0 {
      if p < n {
        ExpandPrefix(src, n, p + 1, 8, src[p], out);
      }
    } else if v % 2 == 1 {
      if p < n {
        ExpandPrefix(src, n, p + 1, k - 1, v / 2, out + [src[p]]);
      }
    } else if p + 1 < n {
      var d := Distance(|out|, RunCell(src[p], src[p + 1]));
      ExpandPrefix(src, n, p + 2, k - 1, v / 2, CopyBack(out, d, RunLength(src[p + 1])));
    }
  }

  // ------------------------------------------------------------- round trip

  /** What a stream can say: a byte, or `n` bytes copied from `d` places back. */
  datatype Token = Literal(b: byte) | Run(d: nat, n: nat)

  predicate Expressible(t: Token) { t.Run? ==> 1 <= t.d <= RING && 3 <= t.n <= 18 }

  predicate AllExpressible(ts: seq<Token>) { forall i :: 0 <= i < |ts| ==> Expressible(ts[i]) }

  function Apply(t: Token, out: seq<byte>): seq<byte>
    requires Expressible(t)
  {
    if t.Literal? then out + [t.b] else CopyBack(out, t.d, t.n)
  }

  function Meaning(ts: seq<Token>, out: seq<byte>): seq<byte>
    requires AllExpressible(ts)
  {
    if ts == [] then out else Meaning(ts[1..], Apply(ts[0], out))
  }

  /** The ring cell that lies `d` places back in an output of length `len`. */
  function CellAt(len: nat, d: nat): (c: nat)
    requires 1 <= d <= RING
    ensures c < RING
  {
    (RING_START + len + RING - d) % RING
  }

  /** The bytes of a token after `len` bytes of output. */
  function TokenBytes(t: Token, len: nat): (r: seq<byte>)
    requires Expressible(t)
  {
    if t.Literal? then [t.b]
    else
      var c := (0xFEE + len + 0x1000 - t.d) % 0x1000;
      [c % 0x100, c / 0x100 * 16 + (t.n - 3)]
  }

  function Flags(ts: seq<Token>): nat {
    if ts == [] then 0 else (if ts[0].Literal? then 1 else 0) + 2 * Flags(ts[1..])
  }

  lemma {:induction false} FlagsFit(ts: seq<Token>)
    ensures Flags(ts) < Pow2(|ts|)
  {
    if ts != [] {
      FlagsFit(ts[1..]);
    }
  }

  /** The bytes of the tokens of one group, without its control byte. */
  function GroupBytes(ts: seq<Token>, out: seq<byte>): seq<byte>
    requires AllExpressible(ts)
  {
    if ts == [] then [] else TokenBytes(ts[0], |out|) + GroupBytes(ts[1..], Apply(ts[0], out))
  }

  /** The tokens in groups of eight, each under its control byte. */
  function Encode(ts: seq<Token>, out: seq<byte>): seq<byte>
    requires AllExpressible(ts)
  {
    if ts == [] then []
    else
      var n := Min(8, |ts|);
      var g := ts[..n];
      assert Flags(g) < 0x100 by { ControlByte(g); }
      [Flags(g)] + GroupBytes(g, out) + Encode(ts[n..], Meaning(g, out))
  }

  lemma {:induction false} ControlByte(g: seq<Token>)
    requires |g| <= 8
    ensures Flags(g) < 0x100
  {
    FlagsFit(g);
    Pow2Within(|g|);
  }

  lemma {:induction false} Pow2Within(n: nat)
    requires n <= 8
    ensures Pow2(n) <= 0x100
  {
    assert Pow2(8) == 0x100;
    if n < 8 {
      Pow2Grows(n, 8);
    }
  }

  lemma {:induction false} Pow2Grows(m: nat, n: nat)
    requires m <= n
    ensures Pow2(m) <= Pow2(n)
  {
    if m < n {
      Pow2Grows(m, n - 1);
    }
  }

  /** The decoder reads a token back. */
  lemma {:induction false} TokenExpand(src: seq<byte>, p: nat, k: nat, v: nat, t: Token, out: seq<byte>)
    requires Expressible(t) && k > 0 && v % 2 == (if t.Literal? then 1 else 0)
    requires var b := TokenBytes(t, |out|);
      p + |b| <= |src| && src[p..p + |b|] == b
    ensures Expand(src, p, k, v, out) == Expand(src, p + |TokenBytes(t, |out|)|, k - 1, v / 2, Apply(t, out))
  {
    hide Distance, CellAt, CopyBack, RunCell, RunLength;
    var b := TokenBytes(t, |out|);
    assert src[p] == src[p..p + |b|][0];
    if t.Run? {
      assert src[p + 1] == src[p..p + |b|][1];
      CellBytes((0xFEE + |out| + 0x1000 - t.d) % 0x1000, t.n);
      CellInRing(|out|, t.d);
      DistanceOfCell(|out|, t.d);
    }
  }

  lemma {:induction false} CellInRing(len: nat, d: nat)
    requires 1 <= d <= 0x1000
    ensures CellAt(len, d) == (0xFEE + len + 0x1000 - d) % 0x1000
  {
  }

  lemma {:induction false} CellBytes(c: nat, n: nat)
    requires c < RING && 3 <= n <= 18
    ensures 0 <= c / 0x100 * 16 + (n - 3) < 0x100
    ensures RunCell(c % 0x100, c / 0x100 * 16 + (n - 3)) == c
    ensures RunLength(c / 0x100 * 16 + (n - 3)) == n
  {
  }

  /** Distances and ring cells determine each other. */
  lemma {:induction false} CellDistance(len: nat)
    ensures forall d :: 1 <= d <= RING ==> Distance(len, CellAt(len, d)) == d
    ensures forall c :: 0 <= c < RING ==> CellAt(len, Distance(len, c)) == c
  {
    forall d | 1 <= d <= RING ensures Distance(len, CellAt(len, d)) == d {
      DistanceOfCell(len, d);
    }
    forall c | 0 <= c < RING ensures CellAt(len, Distance(len, c)) == c {
      CellOfDistance(len, c);
    }
    hide Distance, CellAt;
  }

  lemma {:induction false} DistanceOfCell(len: nat, d: nat)
    requires 1 <= d <= RING
    ensures Distance(len, CellAt(len, d)) == d
  {
    var x, c := RING_START + len + RING - d, CellAt(len, d);
    assert x - c == RING * (x / RING);
    assert RING_START + len - c - 1 == (d - 1) + RING * (x / RING - 1);
    AddRing(d - 1, x / RING - 1);
  }

  lemma {:induction false} CellOfDistance(len: nat, c: nat)
    requires c < RING
    ensures CellAt(len, Distance(len, c)) == c
  {
    var y, d := RING_START + len - c - 1, Distance(len, c);
    assert y - (d - 1) == RING * (y / RING);
    assert RING_START + len + RING - d == c + RING * (y / RING + 1);
    AddRing(c, y / RING + 1);
  }

  /** The cells by their numbers: the first byte of the output goes to cell 0xFEE,
      and after `n` bytes the cell of byte `j`, one of the last 4096, is n - j back. */
  lemma {:induction false} CellNumbers(n: nat, j: nat)
    requires j < n <= j + 0x1000
    ensures Distance(n, (0xFEE + j) % 0x1000) == n - j
    ensures RunCell((0xFEE + j) % 0x100, (0xFEE + j) % 0x1000 / 0x100 * 0x10) == (0xFEE + j) % 0x1000
  {
    var c := (0xFEE + j) % 0x1000;
    assert 0xFEE + j == c + 0x1000 * ((0xFEE + j) / 0x1000);
    assert 0xFEE + n - c - 1 == (n - j - 1) + 0x1000 * ((0xFEE + j) / 0x1000);
    AddRing(n - j - 1, (0xFEE + j) / 0x1000);
    LowByte(0xFEE + j);
  }

  lemma {:induction false} LowByte(x: nat)
    ensures x % 0x1000 / 0x100 * 0x100 + x % 0x100 == x % 0x1000
    ensures x % 0x1000 / 0x100 < 0x10
  {
  }

  lemma {:induction false} AddRing(r: nat, q: int)
    requires r < RING
    ensures (r + RING * q) % RING == r
  {
  }

  /** The decoder reads a group back. */
  lemma {:induction false} GroupExpand(src: seq<byte>, p: nat, k: nat, ts: seq<Token>, out: seq<byte>)
    requires AllExpressible(ts) && |ts| <= k
    requires var b := GroupBytes(ts, out);
      p + |b| <= |src| && src[p..p + |b|] == b
    ensures Expand(src, p, k, Flags(ts), out) ==
            Expand(src, p + |GroupBytes(ts, out)|, k - |ts|, 0, Meaning(ts, out))
    decreases |ts|
  {
    hide Expand, TokenBytes, Apply;
    if ts != [] {
      var b, rest := TokenBytes(ts[0], |out|), GroupBytes(ts[1..], Apply(ts[0], out));
      FlagsStep(ts);
      SplitAt(src, p, b, rest);
      TokenExpand(src, p, k, Flags(ts), ts[0], out);
      GroupExpand(src, p + |b|, k - 1, ts[1..], Apply(ts[0], out));
    }
  }

  lemma {:induction false} FlagsStep(ts: seq<Token>)
    requires ts != []
    ensures Flags(ts) % 2 == (if ts[0].Literal? then 1 else 0) && Flags(ts) / 2 == Flags(ts[1..])
  {
  }

  lemma {:induction false} EncodeExpand(src: seq<byte>, p: nat, ts: seq<Token>, out: seq<byte>)
    requires AllExpressible(ts) && p <= |src| && src[p..] == Encode(ts, out)
    ensures Expand(src, p, 0, 0, out) == Meaning(ts, out)
    decreases |ts|
  {
    hide Expand, GroupBytes, Flags, Meaning;
    if ts == [] {
      NoInput(src, p, 0, out);
      NoTokens(out);
    } else {
      var n := Min(8, |ts|);
      var g := ts[..n];
      var b, rest := GroupBytes(g, out), Encode(ts[n..], Meaning(g, out));
      ControlByte(g);
      Pieces(src, p, Flags(g), b, rest);
      Control(src, p, out);
      GroupExpand(src, p + 1, 8, g, out);
      MeaningSplit(ts, n, out);
      if n < 8 {
        assert ts[n..] == [] && g == ts;
        NoInput(src, p + 1 + |b|, 8 - n, Meaning(g, out));
      } else {
        EncodeExpand(src, p + 1 + |b|, ts[n..], Meaning(g, out));
      }
    }
  }

  lemma {:induction false} Pieces(src: seq<byte>, p: nat, c: byte, b: seq<byte>, rest: seq<byte>)
    requires p <= |src| && src[p..] == [c] + b + rest
    ensures p + 1 + |b| <= |src| && src[p] == c && src[p + 1..p + 1 + |b|] == b && src[p + 1 + |b|..] == rest
  {
    assert src[p] == src[p..][0];
    assert src[p + 1..p + 1 + |b|] == src[p..][1..1 + |b|] == b;
    assert src[p + 1 + |b|..] == src[p..][1 + |b|..] == rest;
  }

  lemma {:induction false} Control(src: seq<byte>, p: nat, out: seq<byte>)
    requires p < |src|
    ensures Expand(src, p, 0, 0, out) == Expand(src, p + 1, 8, src[p], out)
  {
    hide Distance, CopyBack;
  }

  /** The decoder stops where the input ends. */
  lemma {:induction false} NoInput(src: seq<byte>, p: nat, k: nat, out: seq<byte>)
    requires p >= |src|
    ensures Expand(src, p, k, 0, out) == out
  {
  }

  lemma {:induction false} NoTokens(out: seq<byte>)
    ensures Meaning([], out) == out
  {
  }

  lemma {:induction false} MeaningSplit(ts: seq<Token>, n: nat, out: seq<byte>)
    requires AllExpressible(ts) && n <= |ts|
    ensures Meaning(ts, out) == Meaning(ts[n..], Meaning(ts[..n], out))
    decreases n
  {
    hide Apply;
    if n == 0 {
      assert ts[0..] == ts;
    } else {
      assert ts[..n][1..] == ts[1..][..n - 1] && ts[n..] == ts[1..][n - 1..];
      MeaningSplit(ts[1..], n - 1, Apply(ts[0], out));
    }
  }

  /** The decoder gives every token list its meaning: each literal and each run,
      at any distance up to the ring's size and of any length a run can have,
      overlapping ones included. */
  lemma {:induction false} EncodeRoundTrip(ts: seq<Token>)
    requires forall i :: 0 <= i < |ts| && ts[i].Run? ==> 1 <= ts[i].d <= 4096 && 3 <= ts[i].n <= 18
    ensures Expansion(Encode(ts, [])) == Meaning(ts, [])
  {
    hide Expand, Encode, Meaning;
    var src := Encode(ts, []);
    assert src[0..] == src;
    EncodeExpand(src, 0, ts, []);
  }

  function Literals(data: seq<byte>): (ts: seq<Token>)
    ensures AllExpressible(ts)
  {
    if data == [] then [] else [Literal(data[0])] + Literals(data[1..])
  }

  lemma {:induction false} LiteralsMean(data: seq<byte>, out: seq<byte>)
    ensures Meaning(Literals(data), out) == out + data
  {
    hide Meaning;
    if data == [] {
      NoTokens(out);
      assert out + data == out;
    } else {
      LiteralsMean(data[1..], out + [data[0]]);
      FirstToken(Literal(data[0]), Literals(data[1..]), out);
      assert out + [data[0]] + data[1..] == out + data;
    }
  }

  lemma {:induction false} FirstToken(t: Token, ts: seq<Token>, out: seq<byte>)
    requires Expressible(t) && AllExpressible(ts)
    ensures AllExpressible([t] + ts) && Meaning([t] + ts, out) == Meaning(ts, Apply(t, out))
  {
    hide Apply;
    assert ([t] + ts)[1..] == ts;
  }

  /** Every byte string is the expansion of some stream. */
  lemma {:induction false} LiteralsRoundTrip(data: seq<byte>)
    ensures Expansion(Encode(Literals(data), [])) == data
  {
    EncodeRoundTrip(Literals(data));
    LiteralsMean(data, []);
    assert [] + data == data;
    hide Encode, Meaning, Expand;
  }

  /** A stream and its expansion: a literal, then a run of three from the cell it
      went to, which overlaps itself. */
  lemma {:induction false} KnownStream()
    ensures Expansion([0x01, 0x41, 0xEE, 0xF0]) == [0x41, 0x41, 0x41, 0x41]
  {
    var src: seq<byte> := [0x01, 0x41, 0xEE, 0xF0];
    CellNumbers(1, 0);
    assert RunCell(0xEE, 0xF0) == 0xFEE && RunLength(0xF0) == 3;
    hide Distance, RunCell, RunLength, CopyBack, Expand;
    CopyThree(0x41);
    ControlStep(src, 0, [], 1);
    LiteralStep(src, 1, 8, 1, []);
    RunStep(src, 2, 7, 0, [0x41]);
    NoInput(src, 4, 6, [0x41, 0x41, 0x41, 0x41]);
  }

  lemma {:induction false} CopyThree(c: byte)
    ensures CopyBack([c], 1, 3) == [c, c, c, c]
  {
    CopyNext([c], 1, 3);
    CopyNext([c, c], 1, 2);
    CopyNext([c, c, c], 1, 1);
    CopyNone([c, c, c, c], 1);
    hide CopyBack;
    assert [c] + [c] == [c, c] && [c, c] + [c] == [c, c, c] && [c, c, c] + [c] == [c, c, c, c];
  }

  lemma {:induction false} ControlStep(src: seq<byte>, p: nat, out: seq<byte>, v: byte)
    requires p < |src| && src[p] == v
    ensures Expand(src, p, 0, 0, out) == Expand(src, p + 1, 8, v, out)
  {
    Control(src, p, out);
  }

  lemma {:induction false} LiteralStep(src: seq<byte>, p: nat, k: nat, v: nat, out: seq<byte>)
    requires p < |src| && k > 0 && v % 2 == 1
    ensures Expand(src, p, k, v, out) == Expand(src, p + 1, k - 1, v / 2, out + [src[p]])
  {
    hide Distance, CopyBack;
  }

  lemma {:induction false} RunStep(src: seq<byte>, p: nat, k: nat, v: nat, out: seq<byte>)
    requires p + 1 < |src| && k > 0 && v % 2 == 0
    ensures Expand(src, p, k, v, out) ==
            Expand(src, p + 2, k - 1, v / 2,
                   CopyBack(out, Distance(|out|, RunCell(src[p], src[p + 1])), RunLength(src[p + 1])))
  {
    hide Distance, CopyBack, RunCell, RunLength;
  }
}
