/** Bytes, machine words and big-endian access, shared by every other module. */
module Bytes {
  const TWO32: int := 0x1_0000_0000
  const TWO64: int := 0x1_0000_0000_0000_0000

  type byte = x: int | 0 <= x < 0x100
  type u16 = x: int | 0 <= x < 0x1_0000
  type u32 = x: int | 0 <= x < 0x1_0000_0000
  type u64 = x: int | 0 <= x < 0x1_0000_0000_0000_0000

  datatype Option<+T> = None | Some(value: T)

  function Min(a: nat, b: nat): nat { if a <= b then a else b }

  function Pow2(n: nat): (r: nat)
    ensures r >= 1
  {
    if n == 0 then 1 else 2 * Pow2(n - 1)
  }

  lemma {:induction false} Multiples(m: int, k: int)
    requires m > 0
    ensures (k >= 1 ==> m * k >= m) && (k <= -1 ==> m * k <= -m)
  {
  }

  lemma {:induction false} MultipleMod(m: int, q: int)
    requires m > 0
    ensures (m * q) % m == 0
  {
    var r, d := (m * q) % m, (m * q) / m;
    assert m * (q - d) == r;
    Multiples(m, q - d);
  }

  lemma {:induction false} Divided(m: int, q: int, r: int)
    requires 0 <= r < m
    ensures (q * m + r) / m == q && (q * m + r) % m == r
  {
    var x := q * m + r;
    assert m * (x / m - q) == r - x % m;
    Multiples(m, x / m - q);
  }

  lemma {:induction false} AddMultiple(x: nat, k: nat)
    ensures (x + TWO32 * k) % TWO32 == x % TWO32
  {
  }

  lemma {:induction false} FloorBelow(y: nat, a: nat)
    requires a >= 1
    ensures 0 <= y / a * a <= y < y / a * a + a && (y / a * a) % a == 0
  {
    assert y == y / a * a + y % a;
    var q := y / a;
    assert q * a == a * q;
    MultipleMod(a, q);
  }

  function Times<T>(n: nat, s: seq<T>): seq<T> {
    if n == 0 then [] else Times(n - 1, s) + s
  }

  lemma {:induction false} Assoc<T>(x: seq<T>, y: seq<T>, z: seq<T>)
    ensures (x + y) + z == x + (y + z)
  {
  }

  /** `b` with `src` written over it at `at`. */
  function Splice(b: seq<byte>, at: nat, src: seq<byte>): (r: seq<byte>)
    requires at + |src| <= |b|
    ensures |r| == |b|
  {
    b[..at] + src + b[at + |src|..]
  }

  lemma {:induction false} SpliceNone(b: seq<byte>, at: nat)
    requires at <= |b|
    ensures Splice(b, at, []) == b
  {
  }

  /** Two pieces stored one behind the other. */
  lemma {:induction false} SplicePair(b: seq<byte>, at: nat, x: seq<byte>, y: seq<byte>)
    requires at + |x| + |y| <= |b|
    ensures Splice(Splice(b, at, x), at + |x|, y) == Splice(b, at, x + y)
  {
  }

  function Zeros(n: nat): (r: seq<byte>)
    ensures |r| == n && forall i :: 0 <= i < n ==> r[i] == 0
  {
    if n == 0 then [] else Zeros(n - 1) + [0]
  }

  /** Unsigned 32-bit addition and subtraction. */
  function Add32(a: int, b: int): u32 { (a + b) % TWO32 }

  function Sub32(a: int, b: int): u32 { (a - b) % TWO32 }

  function Word(a: int, b: int, c: int, d: int): int {
    a * 0x1000000 + b * 0x10000 + c * 0x100 + d
  }

  function Rd16(b: seq<byte>, p: nat): u16
    requires p + 2 <= |b|
  {
    Word(0, 0, b[p], b[p + 1])
  }

  function Rd32(b: seq<byte>, p: nat): u32
    requires p + 4 <= |b|
  {
    Word(b[p], b[p + 1], b[p + 2], b[p + 3])
  }

  /** `b` with the big-endian word `v` stored at `p`. */
  function Put32(b: seq<byte>, p: nat, v: u32): (r: seq<byte>)
    requires p + 4 <= |b|
    ensures |r| == |b|
  {
    b[p := v / 0x1000000][p + 1 := v / 0x10000 % 0x100][p + 2 := v / 0x100 % 0x100][p + 3 := v % 0x100]
  }

  lemma {:induction false} Rd32Put32(b: seq<byte>, p: nat, v: u32)
    requires p + 4 <= |b|
    ensures Rd32(Put32(b, p, v), p) == v
  {
    BytesWord(v);
    var r := Put32(b, p, v);
    assert r[p] == v / 0x1000000 && r[p + 1] == v / 0x10000 % 0x100;
    assert r[p + 2] == v / 0x100 % 0x100 && r[p + 3] == v % 0x100;
    hide Put32;
  }

  lemma {:induction false} BytesWord(v: u32)
    ensures Word(v / 0x1000000, v / 0x10000 % 0x100, v / 0x100 % 0x100, v % 0x100) == v
  {
    assert v / 0x10000 / 0x100 == v / 0x1000000;
    assert v / 0x100 / 0x100 == v / 0x10000;
  }

  lemma {:induction false} WordBytes(a: byte, b: byte, c: byte, d: byte)
    ensures var v := Word(a, b, c, d);
      v / 0x1000000 == a && v / 0x10000 % 0x100 == b && v / 0x100 % 0x100 == c && v % 0x100 == d
  {
    var v := Word(a, b, c, d);
    assert v / 0x10000 == a * 0x100 + b;
    assert v / 0x100 == a * 0x10000 + b * 0x100 + c;
  }

  lemma {:induction false} Put32Rd32(b: seq<byte>, p: nat)
    requires p + 4 <= |b|
    ensures Put32(b, p, Rd32(b, p)) == b
  {
    WordBytes(b[p], b[p + 1], b[p + 2], b[p + 3]);
  }

  lemma {:induction false} PutFrame(b: seq<byte>, p: nat, v: u32)
    requires p + 4 <= |b|
    ensures forall k :: (0 <= k < p || p + 4 <= k < |b|) ==> Put32(b, p, v)[k] == b[k]
  {
  }

  method Read32(a: array<byte>, p: nat) returns (w: u32)
    requires p + 4 <= a.Length
    ensures w == Rd32(a[..], p)
  {
    w := Word(a[p], a[p + 1], a[p + 2], a[p + 3]);
  }

  method Write32(a: array<byte>, p: nat, v: u32)
    requires p + 4 <= a.Length
    modifies a
    ensures a[..] == Put32(old(a[..]), p, v)
  {
    a[p] := v / 0x1000000;
    a[p + 1] := v / 0x10000 % 0x100;
    a[p + 2] := v / 0x100 % 0x100;
    a[p + 3] := v % 0x100;
  }

  /** A slice of a slice. */
  lemma {:induction false} Window(m: seq<byte>, start: nat, len: nat, skip: nat, size: nat)
    requires start + len <= |m| && skip + size <= len
    ensures m[start..start + len][skip..skip + size] == m[start + skip..start + skip + size]
  {
    var w := m[start..start + len];
    var x, y := w[skip..skip + size], m[start + skip..start + skip + size];
    forall i | 0 <= i < size ensures x[i] == y[i] {
      assert x[i] == w[skip + i];
    }
  }

  lemma {:induction false} SplitAt(src: seq<byte>, p: nat, a: seq<byte>, b: seq<byte>)
    requires p + |a + b| <= |src| && src[p..p + |a + b|] == a + b
    ensures src[p..p + |a|] == a && src[p + |a|..p + |a| + |b|] == b
  {
    var w := src[p..p + |a + b|];
    Window(src, p, |a + b|, 0, |a|);
    Window(src, p, |a + b|, |a|, |b|);
    assert w[0..|a|] == a && w[|a|..|a| + |b|] == b;
  }

  /** Overwrite buf[at..] with `src`. */
  method CopyInto(src: seq<byte>, buf: array<byte>, at: nat)
    requires at + |src| <= buf.Length
    modifies buf
    ensures buf[..] == Splice(old(buf[..]), at, src)
  {
    for i := 0 to |src|
      invariant forall k :: 0 <= k < buf.Length ==> buf[k] == if at <= k < at + i then src[k - at] else old(buf[k])
    {
      buf[at + i] := src[i];
    }
  }

  method ZeroBlock(n: nat) returns (z: seq<byte>)
    ensures z == Zeros(n)
  {
    z := [];
    for i := 0 to n
      invariant z == Zeros(i)
    {
      z := z + [0];
    }
  }
}
