/** Two words of an image that share some bytes, and what adding to one of them
    does to the other. */
module PefCarry {
  import opened Bytes
  import opened PefCode

  /** The word at p and the one at p + d. */
  datatype Pair = Pair(x: u32, y: u32)

  /** The values the bytes before and from p + d on take in the word at p. */
  function LowRange(d: nat): nat { if d == 1 then 0x1000000 else if d == 2 then 0x10000 else 0x100 }

  function HighRange(d: nat): nat { if d == 1 then 0x100 else if d == 2 then 0x10000 else 0x1000000 }

  /** `v` added to the word at p, seen from both words. */
  function StepLow(d: nat, s: Pair, v: u32): Pair {
    var x := Add32(s.x, v);
    Pair(x, (x % LowRange(d) * HighRange(d) + s.y % HighRange(d)) % TWO32)
  }

  /** `v` added to the word at p + d. */
  function StepHigh(d: nat, s: Pair, v: u32): Pair {
    var y := Add32(s.y, v);
    Pair((s.x / LowRange(d) * LowRange(d) + y / HighRange(d)) % TWO32, y)
  }

  function See(b: seq<byte>, p: nat, d: nat): Pair
    requires p + d + 4 <= |b|
  {
    Pair(Rd32(b, p), Rd32(b, p + d))
  }

  lemma {:induction false} LowPatch(b: seq<byte>, p: nat, d: nat, v: u32)
    requires 1 <= d <= 3 && p + d + 4 <= |b|
    ensures See(PatchOne(b, p, v), p, d) == StepLow(d, See(b, p, d), v)
  {
    hide Rd32, Put32, Add32, LowRange, HighRange;
    var x := Add32(Rd32(b, p), v);
    Rd32Put32(b, p, x);
    PutFrame(b, p, x);
    LowSeen(b, Put32(b, p, x), p, d);
    Small(Rd32(Put32(b, p, x), p + d));
  }

  lemma {:induction false} Small(x: u32)
    ensures x % TWO32 == x
  {
  }

  lemma {:induction false} LowSeen(b: seq<byte>, r: seq<byte>, p: nat, d: nat)
    requires 1 <= d <= 3 && p + d + 4 <= |b| == |r|
    requires forall k :: p + 4 <= k < |b| ==> r[k] == b[k]
    ensures Rd32(r, p + d) == Rd32(r, p) % LowRange(d) * HighRange(d) + Rd32(b, p + d) % HighRange(d)
  {
    hide Word;
    if d == 1 {
      LowBytes1(r[p], r[p + 1], r[p + 2], r[p + 3], b[p + 1], b[p + 2], b[p + 3], b[p + 4]);
    } else if d == 2 {
      LowBytes2(r[p], r[p + 1], r[p + 2], r[p + 3], b[p + 2], b[p + 3], b[p + 4], b[p + 5]);
    } else {
      LowBytes3(r[p], r[p + 1], r[p + 2], r[p + 3], b[p + 3], b[p + 4], b[p + 5], b[p + 6]);
    }
  }

  lemma {:induction false} LowBytes1(e0: byte, e1: byte, e2: byte, e3: byte, f0: byte, f1: byte, f2: byte, f3: byte)
    ensures Word(e0, e1, e2, e3) % 0x1000000 * 0x100 + Word(f0, f1, f2, f3) % 0x100 == Word(e1, e2, e3, f3)
  {
    assert Word(e0, e1, e2, e3) % 0x1000000 == e1 * 0x10000 + e2 * 0x100 + e3;
    assert Word(f0, f1, f2, f3) % 0x100 == f3;
  }

  lemma {:induction false} LowBytes2(e0: byte, e1: byte, e2: byte, e3: byte, f0: byte, f1: byte, f2: byte, f3: byte)
    ensures Word(e0, e1, e2, e3) % 0x10000 * 0x10000 + Word(f0, f1, f2, f3) % 0x10000 == Word(e2, e3, f2, f3)
  {
    assert Word(e0, e1, e2, e3) % 0x10000 == e2 * 0x100 + e3;
    assert Word(f0, f1, f2, f3) % 0x10000 == f2 * 0x100 + f3;
  }

  lemma {:induction false} LowBytes3(e0: byte, e1: byte, e2: byte, e3: byte, f0: byte, f1: byte, f2: byte, f3: byte)
    ensures Word(e0, e1, e2, e3) % 0x100 * 0x1000000 + Word(f0, f1, f2, f3) % 0x1000000 == Word(e3, f1, f2, f3)
  {
    assert Word(e0, e1, e2, e3) % 0x100 == e3;
    assert Word(f0, f1, f2, f3) % 0x1000000 == f1 * 0x10000 + f2 * 0x100 + f3;
  }

  lemma {:induction false} HighPatch(b: seq<byte>, p: nat, d: nat, v: u32)
    requires 1 <= d <= 3 && p + d + 4 <= |b|
    ensures See(PatchOne(b, p + d, v), p, d) == StepHigh(d, See(b, p, d), v)
  {
    hide Rd32, Put32, Add32, LowRange, HighRange;
    var y := Add32(Rd32(b, p + d), v);
    Rd32Put32(b, p + d, y);
    PutFrame(b, p + d, y);
    HighSeen(b, Put32(b, p + d, y), p, d);
    Small(Rd32(Put32(b, p + d, y), p));
  }

  lemma {:induction false} HighSeen(b: seq<byte>, r: seq<byte>, p: nat, d: nat)
    requires 1 <= d <= 3 && p + d + 4 <= |b| == |r|
    requires forall k :: 0 <= k < p + d ==> r[k] == b[k]
    ensures Rd32(r, p) == Rd32(b, p) / LowRange(d) * LowRange(d) + Rd32(r, p + d) / HighRange(d)
  {
    hide Word;
    var q := p + d;
    if d == 1 {
      HighBytes1(b[p], b[p + 1], b[p + 2], b[p + 3], r[q], r[q + 1], r[q + 2], r[q + 3]);
    } else if d == 2 {
      HighBytes2(b[p], b[p + 1], b[p + 2], b[p + 3], r[q], r[q + 1], r[q + 2], r[q + 3]);
    } else {
      HighBytes3(b[p], b[p + 1], b[p + 2], b[p + 3], r[q], r[q + 1], r[q + 2], r[q + 3]);
    }
  }

  lemma {:induction false} HighBytes1(e0: byte, e1: byte, e2: byte, e3: byte, f0: byte, f1: byte, f2: byte, f3: byte)
    ensures Word(e0, e1, e2, e3) / 0x1000000 * 0x1000000 + Word(f0, f1, f2, f3) / 0x100 == Word(e0, f0, f1, f2)
  {
    assert Word(e0, e1, e2, e3) / 0x1000000 == e0;
    assert Word(f0, f1, f2, f3) / 0x100 == f0 * 0x10000 + f1 * 0x100 + f2;
  }

  lemma {:induction false} HighBytes2(e0: byte, e1: byte, e2: byte, e3: byte, f0: byte, f1: byte, f2: byte, f3: byte)
    ensures Word(e0, e1, e2, e3) / 0x10000 * 0x10000 + Word(f0, f1, f2, f3) / 0x10000 == Word(e0, e1, f0, f1)
  {
    assert Word(e0, e1, e2, e3) / 0x10000 == e0 * 0x100 + e1;
    assert Word(f0, f1, f2, f3) / 0x10000 == f0 * 0x100 + f1;
  }

  lemma {:induction false} HighBytes3(e0: byte, e1: byte, e2: byte, e3: byte, f0: byte, f1: byte, f2: byte, f3: byte)
    ensures Word(e0, e1, e2, e3) / 0x100 * 0x100 + Word(f0, f1, f2, f3) / 0x1000000 == Word(e0, e1, e2, f0)
  {
    assert Word(e0, e1, e2, e3) / 0x100 == e0 * 0x10000 + e1 * 0x100 + e2;
    assert Word(f0, f1, f2, f3) / 0x1000000 == f0;
  }

  /** Both words patched once, the one at p first if `low`. */
  function Both(d: nat, low: bool, s: Pair, v: u32): Pair {
    if low then StepHigh(d, StepLow(d, s, v), v) else StepLow(d, StepHigh(d, s, v), v)
  }

  /** What to put at p + d, with zeros before it, so that the order of carries
      shows. */
  function Seed(d: nat, low: bool): u32
    requires 1 <= d <= 3
  {
    if low then TWO32 - HighRange(d) - 1 else TWO32 - 2
  }

  /** Adding 1 twice is not adding 2. */
  predicate Shows(d: nat, low: bool)
    requires 1 <= d <= 3
  {
    var s := StepHigh(d, Pair(0, 0), Seed(d, low));
    Both(d, low, Both(d, low, s, 1), 1).x != Both(d, low, s, 2).x
  }

  /** The pair of three numbers: what precedes p + d, what the words share, and
      what follows the word at p. */
  function Parts(d: nat, a: nat, l: nat, z: nat): Pair {
    Pair((a * LowRange(d) + l) % TWO32, (l * HighRange(d) + z) % TWO32)
  }

  predicate Proper(d: nat, a: nat, l: nat, z: nat) { a < HighRange(d) && l < LowRange(d) && z < HighRange(d) }

  lemma {:induction false} Ranges(d: nat)
    requires 1 <= d <= 3
    ensures LowRange(d) * HighRange(d) == TWO32 && LowRange(d) >= 0x100 && HighRange(d) >= 0x100
  {
  }

  lemma {:induction false} PartsExact(d: nat, a: nat, l: nat, z: nat)
    requires 1 <= d <= 3 && Proper(d, a, l, z)
    ensures Parts(d, a, l, z) == Pair(a * LowRange(d) + l, l * HighRange(d) + z)
  {
    Ranges(d);
    hide LowRange, HighRange;
    var m, n := LowRange(d), HighRange(d);
    Below(m, n, a, l);
    Below(n, m, l, z);
    Small(a * m + l);
    Small(l * n + z);
  }

  lemma {:induction false} Below(m: nat, n: nat, a: nat, l: nat)
    requires a < n && l < m
    ensures 0 <= a * m + l < m * n
  {
    Multiples(m, n - a);
    assert m * (n - a) == m * n - a * m;
  }

  /** Adding to the word at p: the carry out of what the words share is kept. */
  lemma {:induction false} LowParts(d: nat, a: nat, l: nat, z: nat, v: nat)
    requires 1 <= d <= 3 && Proper(d, a, l, z) && v <= 2 && a + 1 < HighRange(d)
    ensures StepLow(d, Parts(d, a, l, z), v) ==
            if l + v < LowRange(d) then Parts(d, a, l + v, z) else Parts(d, a + 1, l + v - LowRange(d), z)
  {
    Ranges(d);
    hide LowRange, HighRange;
    var m, n := LowRange(d), HighRange(d);
    PartsExact(d, a, l, z);
    Divided(n, l, z);
    var a', l' := if l + v < m then a else a + 1, if l + v < m then l + v else l + v - m;
    assert (a + 1) * m == a * m + m;
    PartsExact(d, a', l', z);
    Divided(m, a', l');
    Small(a' * m + l');
  }

  /** Adding to the word at p + d: the carry out of what the words share is lost. */
  lemma {:induction false} HighParts(d: nat, a: nat, l: nat, z: nat, v: nat)
    requires 1 <= d <= 3 && Proper(d, a, l, z) && v <= 2
    ensures StepHigh(d, Parts(d, a, l, z), v) ==
            if z + v < HighRange(d) then Parts(d, a, l, z + v)
            else Parts(d, a, if l + 1 == LowRange(d) then 0 else l + 1, z + v - HighRange(d))
  {
    if z + v >= HighRange(d) && l + 1 == LowRange(d) {
      HighWraps(d, a, l, z, v);
    } else {
      HighStays(d, a, l, z, v);
    }
  }

  lemma {:induction false} HighStays(d: nat, a: nat, l: nat, z: nat, v: nat)
    requires 1 <= d <= 3 && Proper(d, a, l, z) && v <= 2 && (z + v < HighRange(d) || l + 1 < LowRange(d))
    ensures StepHigh(d, Parts(d, a, l, z), v) ==
            if z + v < HighRange(d) then Parts(d, a, l, z + v) else Parts(d, a, l + 1, z + v - HighRange(d))
  {
    Ranges(d);
    hide LowRange, HighRange, Parts;
    var m, n := LowRange(d), HighRange(d);
    PartsExact(d, a, l, z);
    Divided(m, a, l);
    var l', z' := if z + v < n then l else l + 1, if z + v < n then z + v else z + v - n;
    assert (l + 1) * n == l * n + n;
    PartsExact(d, a, l', z');
    Divided(n, l', z');
    Small(l' * n + z');
    Below(n, m, l', z');
    Below(m, n, a, l');
    Small(a * m + l');
  }

  lemma {:induction false} HighWraps(d: nat, a: nat, l: nat, z: nat, v: nat)
    requires 1 <= d <= 3 && Proper(d, a, l, z) && v <= 2 && z + v >= HighRange(d) && l + 1 == LowRange(d)
    ensures StepHigh(d, Parts(d, a, l, z), v) == Parts(d, a, 0, z + v - HighRange(d))
  {
    Ranges(d);
    hide LowRange, HighRange;
    var m, n, z' := LowRange(d), HighRange(d), z + v - HighRange(d);
    PartsExact(d, a, l, z);
    Divided(m, a, l);
    assert (l + 1) * n == l * n + n;
    PartsExact(d, a, 0, z');
    Divided(n, 0, z');
    assert l * n + z + v == TWO32 + z';
    hide Parts;
    assert Add32(l * n + z, v) == z';
    Below(m, n, a, 0);
    Small(a * m);
  }

  lemma {:induction false} SeedParts(d: nat, low: bool)
    requires 1 <= d <= 3
    ensures StepHigh(d, Pair(0, 0), Seed(d, low)) ==
            if low then Parts(d, 0, LowRange(d) - 2, HighRange(d) - 1)
            else Parts(d, 0, LowRange(d) - 1, HighRange(d) - 2)
  {
  }

  lemma {:induction false} PartsDiffer(d: nat, l: nat, k: nat, y: nat, z: nat)
    requires 1 <= d <= 3 && l < LowRange(d) && k < LowRange(d)
    ensures Parts(d, 0, l, y).x != Parts(d, 1, k, z).x
  {
  }

  lemma {:induction false} CarriesShow(d: nat, low: bool)
    requires 1 <= d <= 3
    ensures Shows(d, low)
  {
    if low {
      LowFirstShows(d);
    } else {
      HighFirstShows(d);
    }
    hide Shows;
  }

  lemma {:induction false} LowFirstShows(d: nat)
    requires 1 <= d <= 3
    ensures Shows(d, true)
  {
    var m, n := LowRange(d), HighRange(d);
    Ranges(d);
    hide LowRange, HighRange, StepLow, StepHigh, Parts, Seed;
    SeedParts(d, true);
    LowParts(d, 0, m - 2, n - 1, 1);
    HighParts(d, 0, m - 1, n - 1, 1);
    LowParts(d, 0, 0, 0, 1);
    HighParts(d, 0, 1, 0, 1);
    LowParts(d, 0, m - 2, n - 1, 2);
    HighParts(d, 1, 0, n - 1, 2);
    PartsDiffer(d, 1, 1, 1, 1);
  }

  lemma {:induction false} HighFirstShows(d: nat)
    requires 1 <= d <= 3
    ensures Shows(d, false)
  {
    var m, n := LowRange(d), HighRange(d);
    Ranges(d);
    hide LowRange, HighRange, StepLow, StepHigh, Parts, Seed;
    SeedParts(d, false);
    HighParts(d, 0, m - 1, n - 2, 1);
    LowParts(d, 0, m - 1, n - 1, 1);
    HighParts(d, 1, 0, n - 1, 1);
    LowParts(d, 1, 1, 0, 1);
    HighParts(d, 0, m - 1, n - 2, 2);
    LowParts(d, 0, 0, 0, 2);
    PartsDiffer(d, 2, 2, 0, 0);
  }
}
