/** Placing the sections of a fragment in guest memory, and its TOC. */
module PefPlace {
  import opened Bytes
  import opened PefCode
  import opened PefAlgebra
  import opened PefSection

  datatype SectionHeader = SectionHeader(defaultAddress: u32, totalLength: u32, kind: byte, alignment: byte)

  datatype Area = Code | Data | Nowhere

  function AreaOf(kind: byte): Area {
    if kind == 0 || kind == 6 then Code
    else if kind == 1 || kind == 2 || kind == 3 then Data
    else Nowhere
  }

  function Align(s: SectionHeader): (r: nat)
    ensures r >= 1
  {
    if s.alignment <= 15 then Pow2(s.alignment) else 16
  }

  /** `x` rounded up to a multiple of `a`, in 32-bit arithmetic. */
  function RoundUp(x: u32, a: nat): u32
    requires a >= 1
  {
    var y := Add32(x, a - 1);
    assert y / a * a <= y by { FloorBelow(y, a); }
    FloorBelow(y, a);
    y / a * a
  }

  datatype Layout = Layout(code: u32, data: u32, bases: seq<u32>)

  /** The first `n` sections placed one after the other in their areas. */
  function Place(ss: seq<SectionHeader>, n: nat, code: u32, data: u32): (l: Layout)
    requires n <= |ss|
    ensures |l.bases| == n
  {
    if n == 0 then Layout(code, data, [])
    else
      var l := Place(ss, n - 1, code, data);
      var s := ss[n - 1];
      match AreaOf(s.kind)
      case Code =>
        var b := RoundUp(l.code, Align(s));
        Layout(Add32(b, s.totalLength), l.data, l.bases + [b])
      case Data =>
        var b := RoundUp(l.data, Align(s));
        Layout(l.code, Add32(b, s.totalLength), l.bases + [b])
      case Nowhere => Layout(l.code, l.data, l.bases + [0])
  }

  class PefFragment {
    const sections: seq<SectionHeader>
    const initSection: int
    const initOffset: u32
    /** Host image of each section, none for the sections not instantiated. */
    const expanded: seq<array?<byte>>
    const secBase: array<u32>
    var toc: u32

    constructor (sections: seq<SectionHeader>, initSection: int, initOffset: u32, expanded: seq<array?<byte>>)
      ensures this.sections == sections && this.initSection == initSection && this.initOffset == initOffset
      ensures this.expanded == expanded && secBase.Length == 16 && fresh(secBase)
    {
      this.sections, this.initSection, this.initOffset := sections, initSection, initOffset;
      this.expanded, secBase, toc := expanded, new u32[16](_ => 0), 0;
    }

    /** The init transition vector, when there is one, is inside its image. */
    ghost predicate Valid()
    {
      && |sections| <= 16 && |expanded| == |sections| && secBase.Length == 16
      && (HasInit() ==> initOffset + 8 <= expanded[initSection].Length)
      && forall i :: 0 <= i < |expanded| ==> expanded[i] as object? != secBase as object
    }

    predicate HasInit()
      requires |expanded| == |sections|
    {
      0 <= initSection < |sections| && expanded[initSection] != null
    }

    /** Assign a base to every section and derive the value of r2. */
    method PefPlaceFragment(codeBase: u32, dataBase: u32) returns (r: u32)
      requires Valid()
      modifies this`toc, secBase
      ensures secBase[..|sections|] == Place(sections, |sections|, codeBase, dataBase).bases
      ensures secBase[|sections|..] == old(secBase[|sections|..])
      ensures r == toc
      ensures toc == if 0 <= initSection < |sections| && expanded[initSection] != null then
                       Add32(secBase[initSection],
                             Sub32(Rd32(expanded[initSection][..], initOffset + 4), sections[initSection].defaultAddress))
                     else 0
    {
      var codeCur, dataCur := codeBase, dataBase;
      var i := 0;
      while i < |sections|
        invariant i <= |sections|
        invariant Place(sections, i, codeBase, dataBase) == Layout(codeCur, dataCur, secBase[..i])
        invariant secBase[|sections|..] == old(secBase[|sections|..])
      {
        var s := sections[i];
        var align := if s.alignment <= 15 then Pow2(s.alignment) else 16;
        var sz := s.totalLength;
        if s.kind == 0 || s.kind == 6 {
          codeCur := RoundUp(codeCur, align);
          secBase[i] := codeCur;
          codeCur := Add32(codeCur, sz);
        } else if s.kind == 1 || s.kind == 2 || s.kind == 3 {
          dataCur := RoundUp(dataCur, align);
          secBase[i] := dataCur;
          dataCur := Add32(dataCur, sz);
        } else {
          secBase[i] := 0;
        }
        i := i + 1;
      }
      toc := 0;
      if 0 <= initSection < |sections| && expanded[initSection] != null {
        var raw := Read32(expanded[initSection], initOffset + 4);
        toc := Add32(secBase[initSection], Sub32(raw, sections[initSection].defaultAddress));
      }
      return toc;
    }
  }

  /** The 32-bit cursor survives the placing of `s`: neither rounding it up nor
      adding the section wraps. */
  predicate FitsAt(x: u32, s: SectionHeader) {
    x + Align(s) - 1 < TWO32 && RoundUp(x, Align(s)) + s.totalLength < TWO32
  }

  /** No cursor wraps while the first `n` sections are placed. */
  predicate Enough(ss: seq<SectionHeader>, n: nat, code: u32, data: u32)
    requires n <= |ss|
  {
    n == 0 ||
    (Enough(ss, n - 1, code, data) &&
     (AreaOf(ss[n - 1].kind) != Nowhere ==>
        FitsAt(Reach(Place(ss, n - 1, code, data), AreaOf(ss[n - 1].kind)), ss[n - 1])))
  }

  /** `x` rounded up, without a limit. */
  function Ceiling(x: nat, a: nat): nat
    requires a >= 1
  {
    FloorBelow(x + a - 1, a);
    (x + a - 1) / a * a
  }

  /** Where the sections of an area would end in unbounded arithmetic. */
  function Extent(ss: seq<SectionHeader>, n: nat, start: nat, area: Area): nat
    requires n <= |ss|
  {
    if n == 0 then start
    else
      var x, s := Extent(ss, n - 1, start, area), ss[n - 1];
      if AreaOf(s.kind) == area then Ceiling(x, Align(s)) + s.totalLength else x
  }

  lemma {:induction false} PowersOfTwo(n: nat)
    requires n <= 15
    ensures Pow2(n) * Pow2(32 - n) == TWO32
  {
    hide Pow2;
    PowSum(n, 32 - n);
    Pow2At8();
    PowSum(8, 8);
    PowSum(16, 16);
  }

  lemma {:induction false} Pow2At8()
    ensures Pow2(8) == 0x100
  {
  }

  lemma {:induction false} PowSum(m: nat, n: nat)
    ensures Pow2(m) * Pow2(n) == Pow2(m + n)
  {
    if m > 0 {
      PowSum(m - 1, n);
      assert Pow2(m) * Pow2(n) == 2 * (Pow2(m - 1) * Pow2(n));
    }
  }

  lemma {:induction false} AlignDivides(s: SectionHeader) returns (k: nat)
    ensures Align(s) * k == TWO32
  {
    if s.alignment <= 15 {
      PowersOfTwo(s.alignment);
      k := Pow2(32 - s.alignment);
    } else {
      k := 0x10000000;
    }
  }

  /** The 32-bit cursor survives exactly if the unbounded one stays below 2^32. */
  lemma {:induction false} FitsExactly(x: u32, s: SectionHeader)
    ensures FitsAt(x, s) <==> Ceiling(x, Align(s)) + s.totalLength < TWO32
    ensures FitsAt(x, s) ==> RoundUp(x, Align(s)) == Ceiling(x, Align(s))
  {
    var k := AlignDivides(s);
    hide Align;
    var a := Align(s);
    var c := (x + a - 1) / a;
    FloorBelow(x + a - 1, a);
    assert a * (k - c) == TWO32 - c * a && a * (k - c - 1) == TWO32 - c * a - a;
    Multiples(a, k - c);
    Multiples(a, k - c - 1);
    if x + a - 1 < TWO32 {
      assert Add32(x, a - 1) == x + a - 1;
    }
  }

  /** No cursor wraps exactly if the last byte of each area, in unbounded
      arithmetic, lies below 2^32; and then the cursors end there. */
  lemma {:induction false} EnoughExactly(ss: seq<SectionHeader>, n: nat, code: u32, data: u32)
    requires n <= |ss|
    ensures Enough(ss, n, code, data) <==> Extent(ss, n, code, Code) < TWO32 && Extent(ss, n, data, Data) < TWO32
    ensures Enough(ss, n, code, data) ==>
      var l := Place(ss, n, code, data);
      l.code == Extent(ss, n, code, Code) && l.data == Extent(ss, n, data, Data)
  {
    if n > 0 {
      hide FitsAt, Align, RoundUp, Ceiling, Add32;
      EnoughExactly(ss, n - 1, code, data);
      var l, s := Place(ss, n - 1, code, data), ss[n - 1];
      ExtentGrows(ss, n, code, Code);
      ExtentGrows(ss, n, data, Data);
      FitsExactly(l.code, s);
      FitsExactly(l.data, s);
      if Enough(ss, n, code, data) && AreaOf(s.kind) != Nowhere {
        Advance(Reach(l, AreaOf(s.kind)), s);
      }
    }
  }

  lemma {:induction false} ExtentGrows(ss: seq<SectionHeader>, n: nat, start: nat, area: Area)
    requires 0 < n <= |ss|
    ensures Extent(ss, n - 1, start, area) <= Extent(ss, n, start, area)
  {
    FloorBelow(Extent(ss, n - 1, start, area) + Align(ss[n - 1]) - 1, Align(ss[n - 1]));
    hide Align;
  }

  function Reach(l: Layout, area: Area): u32 {
    match area
    case Code => l.code
    case Data => l.data
    case Nowhere => 0
  }

  lemma {:induction false} RoundUpExact(x: u32, a: nat)
    requires a >= 1 && x + a - 1 < TWO32
    ensures x <= RoundUp(x, a) < x + a && RoundUp(x, a) % a == 0
  {
    FloorBelow(x + a - 1, a);
  }

  /** One section's place, relative to the cursors before and after it. */
  lemma {:induction false} PlaceStep(ss: seq<SectionHeader>, n: nat, code: u32, data: u32)
    requires 0 < n <= |ss| && Enough(ss, n, code, data)
    ensures var l, m, s := Place(ss, n - 1, code, data), Place(ss, n, code, data), ss[n - 1];
      var area := AreaOf(s.kind);
      && m.bases[..n - 1] == l.bases
      && l.code <= m.code && l.data <= m.data
      && (area != Nowhere ==>
            && Reach(l, area) <= m.bases[n - 1]
            && m.bases[n - 1] + s.totalLength == Reach(m, area)
            && m.bases[n - 1] % Align(s) == 0)
      && (area == Nowhere ==> m.bases[n - 1] == 0)
  {
    hide RoundUp, Align, Add32, FitsAt;
    var l, s := Place(ss, n - 1, code, data), ss[n - 1];
    match AreaOf(s.kind) {
      case Code => Advance(l.code, s);
      case Data => Advance(l.data, s);
      case Nowhere =>
    }
  }

  lemma {:induction false} Advance(x: u32, s: SectionHeader)
    requires FitsAt(x, s)
    ensures var b := RoundUp(x, Align(s));
      && x <= b && b % Align(s) == 0
      && Add32(b, s.totalLength) == b + s.totalLength
  {
    RoundUpExact(x, Align(s));
    hide RoundUp, Align;
  }

  /** Section `i` lies in [lo, hi), on a multiple of its alignment. */
  ghost predicate Placed(ss: seq<SectionHeader>, bases: seq<u32>, i: nat, lo: nat, hi: nat)
    requires i < |ss| && i < |bases|
  {
    lo <= bases[i] && bases[i] + ss[i].totalLength <= hi && bases[i] % Align(ss[i]) == 0
  }

  ghost predicate InArea(ss: seq<SectionHeader>, l: Layout, i: nat, code: u32, data: u32)
    requires i < |ss| && i < |l.bases|
  {
    match AreaOf(ss[i].kind)
    case Code => Placed(ss, l.bases, i, code, l.code)
    case Data => Placed(ss, l.bases, i, data, l.data)
    case Nowhere => l.bases[i] == 0
  }

  ghost predicate Disjoint(ss: seq<SectionHeader>, bases: seq<u32>, i: nat, j: nat)
    requires i < |ss| && i < |bases| && j < |ss| && j < |bases|
  {
    bases[i] + ss[i].totalLength <= bases[j] || bases[j] + ss[j].totalLength <= bases[i]
  }

  /** When no cursor wraps, every section is aligned and inside its area, and
      two sections of one area are disjoint. */
  lemma {:induction false} PlacementSound(ss: seq<SectionHeader>, n: nat, code: u32, data: u32)
    requires n <= |ss| && Enough(ss, n, code, data)
    ensures var l := Place(ss, n, code, data);
      && code <= l.code && data <= l.data
      && (forall i :: 0 <= i < n ==> InArea(ss, l, i, code, data))
      && (forall i, j :: 0 <= i < j < n && AreaOf(ss[i].kind) == AreaOf(ss[j].kind) != Nowhere ==>
            Disjoint(ss, l.bases, i, j))
  {
    if n > 0 {
      PlacementSound(ss, n - 1, code, data);
      PlaceStep(ss, n, code, data);
      hide Place, Enough, RoundUp, Align, InArea;
      var l, m := Place(ss, n - 1, code, data), Place(ss, n, code, data);
      forall i | 0 <= i < n ensures InArea(ss, m, i, code, data) {
        if i < n - 1 {
          assert m.bases[i] == m.bases[..n - 1][i] && InArea(ss, l, i, code, data);
          AreaGrows(ss, l, m, i, code, data);
        } else {
          LastInArea(ss, l, m, n, code, data);
        }
      }
      forall i, j | 0 <= i < j < n && AreaOf(ss[i].kind) == AreaOf(ss[j].kind) != Nowhere
        ensures Disjoint(ss, m.bases, i, j)
      {
        assert m.bases[i] == m.bases[..n - 1][i];
        if j < n - 1 {
          assert m.bases[j] == m.bases[..n - 1][j] && Disjoint(ss, l.bases, i, j);
        } else {
          BelowCursor(ss, l, i, code, data);
        }
      }
    }
  }

  /** Sections by their kind number: 0 and 6 go to the code area, 1 to 3 to the data
      area, each on a multiple of 2 to its alignment, or of 16 if that is above 15;
      the others are given base 0. */
  lemma {:induction false} PlacedByKind(ss: seq<SectionHeader>, code: u32, data: u32, i: nat)
    requires Enough(ss, |ss|, code, data) && i < |ss|
    ensures var l, s := Place(ss, |ss|, code, data), ss[i];
      var b, a := l.bases[i], if s.alignment <= 15 then Pow2(s.alignment) else 16;
      && (s.kind in {0, 6} ==> code <= b && b + s.totalLength <= l.code && b % a == 0)
      && (s.kind in {1, 2, 3} ==> data <= b && b + s.totalLength <= l.data && b % a == 0)
      && (s.kind !in {0, 1, 2, 3, 6} ==> b == 0)
  {
    PlacementSound(ss, |ss|, code, data);
    assert InArea(ss, Place(ss, |ss|, code, data), i, code, data);
    hide Place, Enough;
  }

  /** Nothing is wasted: a section starts less than its alignment behind the end of
      the section before it in its area. */
  lemma {:induction false} PlacedTightly(ss: seq<SectionHeader>, n: nat, code: u32, data: u32)
    requires 0 < n <= |ss| && Enough(ss, n, code, data)
    ensures var l, m, s := Place(ss, n - 1, code, data), Place(ss, n, code, data), ss[n - 1];
      var b, a := m.bases[n - 1], if s.alignment <= 15 then Pow2(s.alignment) else 16;
      && (s.kind in {0, 6} ==> l.code <= b < l.code + a && m.code == b + s.totalLength && m.data == l.data)
      && (s.kind in {1, 2, 3} ==> l.data <= b < l.data + a && m.data == b + s.totalLength && m.code == l.code)
      && (s.kind !in {0, 1, 2, 3, 6} ==> m.code == l.code && m.data == l.data)
  {
    hide RoundUp, Add32, Pow2;
    var l, s := Place(ss, n - 1, code, data), ss[n - 1];
    if AreaOf(s.kind) != Nowhere {
      Advance(Reach(l, AreaOf(s.kind)), s);
      RoundUpExact(Reach(l, AreaOf(s.kind)), Align(s));
    }
  }

  lemma {:induction false} AreaGrows(ss: seq<SectionHeader>, l: Layout, m: Layout, i: nat, code: u32, data: u32)
    requires i < |ss| && i < |l.bases| && i < |m.bases|
    requires InArea(ss, l, i, code, data) && m.bases[i] == l.bases[i] && l.code <= m.code && l.data <= m.data
    ensures InArea(ss, m, i, code, data)
  {
  }

  lemma {:induction false} BelowCursor(ss: seq<SectionHeader>, l: Layout, i: nat, code: u32, data: u32)
    requires i < |ss| && i < |l.bases| && InArea(ss, l, i, code, data) && AreaOf(ss[i].kind) != Nowhere
    ensures l.bases[i] + ss[i].totalLength <= Reach(l, AreaOf(ss[i].kind))
  {
  }

  lemma {:induction false} LastInArea(ss: seq<SectionHeader>, l: Layout, m: Layout, n: nat, code: u32, data: u32)
    requires 0 < n <= |ss| && |m.bases| == n && code <= l.code && data <= l.data
    requires var s := ss[n - 1];
      var area := AreaOf(s.kind);
      && (area != Nowhere ==>
            && Reach(l, area) <= m.bases[n - 1]
            && m.bases[n - 1] + s.totalLength == Reach(m, area)
            && m.bases[n - 1] % Align(s) == 0)
      && (area == Nowhere ==> m.bases[n - 1] == 0)
    ensures InArea(ss, m, n - 1, code, data)
  {
  }

  /** With separate areas, no two instantiated sections overlap. */
  lemma {:induction false} SectionsDisjoint(ss: seq<SectionHeader>, code: u32, data: u32, i: nat, j: nat)
    requires Enough(ss, |ss|, code, data)
    requires var l := Place(ss, |ss|, code, data);
      l.code <= data || l.data <= code
    requires i < j < |ss| && ss[i].kind in {0, 1, 2, 3, 6} && ss[j].kind in {0, 1, 2, 3, 6}
    ensures var b := Place(ss, |ss|, code, data).bases;
      b[i] + ss[i].totalLength <= b[j] || b[j] + ss[j].totalLength <= b[i]
  {
    PlacementSound(ss, |ss|, code, data);
    hide Place, Enough;
    var l := Place(ss, |ss|, code, data);
    assert InArea(ss, l, i, code, data) && InArea(ss, l, j, code, data);
  }

  lemma {:induction false} OneDataPatchTotal(env: Bases, fs: seq<Fixup>, p: nat, k: int)
    requires -1 <= k < |fs| && (k >= 0 ==> fs[k] == Fixup(p, Section(1)))
    requires forall i :: 0 <= i < |fs| && i != k ==> fs[i].pos != p
    ensures Total(env, fs, p) == if k >= 0 then env.Value(Section(1)) else 0
  {
    if fs != [] {
      OneDataPatchTotal(env, fs[..|fs| - 1], p, if k == |fs| - 1 then -1 else k);
    }
  }

  /** The TOC computed from the unrelocated init vector of section 1 is the word
      that vector holds once the section is relocated. */
  lemma {:induction false} TocAfterRelocation(progs: seq<seq<Prim>>, env: Bases, image: seq<byte>, off: nat, toc: u32,
                                            k: nat)
    requires off + 8 <= |image| && |env.sec| >= 2
    requires toc == Add32(env.sec[1], Sub32(Rd32(image, off + 4), 0))
    requires var fs := SectionTrace(progs, 0, |image|).fixes;
      && ApartFrom(fs, off + 4) && k < |fs| && fs[k] == Fixup(off + 4, Section(1))
      && forall i :: 0 <= i < |fs| && i != k ==> fs[i].pos != off + 4
    ensures Rd32(Patch(env, image, SectionTrace(progs, 0, |image|).fixes), off + 4) == toc
  {
    hide Patch, SectionTrace, Rd32, Total;
    var fs := SectionTrace(progs, 0, |image|).fixes;
    OneDataPatchTotal(env, fs, off + 4, k);
    PatchedWord(env, image, fs, off + 4);
    assert Sub32(Rd32(image, off + 4), 0) == Rd32(image, off + 4);
  }
}
