/** The walk along the parcel chain of a compressed ROM file. */
module Parcels {
  import opened Bytes
  import opened Lzss

  const PRCL: u32 := 0x7072636C
  const ROM_TYPE: u32 := 0x726F6D20
  const FIRST: nat := 0x14

  function NextAt(img: seq<byte>, o: nat): u32
    requires o + 12 <= |img|
  {
    Rd32(img, o)
  }

  function TypeAt(img: seq<byte>, o: nat): u32
    requires o + 12 <= |img|
  {
    Rd32(img, o + 4)
  }

  function DataAt(img: seq<byte>, o: nat): nat
    requires o + 12 <= |img|
  {
    o + Rd32(img, o + 8)
  }

  /** `o` holds a parcel of another type whose link to `n` is good. */
  predicate Link(img: seq<byte>, o: nat, n: nat) {
    o + 12 <= |img| && TypeAt(img, o) != ROM_TYPE && n == NextAt(img, o) && o < n <= |img|
  }

  /** `o` holds a 'rom ' parcel whose data lies between its offset and its link. */
  predicate RomParcel(img: seq<byte>, o: nat) {
    && o + 12 <= |img| && TypeAt(img, o) == ROM_TYPE
    && DataAt(img, o) <= NextAt(img, o) <= |img|
  }

  function RomData(img: seq<byte>, o: nat): seq<byte>
    requires RomParcel(img, o)
  {
    img[DataAt(img, o)..NextAt(img, o)]
  }

  /** The offsets of a chain of good links from the first parcel. */
  ghost predicate Chain(img: seq<byte>, path: seq<nat>) {
    && |path| > 0 && path[0] == FIRST
    && forall i :: 0 <= i < |path| - 1 ==> Link(img, path[i], path[i + 1])
  }

  predicate Container(img: seq<byte>) { FIRST + 16 <= |img| && Rd32(img, 0) == PRCL }

  datatype Found = Rom(o: nat) | Error

  /** Where the walk from `o` ends. */
  function WalkFrom(img: seq<byte>, o: nat): (f: Found)
    ensures f.Rom? ==> RomParcel(img, f.o)
    decreases |img| - o
  {
    if o + 12 > |img| then Error
    else if TypeAt(img, o) == ROM_TYPE then if RomParcel(img, o) then Rom(o) else Error
    else if Link(img, o, NextAt(img, o)) then WalkFrom(img, NextAt(img, o))
    else Error
  }

  /** The container and its parcels by their bytes: 'prcl' in front, and in each
      parcel the offset of the next, the type, and the distance of the data. */
  lemma {:induction false} ParcelBytes(img: seq<byte>, o: nat)
    ensures Container(img) <==>
            |img| >= 36 && img[0] == 0x70 && img[1] == 0x72 && img[2] == 0x63 && img[3] == 0x6C
    ensures o + 12 <= |img| ==>
      && NextAt(img, o) == Word(img[o], img[o + 1], img[o + 2], img[o + 3])
      && (TypeAt(img, o) == ROM_TYPE <==>
            img[o + 4] == 0x72 && img[o + 5] == 0x6F && img[o + 6] == 0x6D && img[o + 7] == 0x20)
      && DataAt(img, o) == o + Word(img[o + 8], img[o + 9], img[o + 10], img[o + 11])
    ensures forall n: nat :: Link(img, o, n) <==>
              && o + 12 <= |img|
              && !(img[o + 4] == 0x72 && img[o + 5] == 0x6F && img[o + 6] == 0x6D && img[o + 7] == 0x20)
              && n == Word(img[o], img[o + 1], img[o + 2], img[o + 3]) && o < n <= |img|
    ensures RomParcel(img, o) <==>
            && o + 12 <= |img|
            && img[o + 4] == 0x72 && img[o + 5] == 0x6F && img[o + 6] == 0x6D && img[o + 7] == 0x20
            && o + Word(img[o + 8], img[o + 9], img[o + 10], img[o + 11]) <= Word(img[o], img[o + 1], img[o + 2], img[o + 3]) <= |img|
    ensures RomParcel(img, o) ==>
            RomData(img, o) == img[o + Word(img[o + 8], img[o + 9], img[o + 10], img[o + 11])..
                                   Word(img[o], img[o + 1], img[o + 2], img[o + 3])]
  {
    if |img| >= 36 {
      WordBytes(img[0], img[1], img[2], img[3]);
      WordBytes(0x70, 0x72, 0x63, 0x6C);
    }
    if o + 12 <= |img| {
      WordBytes(img[o + 4], img[o + 5], img[o + 6], img[o + 7]);
      WordBytes(0x72, 0x6F, 0x6D, 0x20);
    }
    assert Word(0x70, 0x72, 0x63, 0x6C) == PRCL && Word(0x72, 0x6F, 0x6D, 0x20) == ROM_TYPE;
    hide Word;
  }

  /** Expand the first 'rom ' parcel of the chain into the destination. */
  method BootDecodeParcels(img: seq<byte>, dict: array<byte>, dest: array<byte>) returns (ok: bool)
    requires dict != dest && dict.Length == RING
    modifies dict, dest
    ensures ok <==> Container(img) && WalkFrom(img, FIRST).Rom?
    ensures !ok ==> dest[..] == old(dest[..])
    ensures ok ==>
      var out := Expansion(RomData(img, WalkFrom(img, FIRST).o));
      Clipped(dest[..], old(dest[..]), Min(|out|, dest.Length), out)
  {
    hide Expand, Clipped;
    if |img| < FIRST + 16 || Rd32(img, 0) != PRCL {
      return false;
    }
    var offset: nat := FIRST;
    while offset != 0
      invariant offset != 0 && WalkFrom(img, offset) == WalkFrom(img, FIRST)
      invariant dest[..] == old(dest[..]) && dict.Length == RING
      decreases |img| - offset
    {
      var parcelBase := offset;
      if parcelBase + 12 > |img| {
        return false;
      }
      var next, kind, lzss := Rd32(img, parcelBase), Rd32(img, parcelBase + 4), Rd32(img, parcelBase + 8);
      if kind == ROM_TYPE {
        if parcelBase + lzss > |img| || next > |img| {
          return false;
        }
        if next < parcelBase + lzss {
          return false;
        }
        var size := next - (parcelBase + lzss);
        BootLzssDecode(img[parcelBase + lzss..parcelBase + lzss + size], dict, dest);
        return true;
      }
      if next == 0 || next <= parcelBase || next > |img| {
        return false;
      }
      offset := next;
    }
    return false;
  }

  /** The walk succeeds exactly when some chain of good links ends at a
      well-formed 'rom ' parcel, and that parcel is the one it finds. */
  lemma {:induction false} WalkIsChain(img: seq<byte>, o: nat)
    ensures WalkFrom(img, 0x14) == Rom(o) <==>
            exists path :: Chain(img, path) && path[|path| - 1] == o && RomParcel(img, o)
  {
    if WalkFrom(img, FIRST) == Rom(o) {
      var path := WalkPath(img, [FIRST], o);
    }
    if exists path :: Chain(img, path) && path[|path| - 1] == o && RomParcel(img, o) {
      var path :| Chain(img, path) && path[|path| - 1] == o && RomParcel(img, o);
      ChainWalk(img, path, |path| - 1);
    }
  }

  lemma {:induction false} WalkPath(img: seq<byte>, sofar: seq<nat>, o: nat) returns (path: seq<nat>)
    requires Chain(img, sofar) && WalkFrom(img, sofar[|sofar| - 1]) == Rom(o)
    ensures Chain(img, path) && path[|path| - 1] == o && RomParcel(img, o)
    decreases |img| - sofar[|sofar| - 1]
  {
    var last := sofar[|sofar| - 1];
    if TypeAt(img, last) == ROM_TYPE {
      path := sofar;
    } else {
      path := WalkPath(img, sofar + [NextAt(img, last)], o);
    }
  }

  lemma {:induction false} ChainWalk(img: seq<byte>, path: seq<nat>, i: nat)
    requires Chain(img, path) && i < |path|
    ensures WalkFrom(img, FIRST) == WalkFrom(img, path[i])
  {
    if i > 0 {
      ChainWalk(img, path, i - 1);
      assert Link(img, path[i - 1], path[i - 1 + 1]);
    }
  }

  /** A chain never comes back: its offsets strictly increase inside the image. */
  lemma {:induction false} ChainIncreases(img: seq<byte>, path: seq<nat>, i: nat, j: nat)
    requires Chain(img, path) && i < j < |path|
    ensures path[i] < path[j] <= |img|
  {
    assert Link(img, path[j - 1], path[j - 1 + 1]);
    if i < j - 1 {
      ChainIncreases(img, path, i, j - 1);
    }
  }
}
