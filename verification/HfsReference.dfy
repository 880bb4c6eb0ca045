/** The Python reader of classic HFS files, and where it agrees with the reader of
    the boot loader. */
module HfsReference {
  import opened Bytes
  import opened HfsOverflow
  import opened HfsRead

  /** The reference reader: pops extents and the file's own sorted records. */
  method RefReadFile(m: seq<byte>, g: Geometry, size: nat, extents: seq<Extent>, recs: seq<Ovf>) returns (out: seq<byte>)
    requires g.al > 0
    ensures out == Gather(m, g, FileExtents(extents, recs), size)
  {
    hide Owed, Gather, Real;
    ghost var all := Gather(m, g, FileExtents(extents, recs), size);
    out := [];
    var have: nat, logical: nat := 0, 0;
    var exts, xlst := extents, recs;
    StartOwed(m, g, extents, recs, size);
    while have < size
      invariant have <= size && all == out + Owed(m, g, exts, xlst, logical, size - have)
      decreases |xlst|, |exts|
    {
      if exts != [] {
        var e := exts[0];
        var n := Min(Span(g, e.count), size - have);
        OwedStep(m, g, exts, xlst, logical, size - have);
        OwedNone(m, g, exts[1..], xlst, logical + e.count, size - have - n);
        Assoc(out, Slice(m, Offset(g, e.block), n), Owed(m, g, exts[1..], xlst, logical + e.count, size - have - n));
        exts := exts[1..];
        out := out + Slice(m, Offset(g, e.block), n);
        have := have + n;
        logical := logical + e.count;
      } else {
        OwedNone(m, g, exts, xlst, logical, size - have);
        if xlst == [] {
          break;
        }
        var fabn := xlst[0].fabn;
        if fabn > logical {
          break;
        }
        OwedRecord(m, g, xlst, logical, size - have);
        exts := Real(xlst[0].exts);
        xlst := xlst[1..];
      }
    }
    OwedNone(m, g, exts, xlst, logical, size - have);
  }

  lemma {:induction false} StartOwed(m: seq<byte>, g: Geometry, extents: seq<Extent>, recs: seq<Ovf>, size: nat)
    ensures Gather(m, g, FileExtents(extents, recs), size) == [] + Owed(m, g, extents, recs, 0, size)
  {
  }

  /** Whatever order the overflow records were met in, the sorted table and the
      file's own sorted list give the file the same extents. */
  lemma {:induction false} SameExtents(table: seq<Ovf>, id: u32, cat: seq<Extent>, recs: seq<Ovf>)
    requires DistinctKeys(table)
    requires Ascending(recs) && multiset(recs) == multiset(RecordsOf(table, id))
    ensures FileExtents(cat, RecordsOf(SortOf(table), id)) == FileExtents(cat, recs)
  {
    FileRecords(table, id, recs);
  }

  /** The extent in which a read of `want` bytes stops, cut to the `more` bytes of
      the file, is all on a device of `len` bytes. */
  predicate StopFits(len: nat, g: Geometry, l: seq<Extent>, want: nat, more: nat)
    requires want <= more
  {
    l == [] || want == 0 ||
    var span := Span(g, l[0].count);
    if span <= want then StopFits(len, g, l[1..], want - span, more - span)
    else Offset(g, l[0].block) + Min(span, more) <= len
  }

  /** A complete gathering is the beginning of a longer one. */
  predicate Agree(m: seq<byte>, g: Geometry, l: seq<Extent>, want: nat, more: nat) {
    want <= |Gather(m, g, l, more)| && Gather(m, g, l, more)[..want] == Gather(m, g, l, want)
  }

  /** It is, if the extent it stops in is all there. */
  lemma {:induction false} GatherPrefix(m: seq<byte>, g: Geometry, l: seq<Extent>, want: nat, more: nat)
    requires want <= more && |Gather(m, g, l, want)| == want && StopFits(|m|, g, l, want, more)
    ensures Agree(m, g, l, want, more)
  {
    hide Span, Offset, Gather, Slice;
    if want > 0 {
      GatherFirst(m, g, l, want);
      var span, off := Span(g, l[0].count), Offset(g, l[0].block);
      var n, k := Min(span, want), Min(span, more);
      GatherBound(m, g, l[1..], want - n);
      GatherStep(m, g, l[0], l[1..], more);
      assert l == [l[0]] + l[1..];
      if span <= want {
        GatherPrefix(m, g, l[1..], want - n, more - n);
      } else {
        SlicePrefix(m, off, n, k);
        NothingWanted(m, g, l[1..]);
      }
    } else {
      NothingWanted(m, g, l);
    }
  }

  /** Every read of a file that is all there is complete and stops in an extent
      that is. */
  lemma {:induction false} WholeStops(m: seq<byte>, g: Geometry, l: seq<Extent>, want: nat, more: nat)
    requires want <= more && |Gather(m, g, l, more)| == more
    ensures StopFits(|m|, g, l, want, more) && |Gather(m, g, l, want)| == want
  {
    hide Span, Offset, Gather, Slice;
    if want > 0 {
      GatherFirst(m, g, l, more);
      var span, off := Span(g, l[0].count), Offset(g, l[0].block);
      var n, k := Min(span, want), Min(span, more);
      GatherBound(m, g, l[1..], more - k);
      GatherStep(m, g, l[0], l[1..], want);
      assert l == [l[0]] + l[1..];
      if span <= want {
        WholeStops(m, g, l[1..], want - n, more - n);
      } else {
        NothingWanted(m, g, l[1..]);
        SlicePrefix(m, off, n, k);
      }
    } else {
      NothingWanted(m, g, l);
    }
  }

  /** No byte of `l` lies at `at`. */
  predicate Outside(g: Geometry, l: seq<Extent>, at: nat) {
    forall i :: 0 <= i < |l| ==> !(Offset(g, l[i].block) <= at < Offset(g, l[i].block) + Span(g, l[i].count))
  }

  /** A device of zeros but for one byte. */
  function OneAt(len: nat, at: nat): (m: seq<byte>)
    requires at < len
    ensures |m| == len && forall i :: 0 <= i < len ==> m[i] == if i == at then 1 else 0
  {
    Zeros(len)[at := 1]
  }

  predicate AllZero(s: seq<byte>) { forall i :: 0 <= i < |s| ==> s[i] == 0 }

  lemma {:induction false} GatherZeros(g: Geometry, l: seq<Extent>, want: nat, len: nat, at: nat)
    requires at < len && Outside(g, l, at)
    ensures AllZero(Gather(OneAt(len, at), g, l, want))
  {
    hide Span, Offset, OneAt;
    if l != [] && want != 0 {
      var n := Min(Span(g, l[0].count), want);
      assert !(Offset(g, l[0].block) <= at < Offset(g, l[0].block) + Span(g, l[0].count));
      forall i | 0 <= i < |l[1..]|
        ensures !(Offset(g, l[1..][i].block) <= at < Offset(g, l[1..][i].block) + Span(g, l[1..][i].count))
      {
        assert l[1..][i] == l[i + 1];
      }
      GatherZeros(g, l[1..], want - n, len, at);
    }
  }

  predicate DisjointExtents(l: seq<Extent>) {
    forall i, j :: 0 <= i < j < |l| ==>
      l[i].block + l[i].count <= l[j].block || l[j].block + l[j].count <= l[i].block
  }

  lemma {:induction false} FirstOutside(g: Geometry, l: seq<Extent>)
    requires g.al > 0 && l != [] && l[0].count > 0 && DisjointExtents(l)
    ensures Outside(g, l[1..], Offset(g, l[0].block)) && DisjointExtents(l[1..])
  {
    var e := l[0];
    forall i | 0 <= i < |l[1..]|
      ensures var f := l[1..][i];
        !(Offset(g, f.block) <= Offset(g, e.block) < Offset(g, f.block) + Span(g, f.count))
    {
      var f := l[i + 1];
      assert l[1..][i] == f;
      BlocksApart(g, e, f);
    }
    hide Offset, Span;
  }

  lemma {:induction false} BlocksApart(g: Geometry, e: Extent, f: Extent)
    requires g.al > 0 && e.count > 0
    requires e.block + e.count <= f.block || f.block + f.count <= e.block
    ensures !(Offset(g, f.block) <= Offset(g, e.block) < Offset(g, f.block) + Span(g, f.count))
  {
    Multiples(g.al, f.block - e.block);
    assert g.al * (f.block - e.block) == f.block * g.al - e.block * g.al;
    if f.block + f.count <= e.block {
      Multiples(g.al, e.block - f.block - f.count);
      assert g.al * (e.block - f.block - f.count) == e.block * g.al - f.block * g.al - f.count * g.al;
    }
  }

  /** Where the extent a complete read stops in is not all there, its first byte
      shows the difference. */
  lemma {:induction false} StopByte(len: nat, g: Geometry, l: seq<Extent>, want: nat, more: nat) returns (at: nat)
    requires g.al > 0 && want <= more && DisjointExtents(l) && !StopFits(len, g, l, want, more)
    requires |Gather(Zeros(len), g, l, want)| == want
    ensures at < len && !Agree(OneAt(len, at), g, l, want, more)
  {
    hide Span, Offset, Gather, Slice, DisjointExtents, OneAt, Zeros, Agree;
    var z := Zeros(len);
    GatherFirst(z, g, l, want);
    var span, off := Span(g, l[0].count), Offset(g, l[0].block);
    var n, k := Min(span, want), Min(span, more);
    GatherBound(z, g, l[1..], want - n);
    TailDisjoint(l);
    assert l == [l[0]] + l[1..];
    if span <= want {
      at := StopByte(len, g, l[1..], want - n, more - n);
      var m := OneAt(len, at);
      GatherStep(m, g, l[0], l[1..], want);
      GatherStep(m, g, l[0], l[1..], more);
      SameHead(m, g, l, want, more);
    } else {
      at := off;
      var m := OneAt(len, at);
      SpanPositiveOnly(g, l[0].count);
      FirstOutside(g, l);
      GatherZeros(g, l[1..], more - k, len, at);
      GatherStep(m, g, l[0], l[1..], want);
      GatherStep(m, g, l[0], l[1..], more);
      NothingWanted(m, g, l[1..]);
      StopDiffers(m, g, l, want, more);
    }
  }

  lemma {:induction false} TailDisjoint(l: seq<Extent>)
    requires l != [] && DisjointExtents(l)
    ensures DisjointExtents(l[1..])
  {
  }

  lemma {:induction false} SpanPositiveOnly(g: Geometry, count: nat)
    ensures Span(g, count) > 0 ==> count > 0
  {
  }

  lemma {:induction false} SameHead(m: seq<byte>, g: Geometry, l: seq<Extent>, want: nat, more: nat)
    requires l != [] && 0 < want <= more && Span(g, l[0].count) <= want
    requires var span, off := Span(g, l[0].count), Offset(g, l[0].block);
      && (span > 0 ==> off + span <= |m|)
      && !Agree(m, g, l[1..], want - span, more - span)
      && Gather(m, g, l, want) == Slice(m, off, span) + Gather(m, g, l[1..], want - span)
      && Gather(m, g, l, more) == Slice(m, off, span) + Gather(m, g, l[1..], more - span)
    ensures !Agree(m, g, l, want, more)
  {
    hide Span, Offset, Gather;
    var span, off := Span(g, l[0].count), Offset(g, l[0].block);
    if Agree(m, g, l, want, more) {
      PrefixTail(Slice(m, off, span), Gather(m, g, l[1..], want - span), Gather(m, g, l[1..], more - span), want);
    }
  }

  lemma {:induction false} PrefixTail(x: seq<byte>, a: seq<byte>, b: seq<byte>, n: nat)
    requires |x| <= n && n <= |x + b| && (x + b)[..n] == x + a
    ensures b[..n - |x|] == a
  {
    assert b[..n - |x|] == (x + b)[..n][|x|..] == (x + a)[|x|..] == a;
  }

  lemma {:induction false} StopDiffers(m: seq<byte>, g: Geometry, l: seq<Extent>, want: nat, more: nat)
    requires l != [] && 0 < want <= more && Span(g, l[0].count) > want
    requires var span, off := Span(g, l[0].count), Offset(g, l[0].block);
      && off + want <= |m| < off + Min(span, more) && m[off] == 1
      && Gather(m, g, l, want) == Slice(m, off, want) + []
      && Gather(m, g, l, more) == Slice(m, off, Min(span, more)) + Gather(m, g, l[1..], more - Min(span, more))
      && AllZero(Gather(m, g, l[1..], more - Min(span, more)))
    ensures !Agree(m, g, l, want, more)
  {
    hide Span, Offset, Gather;
    var b := Gather(m, g, l, more);
    assert Gather(m, g, l, want)[0] == 1;
    if want <= |b| {
      assert b[..want][0] == b[0] == 0;
    }
  }

  lemma {:induction false} LengthOnly(m: seq<byte>, k: seq<byte>, g: Geometry, l: seq<Extent>, want: nat)
    requires |m| == |k|
    ensures |Gather(m, g, l, want)| == |Gather(k, g, l, want)|
  {
    hide Span, Offset;
    if l != [] && want != 0 {
      LengthOnly(m, k, g, l[1..], want - Min(Span(g, l[0].count), want));
    }
  }

  /** For files whose extents do not overlap the condition is exact: a complete
      read is the beginning of what the reference reader returns, whatever the
      device holds, if and only if the extent it stops in is all there. */
  lemma {:induction false} StopExactly(m: seq<byte>, g: Geometry, l: seq<Extent>, want: nat, more: nat)
    requires g.al > 0 && want <= more && DisjointExtents(l) && |Gather(m, g, l, want)| == want
    ensures StopFits(|m|, g, l, want, more) <==>
            forall k: seq<byte> :: |k| == |m| ==> Agree(k, g, l, want, more)
  {
    hide Gather, StopFits, Agree;
    if StopFits(|m|, g, l, want, more) {
      forall k: seq<byte> | |k| == |m| ensures Agree(k, g, l, want, more) {
        LengthOnly(m, k, g, l, want);
        GatherPrefix(k, g, l, want, more);
      }
    } else {
      LengthOnly(m, Zeros(|m|), g, l, want);
      var at := StopByte(|m|, g, l, want, more);
      assert !Agree(OneAt(|m|, at), g, l, want, more);
    }
  }

  /** A read of 512 bytes of a 2048-byte file whose only extent begins on a device
      of 1024 bytes and ends beyond it: it succeeds, and the reference reader
      returns nothing. */
  lemma {:induction false} ReadersPart(m: seq<byte>)
    requires |m| == 1024
    ensures var g, l := Geometry(0, 512), [Extent(0, 4)];
      Gather(m, g, l, 512) == m[..512] && Gather(m, g, l, 2048) == []
  {
    hide Gather, Offset, Span;
    var g, e, none := Geometry(0, 512), Extent(0, 4), [];
    assert Offset(g, 0) == 0 && Span(g, 4) == 2048 by { FourBlocks(); }
    assert [e] + none == [e];
    GatherStep(m, g, e, none, 512);
    GatherStep(m, g, e, none, 2048);
    NothingWanted(m, g, none);
  }

  lemma {:induction false} NothingWanted(m: seq<byte>, g: Geometry, l: seq<Extent>)
    ensures Gather(m, g, l, 0) == []
  {
  }

  lemma {:induction false} SlicePrefix(m: seq<byte>, off: nat, n: nat, k: nat)
    requires n <= k && off + k <= |m|
    ensures Slice(m, off, k)[..n] == Slice(m, off, n) && |Slice(m, off, n)| == n
  {
  }

  lemma {:induction false} FourBlocks()
    ensures Offset(Geometry(0, 512), 0) == 0 && Span(Geometry(0, 512), 4) == 2048
  {
  }

  /** The whole path: the records in whatever order the tree yields them, the
      table they are sorted into, and a complete read through it, give the first
      bytes of what the reference reader, with the file's own sorted list,
      reads of the whole file, provided the extent the read stops in is all
      there, as it is when the extents hold the whole file. */
  lemma {:induction false} ReadIsReference(reader: Reader, e: Entry, leaves: seq<LeafRecord>, recs: seq<Ovf>, toRead: nat)
    requires reader.table.Valid() && reader.table.Records() == SortOf(FirstData(leaves))
    requires |DataRecords(leaves)| <= MAX_OVF && DistinctKeys(DataRecords(leaves))
    requires Ascending(recs) && multiset(recs) == multiset(RecordsOf(DataRecords(leaves), e.id))
    requires toRead <= e.size && |reader.Content(e, toRead)| == toRead
    ensures var ref := Gather(reader.dev.media, reader.g, FileExtents(e.extents, recs), e.size);
      var stops := StopFits(|reader.dev.media|, reader.g, FileExtents(e.extents, recs), toRead, e.size);
      && (|reader.Content(e, e.size)| == e.size ==> stops && ref == reader.Content(e, e.size))
      && (stops ==> toRead <= |ref| && reader.Content(e, toRead) == ref[..toRead])
  {
    hide Gather, FirstData, DataRecords, SortOf, RecordsOf, StopFits;
    FirstIsAll(leaves);
    SameExtents(DataRecords(leaves), e.id, e.extents, recs);
    var l := FileExtents(e.extents, recs);
    if |reader.Content(e, e.size)| == e.size {
      WholeStops(reader.dev.media, reader.g, l, toRead, e.size);
    }
    if StopFits(|reader.dev.media|, reader.g, l, toRead, e.size) {
      GatherPrefix(reader.dev.media, reader.g, l, toRead, e.size);
    }
  }
}
