/** Reading a classic HFS file through its catalog extents and its overflow
    records. */
module HfsRead {
  import opened Bytes
  import opened HfsDevice
  import opened HfsOverflow

  /** The extents of a record that are in use. */
  function Real(exts: seq<Extent>): (r: seq<Extent>)
    ensures |r| <= |exts| && forall i :: 0 <= i < |r| ==> r[i].count > 0
  {
    if exts == [] then []
    else
      var e := exts[|exts| - 1];
      Real(exts[..|exts| - 1]) + if e.count != 0 then [e] else []
  }

  function Blocks(l: seq<Extent>): nat {
    if l == [] then 0 else l[0].count + Blocks(l[1..])
  }

  /** The extents the overflow records of a file add after its first `logical`
      blocks: a record that starts beyond the blocks so far ends the file. */
  function Chain(recs: seq<Ovf>, logical: nat): seq<Extent> {
    if recs == [] || recs[0].fabn > logical then []
    else
      var e := Real(recs[0].exts);
      e + Chain(recs[1..], logical + Blocks(e))
  }

  function FileExtents(cat: seq<Extent>, recs: seq<Ovf>): seq<Extent> {
    cat + Chain(recs, Blocks(cat))
  }

  /** The used extents of the records, one record after the other. */
  function AllReal(recs: seq<Ovf>): seq<Extent> {
    if recs == [] then [] else AllReal(recs[..|recs| - 1]) + Real(recs[|recs| - 1].exts)
  }

  /** Record `j` starts no later than the blocks before it end. */
  predicate LinesUp(recs: seq<Ovf>, logical: nat, j: nat)
    requires j < |recs|
  {
    recs[j].fabn <= logical + Blocks(AllReal(recs[..j]))
  }

  /** The chain is the used extents of the records up to the first that does not
      line up. */
  lemma {:induction false} ChainExactly(recs: seq<Ovf>, logical: nat) returns (k: nat)
    ensures k <= |recs| && Chain(recs, logical) == AllReal(recs[..k])
    ensures forall j :: 0 <= j < k ==> LinesUp(recs, logical, j)
    ensures k < |recs| ==> !LinesUp(recs, logical, k)
  {
    hide Real, AllReal, Blocks;
    NoRecords();
    if recs == [] || recs[0].fabn > logical {
      k := 0;
    } else {
      var e := Real(recs[0].exts);
      k := ChainExactly(recs[1..], logical + Blocks(e));
      k := k + 1;
      forall j: nat | j < |recs| ensures j > 0 ==> (LinesUp(recs, logical, j) <==> LinesUp(recs[1..], logical + Blocks(e), j - 1)) {
        if j > 0 {
          FirstRecord(recs, j);
          BlocksAppend(e, AllReal(recs[1..][..j - 1]));
        }
      }
      FirstRecord(recs, k);
    }
  }

  lemma {:induction false} NoRecords()
    ensures AllReal([]) == [] && Blocks([]) == 0
  {
  }

  lemma {:induction false} FirstRecord(recs: seq<Ovf>, j: nat)
    requires 0 < j <= |recs|
    ensures AllReal(recs[..j]) == Real(recs[0].exts) + AllReal(recs[1..][..j - 1])
    decreases j
  {
    hide Real;
    assert recs[..j][..j - 1] == recs[..j - 1] && recs[..j][j - 1] == recs[j - 1];
    if j > 1 {
      var tail := recs[1..][..j - 1];
      assert tail[..j - 2] == recs[1..][..j - 2] && tail[j - 2] == recs[j - 1];
      FirstRecord(recs, j - 1);
    } else {
      assert recs[..1] == [recs[0]] && recs[..1][..0] == [];
      assert AllReal(recs[..1][..0]) == [];
      assert recs[1..][..0] == [];
    }
  }

  lemma {:induction false} BlocksAppend(a: seq<Extent>, b: seq<Extent>)
    ensures Blocks(a + b) == Blocks(a) + Blocks(b)
  {
    if a == [] {
      assert a + b == b;
    } else {
      assert (a + b)[1..] == a[1..] + b;
      BlocksAppend(a[1..], b);
    }
  }

  /** Where the allocation blocks of the volume lie on the device. */
  datatype Geometry = Geometry(start: nat, al: nat)

  function Offset(g: Geometry, block: nat): nat { g.start + block * g.al }

  function Span(g: Geometry, count: nat): nat { count * g.al }

  /** The `n` bytes at `off`, or none if they are not all there. */
  function Slice(m: seq<byte>, off: nat, n: nat): (r: seq<byte>)
    ensures |r| <= n && (n > 0 ==> (|r| == n <==> off + n <= |m|))
  {
    if off + n <= |m| then m[off..off + n] else []
  }

  /** The first `want` bytes of the extents, one after the other; an extent, cut
      to what is wanted of it, that is not all there counts but gives nothing. */
  function Gather(m: seq<byte>, g: Geometry, l: seq<Extent>, want: nat): seq<byte> {
    if l == [] || want == 0 then []
    else
      var n := Min(Span(g, l[0].count), want);
      Slice(m, Offset(g, l[0].block), n) + Gather(m, g, l[1..], want - n)
  }

  lemma {:induction false} GatherBound(m: seq<byte>, g: Geometry, l: seq<Extent>, want: nat)
    ensures |Gather(m, g, l, want)| <= want
  {
    if l != [] && want != 0 {
      GatherBound(m, g, l[1..], want - Min(Span(g, l[0].count), want));
    }
  }

  lemma {:induction false} GatherStep(m: seq<byte>, g: Geometry, e: Extent, rest: seq<Extent>, want: nat)
    requires want > 0
    ensures var n := Min(Span(g, e.count), want);
      Gather(m, g, [e] + rest, want) == Slice(m, Offset(g, e.block), n) + Gather(m, g, rest, want - n)
  {
    hide Slice, Span, Offset;
    assert ([e] + rest)[1..] == rest;
  }

  /** The bytes still owed: what is gathered from `q` and then from the chain of
      the records to come. */
  ghost function Owed(m: seq<byte>, g: Geometry, q: seq<Extent>, recs: seq<Ovf>, logical: nat, want: nat): seq<byte> {
    Gather(m, g, q + Chain(recs, logical + Blocks(q)), want)
  }

  lemma {:induction false} OwedStep(m: seq<byte>, g: Geometry, q: seq<Extent>, recs: seq<Ovf>, logical: nat, want: nat)
    requires q != [] && want > 0
    ensures var n := Min(Span(g, q[0].count), want);
      Owed(m, g, q, recs, logical, want) ==
      Slice(m, Offset(g, q[0].block), n) + Owed(m, g, q[1..], recs, logical + q[0].count, want - n)
  {
    var rest := q[1..] + Chain(recs, logical + Blocks(q));
    assert q + Chain(recs, logical + Blocks(q)) == [q[0]] + rest;
    GatherStep(m, g, q[0], rest, want);
  }

  lemma {:induction false} OwedNone(m: seq<byte>, g: Geometry, q: seq<Extent>, recs: seq<Ovf>, logical: nat, want: nat)
    ensures want == 0 ==> Owed(m, g, q, recs, logical, want) == []
    ensures q == [] && (recs == [] || recs[0].fabn > logical) ==> Owed(m, g, q, recs, logical, want) == []
    ensures |Owed(m, g, q, recs, logical, want)| <= want
  {
    GatherBound(m, g, q + Chain(recs, logical + Blocks(q)), want);
  }

  lemma {:induction false} OwedRecord(m: seq<byte>, g: Geometry, recs: seq<Ovf>, logical: nat, want: nat)
    requires recs != [] && recs[0].fabn <= logical
    ensures Owed(m, g, [], recs, logical, want) == Owed(m, g, Real(recs[0].exts), recs[1..], logical, want)
  {
    hide Gather, Real;
    var e := Real(recs[0].exts);
    var none: seq<Extent> := [];
    assert Blocks(none) == 0;
    assert none + Chain(recs, logical) == Chain(recs, logical) == e + Chain(recs[1..], logical + Blocks(e));
  }

  method RealExtents(o: Ovf) returns (q: seq<Extent>)
    ensures q == Real(o.exts)
  {
    q := [];
    for x := 0 to |o.exts|
      invariant q == Real(o.exts[..x])
    {
      assert o.exts[..x + 1][..x] == o.exts[..x];
      if o.exts[x].count != 0 {
        q := q + [o.exts[x]];
      }
    }
    assert o.exts[..|o.exts|] == o.exts;
  }

  datatype Entry = Entry(isDirectory: bool, id: u32, size: u64, extents: seq<Extent>)

  class Reader {
    const dev: BlockDevice
    const g: Geometry
    const table: OverflowTable
    const mounted: bool

    constructor (dev: BlockDevice, g: Geometry, table: OverflowTable, mounted: bool)
      ensures this.dev == dev && this.g == g && this.table == table && this.mounted == mounted
    {
      this.dev, this.g, this.table, this.mounted := dev, g, table, mounted;
    }

    ghost predicate Valid()
      reads table
    {
      dev.Valid() && table.Valid() && g.al > 0
    }

    /** What the file's extents hold, up to `want` bytes. */
    ghost function Content(e: Entry, want: nat): seq<byte>
      reads table, table.ovf
      requires table.Valid()
    {
      Gather(dev.media, g, Extents(e), want)
    }

    ghost function Extents(e: Entry): seq<Extent>
      reads table, table.ovf
      requires table.Valid()
    {
      FileExtents(e.extents, RecordsOf(table.Records(), e.id))
    }

    /** The buffer holds what came before `have`; the rest of `all` is owed. */
    ghost predicate Progress(all: seq<byte>, buf: seq<byte>, have: nat, q: seq<Extent>, recs: seq<Ovf>,
                             logical: nat, toRead: nat)
    {
      have <= toRead <= |buf| && all == buf[..have] + Owed(dev.media, g, q, recs, logical, toRead - have)
    }

    /** What reading the next extent does to the progress made. */
    lemma {:induction false} NextExtent(all: seq<byte>, b: seq<byte>, have: nat, q: seq<Extent>, recs: seq<Ovf>, logical: nat, toRead: nat)
      requires q != [] && have < toRead && Progress(all, b, have, q, recs, logical, toRead)
      ensures var n := Min(Span(g, q[0].count), toRead - have);
        var off := Offset(g, q[0].block);
        if off + n <= |dev.media| then
          Progress(all, Splice(b, have, dev.media[off..off + n]), have + n, q[1..], recs, logical + q[0].count, toRead)
        else n > 0 ==> |all| < toRead
    {
      hide Owed, Splice;
      var n := Min(Span(g, q[0].count), toRead - have);
      var off := Offset(g, q[0].block);
      OwedStep(dev.media, g, q, recs, logical, toRead - have);
      OwedNone(dev.media, g, q[1..], recs, logical + q[0].count, toRead - have - n);
      if off + n <= |dev.media| {
        SpliceFront(b, have, dev.media[off..off + n], toRead);
        Assoc(b[..have], dev.media[off..off + n],
               Owed(dev.media, g, q[1..], recs, logical + q[0].count, toRead - have - n));
      }
    }

    /** Read from the extents of `q0` until they or the wanted bytes run out. */
    method DrainExtents(q0: seq<Extent>, toRead: nat, buf: array<byte>, have0: nat, logical0: nat,
                        ghost recs: seq<Ovf>, ghost all: seq<byte>)
      returns (status: Status, q: seq<Extent>, have: nat, logical: nat)
      requires Valid() && Progress(all, buf[..], have0, q0, recs, logical0, toRead)
      requires forall i :: 0 <= i < |q0| ==> q0[i].count > 0
      modifies buf
      ensures status in {Success, EndOfMedia, OutOfResources, DeviceError}
      ensures dev.Sound() ==> status in {Success, EndOfMedia}
      ensures status == EndOfMedia ==> |all| < toRead
      ensures status == Success ==>
        && have <= toRead && Progress(all, buf[..], have, q, recs, logical, toRead)
        && (q == [] || have == toRead) && buf[toRead..] == old(buf[toRead..])
    {
      hide Progress, Splice;
      ProgressBound(all, buf[..], have0, q0, recs, logical0, toRead);
      q, have, logical, status := q0, have0, logical0, Success;
      while |q| > 0 && have < toRead
        invariant have <= toRead <= buf.Length && status == Success
        invariant forall i :: 0 <= i < |q| ==> q[i].count > 0
        invariant Progress(all, buf[..], have, q, recs, logical, toRead)
        invariant buf[toRead..] == old(buf[toRead..])
      {
        var e := q[0];
        NextExtent(all, buf[..], have, q, recs, logical, toRead);
        q := q[1..];
        var n := Span(g, e.count);
        SpanPositive(g, e.count);
        if have + n > toRead {
          n := toRead - have;
        }
        ghost var was := buf[..];
        status := dev.HfsDeviceReadBytes(Offset(g, e.block), n, buf, have);
        if status != Success {
          return;
        }
        SpliceFront(was, have, dev.media[Offset(g, e.block)..Offset(g, e.block) + n], toRead);
        have := have + n;
        logical := logical + e.count;
      }
    }

    /** Find the record that continues the file after `logical` blocks. */
    method NextRecord(id: u32, from: nat, logical: nat, ghost all: seq<byte>, ghost b: seq<byte>, ghost have: nat,
                      ghost toRead: nat)
      returns (found: bool, q: seq<Extent>, pos: nat)
      requires Valid() && from <= table.count && have < toRead
      requires Progress(all, b, have, [], RecordsOf(table.Records()[from..], id), logical, toRead)
      ensures from <= pos <= table.count
      ensures found ==>
        && from < pos && (forall i :: 0 <= i < |q| ==> q[i].count > 0)
        && Progress(all, b, have, q, RecordsOf(table.Records()[pos..], id), logical, toRead)
      ensures !found ==> |all| < toRead
    {
      hide Progress, Real;
      found, q, pos := false, [], from;
      ghost var recs := RecordsOf(table.Records()[from..], id);
      while pos < table.count
        invariant from <= pos <= table.count
        invariant RecordsOf(table.Records()[pos..], id) == recs
      {
        var o := table.ovf[pos];
        ghost var rest := table.Records()[pos..];
        assert rest[0] == o && rest[1..] == table.Records()[pos + 1..];
        pos := pos + 1;
        if o.flNum == id {
          if o.fabn > logical {
            NoRecord(all, b, have, recs, logical, toRead);
            return;
          }
          Continue(all, b, have, recs, logical, toRead);
          q := RealExtents(o);
          found := true;
          return;
        }
      }
      NoRecord(all, b, have, recs, logical, toRead);
    }

    lemma {:induction false} NoRecord(all: seq<byte>, b: seq<byte>, have: nat, recs: seq<Ovf>, logical: nat, toRead: nat)
      requires have < toRead && Progress(all, b, have, [], recs, logical, toRead)
      requires recs == [] || recs[0].fabn > logical
      ensures |all| < toRead
    {
      OwedNone(dev.media, g, [], recs, logical, toRead - have);
    }

    lemma {:induction false} Continue(all: seq<byte>, b: seq<byte>, have: nat, recs: seq<Ovf>, logical: nat, toRead: nat)
      requires Progress(all, b, have, [], recs, logical, toRead)
      requires recs != [] && recs[0].fabn <= logical
      ensures Progress(all, b, have, Real(recs[0].exts), recs[1..], logical, toRead)
    {
      OwedRecord(dev.media, g, recs, logical, toRead - have);
    }

    /** Read a file into `buf`: catalog extents first, then overflow records. */
    method HfsReadFileClassic(e: Entry, buf: array<byte>, size: nat) returns (status: Status)
      requires Valid() && size <= buf.Length
      requires forall i :: 0 <= i < |e.extents| ==> e.extents[i].count > 0
      modifies buf
      ensures var toRead := Min(e.size, size);
        && (status == Success ==>
              buf[..toRead] == Content(e, toRead) && buf[toRead..] == old(buf[toRead..]))
        && (status == Success ==> forall i :: 0 <= i < toRead ==>
              MappedByte(dev.media, g, Extents(e), i, buf[i]))
        && (status == EndOfMedia ==> |Content(e, toRead)| < toRead)
        && (dev.Sound() ==> (status == Success <==> |Content(e, toRead)| == toRead))
      ensures status in {Success, EndOfMedia, OutOfResources, DeviceError}
      ensures dev.Sound() ==> status in {Success, EndOfMedia}
    {
      hide Progress, Gather, Owed;
      var toRead := Min(e.size, size);
      var q, have, logical, pos := e.extents, 0, 0, 0;
      ghost var all := Content(e, toRead);
      StartProgress(e, buf[..], toRead);
      status := Success;
      while have < toRead
        invariant have <= toRead && pos <= table.count && status == Success
        invariant forall i :: 0 <= i < |q| ==> q[i].count > 0
        invariant Progress(all, buf[..], have, q, RecordsOf(table.Records()[pos..], e.id), logical, toRead)
        invariant buf[toRead..] == old(buf[toRead..])
        decreases table.count - pos
      {
        status, q, have, logical := DrainExtents(q, toRead, buf, have, logical,
                                                 RecordsOf(table.Records()[pos..], e.id), all);
        if status != Success {
          return;
        }
        if have >= toRead {
          break;
        }
        var found;
        found, q, pos := NextRecord(e.id, pos, logical, all, buf[..], have, toRead);
        if !found {
          return EndOfMedia;
        }
      }
      AllRead(all, buf[..], have, q, RecordsOf(table.Records()[pos..], e.id), logical, toRead);
      ContentBytes(e, buf[..], toRead);
    }

    /** The bytes of a complete read are those the block map points at. */
    lemma {:induction false} ContentBytes(e: Entry, b: seq<byte>, n: nat)
      requires table.Valid() && g.al > 0 && n <= |b| && b[..n] == Content(e, n)
      ensures forall i :: 0 <= i < n ==> MappedByte(dev.media, g, Extents(e), i, b[i])
    {
      hide Gather, Extents, MappedByte;
      forall i | 0 <= i < n ensures MappedByte(dev.media, g, Extents(e), i, b[i]) {
        GatherIsMap(dev.media, g, Extents(e), n, i);
        assert b[i] == b[..n][i];
      }
    }

    /** Read at most `cap` bytes of a file's data fork. */
    method PpcHfsReadFile(e: Entry, buf: array<byte>, cap: nat) returns (status: Status, size: nat)
      requires Valid() && cap <= buf.Length
      requires forall i :: 0 <= i < |e.extents| ==> e.extents[i].count > 0
      modifies buf
      ensures status == InvalidParameter <==> e.isDirectory
      ensures status == NotReady <==> !e.isDirectory && !mounted
      ensures status in {InvalidParameter, NotReady} ==> size == cap && buf[..] == old(buf[..])
      ensures status !in {InvalidParameter, NotReady} ==> size == Min(e.size, cap)
      ensures status in {Success, BufferTooSmall} ==>
        buf[..size] == Content(e, size) && buf[size..] == old(buf[size..])
      ensures status == Success ==> e.size <= cap
      ensures status == BufferTooSmall ==> e.size > cap
      ensures status == EndOfMedia ==> |Content(e, size)| < size
      ensures dev.Sound() && !e.isDirectory && mounted ==>
        status == if |Content(e, size)| < size then EndOfMedia else if e.size > cap then BufferTooSmall else Success
    {
      if e.isDirectory {
        return InvalidParameter, cap;
      }
      if !mounted {
        return NotReady, cap;
      }
      status := HfsReadFileClassic(e, buf, cap);
      size := Min(e.size, cap);
      if status == Success && e.size > cap {
        status := BufferTooSmall;
      }
    }

    lemma {:induction false} StartProgress(e: Entry, b: seq<byte>, toRead: nat)
      requires table.Valid() && toRead <= |b|
      ensures Progress(Content(e, toRead), b, 0, e.extents, RecordsOf(table.Records()[0..], e.id), 0, toRead)
    {
      assert table.Records()[0..] == table.Records();
    }

    lemma {:induction false} AllRead(all: seq<byte>, b: seq<byte>, have: nat, q: seq<Extent>, recs: seq<Ovf>, logical: nat, toRead: nat)
      requires have == toRead && Progress(all, b, have, q, recs, logical, toRead)
      ensures all == b[..toRead]
    {
      OwedNone(dev.media, g, q, recs, logical, 0);
    }

    lemma {:induction false} ProgressBound(all: seq<byte>, b: seq<byte>, have: nat, q: seq<Extent>, recs: seq<Ovf>, logical: nat, toRead: nat)
      requires Progress(all, b, have, q, recs, logical, toRead)
      ensures have <= toRead <= |b|
    {
    }
  }

  lemma {:induction false} SpanSum(g: Geometry, a: nat, b: nat)
    ensures Span(g, a + b) == Span(g, a) + Span(g, b)
  {
  }

  /** The extents left out of a record hold nothing. */
  lemma {:induction false} UnusedHoldNothing(m: seq<byte>, g: Geometry, exts: seq<Extent>, rest: seq<Extent>, want: nat)
    ensures Gather(m, g, Real(exts) + rest, want) == Gather(m, g, exts + rest, want)
  {
    hide Gather;
    if exts == [] {
      assert Real(exts) == [];
    } else {
      var pre, e := exts[..|exts| - 1], exts[|exts| - 1];
      UnusedHoldNothing(m, g, pre, [e] + rest, want);
      assert pre + ([e] + rest) == exts + rest;
      if e.count == 0 {
        EmptyInside(m, g, Real(pre), e, rest, want);
        assert Real(exts) == Real(pre);
      } else {
        assert Real(pre) + ([e] + rest) == Real(exts) + rest;
      }
    }
  }

  lemma {:induction false} EmptyInside(m: seq<byte>, g: Geometry, l: seq<Extent>, e: Extent, rest: seq<Extent>, want: nat)
    requires e.count == 0
    ensures Gather(m, g, l + ([e] + rest), want) == Gather(m, g, l + rest, want)
    decreases |l|
  {
    hide Slice, Offset;
    if l == [] {
      assert l + ([e] + rest) == [e] + rest && l + rest == rest;
      assert ([e] + rest)[1..] == rest;
      EmptySlice(m, Offset(g, e.block));
    } else {
      assert (l + ([e] + rest))[1..] == l[1..] + ([e] + rest) && (l + rest)[1..] == l[1..] + rest;
      EmptyInside(m, g, l[1..], e, rest, if want >= Min(Span(g, l[0].count), want) then want - Min(Span(g, l[0].count), want) else 0);
    }
  }

  lemma {:induction false} EmptySlice(m: seq<byte>, off: nat)
    ensures Slice(m, off, 0) == []
  {
  }

  // ------------------------------------------------- the logical block map

  /** The allocation block that holds logical block `b` of the file. */
  function BlockAt(l: seq<Extent>, b: nat): nat
    requires b < Blocks(l)
  {
    if b < l[0].count then l[0].block + b else BlockAt(l[1..], b - l[0].count)
  }

  /** `x` is the device byte that byte `i` of the file is mapped to. */
  predicate MappedByte(m: seq<byte>, g: Geometry, l: seq<Extent>, i: nat, x: byte)
    requires g.al > 0
  {
    i / g.al < Blocks(l) &&
    var at := g.start + BlockAt(l, i / g.al) * g.al + i % g.al;
    0 <= at < |m| && m[at] == x
  }

  /** Byte `i` of the file on the device. */
  function Physical(g: Geometry, l: seq<Extent>, i: nat): nat
    requires g.al > 0 && i / g.al < Blocks(l)
  {
    Offset(g, BlockAt(l, i / g.al)) + i % g.al
  }

  lemma {:induction false} ByteBlock(al: nat, count: nat, i: nat)
    requires al > 0
    ensures i < count * al <==> i / al < count
    ensures i >= count * al ==> (i - count * al) / al == i / al - count && (i - count * al) % al == i % al
  {
    var q, r := i / al, i % al;
    assert i == q * al + r;
    assert (q - count) * al == q * al - count * al == al * (q - count);
    Multiples(al, q - count);
    if i >= count * al {
      assert i - count * al == (q - count) * al + r;
      Divided(al, q - count, r);
    }
  }

  /** The block map along the extent list. */
  lemma {:induction false} PhysicalStep(g: Geometry, l: seq<Extent>, i: nat)
    requires g.al > 0 && l != []
    ensures var n := Span(g, l[0].count);
      if i < n then i / g.al < Blocks(l) && Physical(g, l, i) == Offset(g, l[0].block) + i
      else (i - n) / g.al < Blocks(l[1..]) ==>
        i / g.al < Blocks(l) && Physical(g, l, i) == Physical(g, l[1..], i - n)
  {
    var c := l[0].count;
    ByteBlock(g.al, c, i);
    if i < Span(g, c) {
      BlockOffset(g, l[0].block, i);
    }
    hide Offset;
  }

  lemma {:induction false} BlockOffset(g: Geometry, block: nat, i: nat)
    requires g.al > 0
    ensures Offset(g, block + i / g.al) + i % g.al == Offset(g, block) + i
  {
    var q, r := i / g.al, i % g.al;
    assert i == q * g.al + r;
    assert (block + q) * g.al == block * g.al + q * g.al;
  }

  lemma {:induction false} GatherFirst(m: seq<byte>, g: Geometry, l: seq<Extent>, want: nat)
    requires want > 0 && |Gather(m, g, l, want)| == want
    ensures l != []
    ensures var n, off := Min(Span(g, l[0].count), want), Offset(g, l[0].block);
      && Gather(m, g, l, want) == Slice(m, off, n) + Gather(m, g, l[1..], want - n)
      && (n > 0 && |Gather(m, g, l[1..], want - n)| <= want - n ==>
            off + n <= |m| && Slice(m, off, n) == m[off..off + n])
      && (|Gather(m, g, l[1..], want - n)| <= want - n ==>
            |Slice(m, off, n)| == n && |Gather(m, g, l[1..], want - n)| == want - n)
  {
    hide Span, Offset;
  }

  /** Every gathered byte is the one the block map points at, as soon as the
      bytes are all there. */
  lemma {:induction false} GatherIsMap(m: seq<byte>, g: Geometry, l: seq<Extent>, want: nat, i: nat)
    requires g.al > 0 && |Gather(m, g, l, want)| == want && i < want
    ensures i / g.al < Blocks(l)
    ensures var at := g.start + BlockAt(l, i / g.al) * g.al + i % g.al;
      0 <= at < |m| && Gather(m, g, l, want)[i] == m[at]
    ensures MappedByte(m, g, l, i, Gather(m, g, l, want)[i])
  {
    GatherPhysical(m, g, l, want, i);
    hide Gather, BlockAt, Blocks;
  }

  lemma {:induction false} GatherPhysical(m: seq<byte>, g: Geometry, l: seq<Extent>, want: nat, i: nat)
    requires g.al > 0 && |Gather(m, g, l, want)| == want && i < want
    ensures i / g.al < Blocks(l) && Physical(g, l, i) < |m|
    ensures Gather(m, g, l, want)[i] == m[Physical(g, l, i)]
  {
    hide Span, Offset, Physical, Blocks, Gather, Slice;
    GatherFirst(m, g, l, want);
    var n := Min(Span(g, l[0].count), want);
    var off := Offset(g, l[0].block);
    GatherBound(m, g, l[1..], want - n);
    PhysicalStep(g, l, i);
    if i < n {
      assert Gather(m, g, l, want)[i] == Slice(m, off, n)[i];
    } else {
      GatherPhysical(m, g, l[1..], want - n, i - n);
      assert Gather(m, g, l, want)[i] == Gather(m, g, l[1..], want - n)[i - n];
    }
  }

  /** With enough blocks, all inside the device, the gathering is complete. */
  lemma {:induction false} GatherComplete(m: seq<byte>, g: Geometry, l: seq<Extent>, want: nat)
    requires g.al > 0 && want <= Span(g, Blocks(l))
    requires forall j :: 0 <= j < |l| ==> Offset(g, l[j].block) + Span(g, l[j].count) <= |m|
    ensures |Gather(m, g, l, want)| == want
  {
    if l != [] && want != 0 {
      var n := Min(Span(g, l[0].count), want);
      SpanSum(g, l[0].count, Blocks(l[1..]));
      hide Span, Offset;
      assert Offset(g, l[0].block) + Span(g, l[0].count) <= |m|;
      forall j | 0 <= j < |l[1..]| ensures Offset(g, l[1..][j].block) + Span(g, l[1..][j].count) <= |m| {
        assert l[1..][j] == l[j + 1];
      }
      GatherComplete(m, g, l[1..], want - n);
    }
  }

  lemma {:induction false} SpanPositive(g: Geometry, count: nat)
    requires g.al > 0 && count > 0
    ensures Span(g, count) > 0
  {
    Multiples(g.al, count);
  }

  lemma {:induction false} SpliceFront(b: seq<byte>, at: nat, src: seq<byte>, end: nat)
    requires at + |src| <= end <= |b|
    ensures Splice(b, at, src)[..at + |src|] == b[..at] + src
    ensures Splice(b, at, src)[end..] == b[end..]
  {
  }
}
