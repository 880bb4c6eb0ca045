/** The guest's Prime call: a byte range of the boot disk copied into guest
    memory. */
module EmulDisk {
  import opened Bytes
  import opened HfsDevice

  const SECTOR: nat := 2048
  const WRITE_PROTECTED: u32 := 46
  const READ_ERROR: u32 := 51
  const NO_DRIVE: u32 := 64

  /** The volume a mounted file system presents, if it is on this device. */
  datatype Volume = NoVolume | Mounted(bytes: nat)

  function StartOf(posOffset: u32): nat { posOffset / 0x100 * 0x100 }

  predicate PastEnd(vol: Volume, pos: nat, req: nat) { vol.Mounted? && pos + req > vol.bytes && pos >= vol.bytes }

  /** How many bytes a request is good for once clipped to the volume. */
  function Clipped(vol: Volume, pos: nat, req: nat): nat {
    if vol.NoVolume? || pos + req <= vol.bytes then req
    else if pos >= vol.bytes then 0
    else vol.bytes - pos
  }

  /** What ends up in ioActCount. */
  function Reported(vol: Volume, pos: nat, req: nat): nat {
    if PastEnd(vol, pos, req) then 0 else req
  }

  /** How many bytes are copied; a null buffer receives none. */
  function Copied(vol: Volume, pos: nat, req: nat, buffer: nat): nat {
    if buffer == 0 then 0 else Clipped(vol, pos, req)
  }

  /** The reported count is the number of bytes copied exactly when the request
      is empty, lies wholly past the volume, or has a buffer and is not clipped. */
  lemma {:induction false} CountIsExact(vol: Volume, pos: nat, req: nat, buffer: nat)
    ensures Reported(vol, pos, req) == Copied(vol, pos, req, buffer)
            <==> (req == 0 || PastEnd(vol, pos, req) || (buffer != 0 && (vol.NoVolume? || pos + req <= vol.bytes)))
  {
  }

  predicate HasBytes(m: seq<byte>, pos: nat, n: nat) { n == 0 || pos + n <= |m| }

  function BytesFrom(m: seq<byte>, pos: nat, n: nat): (r: seq<byte>)
    requires HasBytes(m, pos, n)
    ensures |r| == n
  {
    if n == 0 then [] else m[pos..pos + n]
  }

  function Quotient(x: nat, b: nat): nat
    requires b > 0
  {
    x / b
  }

  /** The read size: a device block, or what of it the sector buffer holds. */
  function ReadSize(blockSize: nat): nat { if blockSize > SECTOR then SECTOR else blockSize }

  /** The device can supply the bytes of the range: none are asked for, or its
      blocks fit the sector buffer and the range lies on the media. */
  predicate Readable(dev: BlockDevice, pos: nat, n: nat) {
    n == 0 || (dev.blockSize <= SECTOR && pos + n <= |dev.media|)
  }

  /** `was` with `src`, if there is any, written over it at `at`. */
  function Filled(was: seq<byte>, at: nat, src: seq<byte>): (r: seq<byte>)
    requires src != [] ==> at + |src| <= |was|
    ensures |r| == |was|
  {
    if src == [] then was else Splice(was, at, src)
  }

  /** Reads of part of a block are refused by the device. */
  lemma {:induction false} WholeBlock(blockSize: nat)
    requires blockSize > 0 && ReadSize(blockSize) % blockSize == 0
    ensures ReadSize(blockSize) == blockSize
  {
  }

  /** Read block `lba`, which holds the `chunk` bytes from `at`. */
  method LoadSector(dev: BlockDevice, lba: nat, size: nat, sector: array<byte>, ghost at: nat, ghost off: nat,
                    ghost chunk: nat)
    returns (ok: bool)
    requires dev.Valid() && size == ReadSize(dev.blockSize) <= sector.Length
    requires lba == Quotient(at, size) && off == at % size && off + chunk <= size
    modifies sector
    ensures ok ==>
      dev.blockSize <= SECTOR && at + chunk <= |dev.media|
      && sector[off..off + chunk] == dev.media[at..at + chunk]
    ensures dev.healthy && dev.blockSize <= SECTOR && at < |dev.media| ==> ok
  {
    hide Splice;
    if at < |dev.media| {
      BlocksInside(at, 1, dev.blockSize, |dev.media|);
    }
    ghost var blank := sector[..];
    var status := dev.ReadBlocks(lba, size, sector, 0);
    if status != Success {
      return false;
    }
    WholeBlock(dev.blockSize);
    assert dev.blockSize <= SECTOR;
    BlockWindow(dev.media, at, size, chunk);
    SectorHolds(blank, dev.media[lba * size..lba * size + size], off, chunk);
    return true;
  }

  /** Copy what one block holds of the `want` bytes from `at`. */
  method CopyChunk(dev: BlockDevice, at: nat, want: nat, sector: array<byte>, mem: array<byte>, to: nat)
    returns (ok: bool, chunk: nat)
    requires dev.Valid() && sector.Length == SECTOR && sector != mem
    requires want > 0 && to + want <= mem.Length
    modifies mem, sector
    ensures dev.healthy && Readable(dev, at, want) ==> ok
    ensures ok ==>
      0 < chunk <= want && dev.blockSize <= SECTOR && at + chunk <= |dev.media|
      && mem[..] == Splice(old(mem[..]), to, dev.media[at..at + chunk])
  {
    var blockSize := ReadSize(dev.blockSize);
    var lba: nat, off: nat := Quotient(at, blockSize), at % blockSize;
    hide Splice, Quotient, BlockDevice.Valid;
    chunk := blockSize - off;
    if chunk > want {
      chunk := want;
    }
    ok := LoadSector(dev, lba, blockSize, sector, at, off, chunk);
    if ok {
      CopyInto(sector[off..off + chunk], mem, to);
    }
  }

  /** Copy `count` bytes of the device from `pos`, block by block. */
  method CopyBlocks(dev: BlockDevice, pos: nat, count: nat, mem: array<byte>, buffer: nat) returns (ok: bool)
    requires dev.Valid()
    requires buffer > 0 && (count > 0 ==> buffer + count <= mem.Length)
    modifies mem
    ensures dev.healthy && Readable(dev, pos, count) ==> ok
    ensures ok ==>
      && Readable(dev, pos, count) && HasBytes(dev.media, pos, count)
      && mem[..] == Filled(old(mem[..]), buffer, BytesFrom(dev.media, pos, count))
  {
    hide Splice, BytesFrom, Filled;
    ghost var was := mem[..];
    var at: nat, to: nat, remaining: nat := pos, buffer, count;
    var sector := new byte[SECTOR](_ => 0);
    NoBytes(dev.media, pos, was, buffer);
    while remaining > 0 && to != 0
      invariant remaining <= count && at == pos + (count - remaining) && to == buffer + (count - remaining)
      invariant HasBytes(dev.media, pos, count - remaining) && Readable(dev, pos, count - remaining)
      invariant mem[..] == Filled(was, buffer, BytesFrom(dev.media, pos, count - remaining))
      decreases remaining
    {
      var chunk;
      ok, chunk := CopyChunk(dev, at, remaining, sector, mem, to);
      if !ok {
        return;
      }
      SpliceMore(was, buffer, dev.media, pos, count - remaining, chunk);
      at, to, remaining := at + chunk, to + chunk, remaining - chunk;
    }
    return true;
  }

  lemma {:induction false} NoBytes(m: seq<byte>, pos: nat, was: seq<byte>, at: nat)
    ensures BytesFrom(m, pos, 0) == [] && Filled(was, at, []) == was
  {
  }

  /** The part of its block a byte range starts with. */
  lemma {:induction false} BlockWindow(m: seq<byte>, at: nat, size: nat, chunk: nat)
    requires size > 0 && chunk <= size - at % size && at / size * size + size <= |m|
    ensures at + chunk <= |m|
    ensures m[at / size * size..at / size * size + size][at % size..at % size + chunk] == m[at..at + chunk]
  {
    var start := at / size * size;
    assert at == start + at % size;
    Window(m, start, size, at % size, chunk);
  }

  lemma {:induction false} SectorHolds(blank: seq<byte>, block: seq<byte>, off: nat, chunk: nat)
    requires |block| <= |blank| && off + chunk <= |block|
    ensures Splice(blank, 0, block)[off..off + chunk] == block[off..off + chunk]
  {
    var sector := Splice(blank, 0, block);
    assert sector[0..|block|] == block;
    Window(sector, 0, |block|, off, chunk);
  }

  /** One more chunk. */
  lemma {:induction false} SpliceMore(was: seq<byte>, buffer: nat, m: seq<byte>, pos: nat, n: nat, chunk: nat)
    requires HasBytes(m, pos, n) && chunk > 0 && pos + n + chunk <= |m| && buffer + n + chunk <= |was|
    ensures HasBytes(m, pos, n + chunk)
    ensures Splice(Filled(was, buffer, BytesFrom(m, pos, n)), buffer + n, m[pos + n..pos + n + chunk])
            == Filled(was, buffer, BytesFrom(m, pos, n + chunk))
  {
    var x, y := BytesFrom(m, pos, n), m[pos + n..pos + n + chunk];
    BytesMore(m, pos, n, chunk);
    hide Splice, BytesFrom;
    SpliceNone(was, buffer);
    SplicePair(was, buffer, x, y);
  }

  lemma {:induction false} BytesMore(m: seq<byte>, pos: nat, n: nat, chunk: nat)
    requires HasBytes(m, pos, n) && chunk > 0 && pos + n + chunk <= |m|
    ensures BytesFrom(m, pos, n + chunk) == BytesFrom(m, pos, n) + m[pos + n..pos + n + chunk]
  {
  }

  /** The parameter block fields the call uses. */
  function Buffer(mem: seq<byte>, pb: nat): u32
    requires pb + 50 <= |mem|
  {
    Rd32(mem, pb + 22)
  }

  function Request(mem: seq<byte>, pb: nat): u32
    requires pb + 50 <= |mem|
  {
    Rd32(mem, pb + 26)
  }

  function Position(mem: seq<byte>, pb: nat): nat
    requires pb + 50 <= |mem|
  {
    StartOf(Rd32(mem, pb + 36))
  }

  /** How many bytes the call copies. */
  function Transferred(vol: Volume, pb: nat, mem: seq<byte>): nat
    requires pb + 50 <= |mem|
  {
    Copied(vol, Position(mem, pb), Request(mem, pb), Buffer(mem, pb))
  }

  /** The bytes to be copied fit the guest's memory. */
  predicate HasRoom(vol: Volume, pb: nat, mem: seq<byte>)
    requires pb + 50 <= |mem|
  {
    var n := Transferred(vol, pb, mem);
    n > 0 ==> Buffer(mem, pb) + n <= |mem|
  }

  /** The requested bytes, clipped to the volume, are in the guest's buffer, and
      the reported count in ioActCount; nothing else changed. */
  ghost predicate Delivered(m: seq<byte>, vol: Volume, pb: nat, was: seq<byte>, now: seq<byte>)
    requires pb + 50 <= |was| && HasRoom(vol, pb, was)
  {
    var pos, n := Position(was, pb), Transferred(vol, pb, was);
    && HasBytes(m, pos, n)
    && now == Put32(Filled(was, Buffer(was, pb), BytesFrom(m, pos, n)), pb + 30,
                    Reported(vol, pos, Request(was, pb)))
  }

  /** The fields by their bytes: the buffer, the count asked for, and the offset
      with its last byte, a mode, taken off. */
  lemma {:induction false} FieldBytes(mem: seq<byte>, pb: nat)
    requires pb + 50 <= |mem|
    ensures Buffer(mem, pb) == Word(mem[pb + 22], mem[pb + 23], mem[pb + 24], mem[pb + 25])
    ensures Request(mem, pb) == Word(mem[pb + 26], mem[pb + 27], mem[pb + 28], mem[pb + 29])
    ensures Position(mem, pb) == Word(mem[pb + 36], mem[pb + 37], mem[pb + 38], 0)
  {
    Low8(Word(0, mem[pb + 36], mem[pb + 37], mem[pb + 38]), mem[pb + 39]);
  }

  lemma {:induction false} Low8(x: nat, b: byte)
    requires x < 0x1000000
    ensures StartOf(x * 0x100 + b) == x * 0x100
  {
    Divided(0x100, x, b);
  }

  /** When the device can supply a range, in numbers. */
  lemma {:induction false} ReadableMeans(dev: BlockDevice, pos: nat, n: nat)
    ensures Readable(dev, pos, n) <==> n == 0 || (dev.blockSize <= 2048 && pos + n <= |dev.media|)
    ensures ReadSize(dev.blockSize) == Min(dev.blockSize, 2048)
  {
  }

  /** Clipping counts the requested bytes that lie on the volume. */
  lemma {:induction false} ClippedBytes(vol: Volume, pos: nat, req: nat, i: nat)
    requires i < req
    ensures Clipped(vol, pos, req) <= req
    ensures i < Clipped(vol, pos, req) <==> vol.NoVolume? || pos + i < vol.bytes
  {
  }

  /** What a successful read leaves, byte by byte and read off the parameter block:
      ioActCount, the bytes of the device from the offset rounded down to 256 on
      in the buffer, as many as lie on the volume, and everything else as it was. */
  lemma {:induction false} DeliveredBytes(m: seq<byte>, vol: Volume, pb: nat, was: seq<byte>, now: seq<byte>, k: nat)
    requires pb + 50 <= |was| && HasRoom(vol, pb, was) && Delivered(m, vol, pb, was, now) && k < |was|
    ensures |now| == |was|
    ensures var buffer := Word(was[pb + 22], was[pb + 23], was[pb + 24], was[pb + 25]);
      var req := Word(was[pb + 26], was[pb + 27], was[pb + 28], was[pb + 29]);
      var pos := Word(was[pb + 36], was[pb + 37], was[pb + 38], 0);
      var past := vol.Mounted? && pos >= vol.bytes && pos + req > vol.bytes;
      && Rd32(now, pb + 30) == (if past then 0 else req)
      && (!(pb + 30 <= k < pb + 34) ==>
            if buffer != 0 && buffer <= k < buffer + req && (vol.NoVolume? || pos + (k - buffer) < vol.bytes)
            then pos + (k - buffer) < |m| && now[k] == m[pos + (k - buffer)]
            else now[k] == was[k])
  {
    hide Rd32, Put32, Splice, BytesFrom, Clipped, Buffer, Request, Position;
    FieldBytes(was, pb);
    var pos, req, buffer := Position(was, pb), Request(was, pb), Buffer(was, pb);
    var n := Transferred(vol, pb, was);
    var filled := Filled(was, buffer, BytesFrom(m, pos, n));
    Rd32Put32(filled, pb + 30, Reported(vol, pos, req));
    PutFrame(filled, pb + 30, Reported(vol, pos, req));
    FilledByte(m, was, buffer, pos, n, k);
    if buffer <= k < buffer + req {
      ClippedBytes(vol, pos, req, k - buffer);
    }
    if req > 0 {
      ClippedBytes(vol, pos, req, 0);
    } else {
      NothingClipped(vol, pos);
    }
  }

  lemma {:induction false} NothingClipped(vol: Volume, pos: nat)
    ensures Clipped(vol, pos, 0) == 0
  {
  }

  lemma {:induction false} FilledByte(m: seq<byte>, was: seq<byte>, buffer: nat, pos: nat, n: nat, k: nat)
    requires HasBytes(m, pos, n) && k < |was| && (n > 0 ==> buffer + n <= |was|)
    ensures BytesFrom(m, pos, n) != [] ==> buffer + |BytesFrom(m, pos, n)| <= |was|
    ensures var filled := Filled(was, buffer, BytesFrom(m, pos, n));
      filled[k] == if buffer <= k < buffer + n then m[pos + (k - buffer)] else was[k]
  {
  }

  /** Read or refuse to write: the result code, with ioActCount at pb + 30. */
  method EmulDiskPrimeTransfer(mem: array<byte>, pb: nat, isWrite: bool, dev: BlockDevice?, vol: Volume)
    returns (code: u32)
    requires mem.Length <= TWO32 && pb + 50 <= mem.Length
    requires dev != null ==> dev.Valid()
    requires HasRoom(vol, pb, mem[..])
    modifies mem
    ensures isWrite ==> code == 46
    ensures !isWrite ==> (code == 64 <==> old(Word(0, 0, mem[pb + 14], mem[pb + 15])) > 1 || dev == null)
    ensures code !in {0, 51} ==> mem[..] == old(mem[..])
    ensures code in {0, 51, 46, 64}
    ensures code == 0 ==>
      && dev != null && Delivered(dev.media, vol, pb, old(mem[..]), mem[..])
      && old(Readable(dev, Position(mem[..], pb), Transferred(vol, pb, mem[..])))
    ensures !isWrite && old(Word(0, 0, mem[pb + 14], mem[pb + 15])) <= 1 && dev != null && dev.healthy ==>
      (code == 0 <==> old(Readable(dev, Position(mem[..], pb), Transferred(vol, pb, mem[..]))))
  {
    hide Splice, Put32, Rd32, Delivered, HasRoom, Readable, Transferred;
    if isWrite {
      return WRITE_PROTECTED;
    }
    var refNum := Word(0, 0, mem[pb + 14], mem[pb + 15]);
    if refNum > 1 || dev == null {
      return NO_DRIVE;
    }
    code := Transfer(mem, pb, dev, vol);
  }

  /** The read half of the call. */
  method Transfer(mem: array<byte>, pb: nat, dev: BlockDevice, vol: Volume) returns (code: u32)
    requires mem.Length <= TWO32 && pb + 50 <= mem.Length
    requires dev.Valid() && HasRoom(vol, pb, mem[..])
    modifies mem
    ensures code in {0, READ_ERROR}
    ensures code == 0 ==> Delivered(dev.media, vol, pb, old(mem[..]), mem[..])
    ensures code == 0 ==> old(Readable(dev, Position(mem[..], pb), Transferred(vol, pb, mem[..])))
    ensures dev.healthy && old(Readable(dev, Position(mem[..], pb), Transferred(vol, pb, mem[..]))) ==> code == 0
  {
    hide Splice, Put32, Rd32, BytesFrom, Filled;
    ghost var was := mem[..];
    var buffer := Read32(mem, pb + 22);
    var reqCount := Read32(mem, pb + 26);
    var posOffset := Read32(mem, pb + 36);
    var bytePos := StartOf(posOffset);
    var remaining: nat := reqCount;
    NoBytes(dev.media, bytePos, was, buffer);
    if vol.Mounted? && bytePos + remaining > vol.bytes {
      if bytePos >= vol.bytes {
        Write32(mem, pb + 30, 0);
        return 0;
      }
      remaining := vol.bytes - bytePos;
    }
    if buffer != 0 {
      var ok := CopyBlocks(dev, bytePos, remaining, mem, buffer);
      if !ok {
        return READ_ERROR;
      }
    }
    Write32(mem, pb + 30, reqCount);
    return 0;
  }
}
