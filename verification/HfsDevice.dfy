/** Byte-granular reads from a block device. */
module HfsDevice {
  import opened Bytes

  datatype Status =
    | Success | InvalidParameter | EndOfMedia | OutOfResources | DeviceError | NotReady | BufferTooSmall

  /** A device of whole blocks. Any read of a device that is not healthy may
      fail, and so may any scratch allocation when memory is short. */
  class BlockDevice {
    const media: seq<byte>
    const blockSize: nat
    const healthy: bool
    const memoryShort: bool

    constructor (media: seq<byte>, blockSize: nat, healthy: bool, memoryShort: bool)
      ensures this.media == media && this.blockSize == blockSize
      ensures this.healthy == healthy && this.memoryShort == memoryShort
    {
      this.media, this.blockSize, this.healthy, this.memoryShort := media, blockSize, healthy, memoryShort;
    }

    /** Nothing but the request itself can make a read fail. */
    predicate Sound() { healthy && !memoryShort }

    ghost predicate Valid() { blockSize > 0 && |media| % blockSize == 0 }

    /** Read whole blocks from block `lba` into buf[at..]. */
    method ReadBlocks(lba: nat, size: nat, buf: array<byte>, at: nat) returns (status: Status)
      requires Valid() && at + size <= buf.Length
      modifies buf
      ensures status == Success ==>
        && size % blockSize == 0 && lba * blockSize + size <= |media|
        && buf[..] == Splice(old(buf[..]), at, media[lba * blockSize..lba * blockSize + size])
      ensures status != Success ==> status == DeviceError && buf[..] == old(buf[..])
      ensures healthy && size % blockSize == 0 && lba * blockSize + size <= |media| ==> status == Success
    {
      var fails: bool := *;
      if (fails && !healthy) || size % blockSize != 0 || lba * blockSize + size > |media| {
        return DeviceError;
      }
      CopyInto(media[lba * blockSize..lba * blockSize + size], buf, at);
      return Success;
    }

    /** Read `size` bytes at byte `offset`, through a scratch buffer of whole
        blocks unless the request is block-aligned. */
    method HfsDeviceReadBytes(offset: nat, size: nat, buf: array<byte>, at: nat) returns (status: Status)
      requires Valid() && at + size <= buf.Length
      modifies buf
      ensures status == Success ==>
        size > 0 && offset + size <= |media| && buf[..] == Splice(old(buf[..]), at, media[offset..offset + size])
      ensures status != Success ==> buf[..] == old(buf[..])
      ensures status == InvalidParameter <==> size == 0
      ensures status == EndOfMedia <==> size > 0 && offset + size > |media|
      ensures status in {Success, InvalidParameter, EndOfMedia, OutOfResources, DeviceError}
      ensures status == OutOfResources ==> memoryShort && !(offset % blockSize == 0 && size % blockSize == 0)
      ensures status == DeviceError ==> !healthy
      ensures Sound() && size > 0 && offset + size <= |media| ==> status == Success
    {
      if size == 0 {
        return InvalidParameter;
      }
      if offset + size > |media| {
        return EndOfMedia;
      }
      if offset % blockSize == 0 && size % blockSize == 0 {
        assert offset / blockSize * blockSize == offset;
        status := ReadBlocks(offset / blockSize, size, buf, at);
      } else {
        status := ReadThroughScratch(offset, size, buf, at);
      }
    }

    method ReadThroughScratch(offset: nat, size: nat, buf: array<byte>, at: nat) returns (status: Status)
      requires Valid() && size > 0 && at + size <= buf.Length && offset + size <= |media|
      modifies buf
      ensures status == Success ==> buf[..] == Splice(old(buf[..]), at, media[offset..offset + size])
      ensures status != Success ==> buf[..] == old(buf[..])
      ensures status in {Success, OutOfResources, DeviceError}
      ensures status == OutOfResources ==> memoryShort
      ensures status == DeviceError ==> !healthy
    {
      hide Splice;
      var first, last := offset / blockSize, (offset + size - 1) / blockSize;
      BlockRange(offset, size, blockSize);
      BlocksInside(offset, size, blockSize, |media|);
      var scratchSize := (last - first + 1) * blockSize;
      var noMemory: bool := *;
      if noMemory && memoryShort {
        return OutOfResources;
      }
      var scratch := new byte[scratchSize](_ => 0);
      ghost var blank := scratch[..];
      status := ReadBlocks(first, scratchSize, scratch, 0);
      if status == Success {
        var start, skip := first * blockSize, offset - first * blockSize;
        SpliceAll(blank, media[start..start + scratchSize]);
        Window(media, start, scratchSize, skip, size);
        CopyInto(scratch[skip..skip + size], buf, at);
      }
    }
  }

  lemma {:induction false} SpliceAll(b: seq<byte>, src: seq<byte>)
    requires |b| == |src|
    ensures Splice(b, 0, src) == src
  {
  }

  /** The whole blocks that cover a byte range. */
  lemma {:induction false} BlockRange(offset: nat, size: nat, b: nat)
    requires b > 0 && size > 0
    ensures var first, last := offset / b, (offset + size - 1) / b;
      && first <= last
      && first * b <= offset && offset + size <= first * b + (last - first + 1) * b
  {
    var end := offset + size - 1;
    var first, last := offset / b, end / b;
    FloorBelow(offset, b);
    FloorBelow(end, b);
    assert b * (last - first) == last * b - first * b;
    Multiples(b, last - first);
    assert (last - first + 1) * b == last * b - first * b + b;
  }

  /** A range inside a device of whole blocks is covered by blocks inside it. */
  lemma {:induction false} BlocksInside(offset: nat, size: nat, b: nat, total: nat)
    requires b > 0 && size > 0 && total % b == 0 && offset + size <= total
    ensures var first, last := offset / b, (offset + size - 1) / b;
      first * b + (last - first + 1) * b <= total && ((last - first + 1) * b) % b == 0
  {
    var first, last, count := offset / b, (offset + size - 1) / b, total / b;
    FloorBelow(offset + size - 1, b);
    assert total == b * count;
    assert b * (last - count) == last * b - total;
    Multiples(b, last - count);
    assert last < count;
    Multiples(b, count - last - 1);
    assert b * (count - last - 1) == total - last * b - b;
    assert first * b + (last - first + 1) * b == last * b + b;
    assert b * (last - first + 1) == (last - first + 1) * b;
    MultipleMod(b, last - first + 1);
  }
}
