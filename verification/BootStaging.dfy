/** Staging files one after the other in a guest area. */
module BootStaging {
  import opened Bytes
  import opened HfsDevice
  import HfsRead

  datatype Outcome = Staged | NotFound | AreaFull | LoadError | ReadError(status: Status)

  /** A staged file: where it is, the room it takes and the bytes it holds. */
  datatype File = File(addr: nat, room: nat, size: nat, data: seq<byte>)

  /** A file to stage: the size it is listed with and the bytes it yields; any
      read of one that is not sound may fail. */
  datatype Source = Missing | Source(size: nat, bytes: seq<byte>, sound: bool)

  function RoundUp16(n: nat): nat { (n + 15) / 16 * 16 }

  function Head(s: seq<byte>, n: nat): (r: seq<byte>)
    ensures |r| <= n && |r| <= |s|
  {
    if |s| <= n then s else s[..n]
  }

  function Room(files: seq<File>): nat {
    if files == [] then 0 else Room(files[..|files| - 1]) + files[|files| - 1].room
  }

  function Listed(files: seq<File>): nat {
    if files == [] then 0 else Listed(files[..|files| - 1]) + files[|files| - 1].size
  }

  /** File `i` begins where the files before it end. */
  ghost predicate InPlace(files: seq<File>, base: nat, i: nat)
    requires i < |files|
  {
    var f := files[i];
    f.addr == base + Room(files[..i]) && f.room % 16 == 0 && |f.data| <= f.room && f.size <= f.room
  }

  /** The files fill the area from its base without gaps. */
  ghost predicate Packed(files: seq<File>, base: nat) {
    forall i :: 0 <= i < |files| ==> InPlace(files, base, i)
  }

  /** The area holds the file's bytes at its address. */
  ghost predicate Holds(f: File, base: nat, host: seq<byte>) {
    && base <= f.addr && f.addr - base + |f.data| <= |host|
    && host[f.addr - base..f.addr - base + |f.data|] == f.data
  }

  ghost predicate Intact(files: seq<File>, base: nat, host: seq<byte>) {
    forall i :: 0 <= i < |files| ==> Holds(files[i], base, host)
  }

  class Area {
    const base: nat
    const host: array<byte>
    var cursor: nat
    var totalStaged: nat
    ghost var files: seq<File>

    constructor (base: nat, size: nat)
      requires base % 16 == 0
      ensures Valid() && files == [] && this.base == base && host.Length == size && fresh(host)
    {
      this.base, host := base, new byte[size](_ => 0);
      cursor, totalStaged, files := base, 0, [];
    }

    ghost predicate Valid()
      reads this, host
    {
      && base % 16 == 0 && cursor == base + Room(files) <= base + host.Length
      && totalStaged == Listed(files)
      && Packed(files, base) && Intact(files, base, host[..])
    }

    /** Only bytes from the cursor on may differ from `was`. */
    ghost predicate Above(was: seq<byte>)
      reads this, host
    {
      base <= cursor && |was| == host.Length && cursor - base <= |was| && host[..cursor - base] == was[..cursor - base]
    }

    /** Read from the file until it ends or `room` bytes are in, in chunks of any
        size. */
    method ReadFileInto(bytes: seq<byte>, sound: bool, room: nat) returns (ok: bool)
      requires base <= cursor && cursor - base + room <= host.Length
      modifies host
      ensures Above(old(host[..]))
      ensures sound ==> ok
      ensures ok ==> host[..] == Splice(old(host[..]), cursor - base, Head(bytes, room))
    {
      hide Splice;
      ghost var was := host[..];
      var at, offset: nat, remaining: nat := cursor - base, 0, room;
      SpliceNone(was, at);
      assert bytes[..0] == [];
      while remaining > 0
        invariant offset + remaining == room && offset <= |bytes|
        invariant host[..] == Splice(was, at, bytes[..offset])
        decreases remaining
      {
        SpliceAbove(was, at, bytes[..offset]);
        var fails: bool := *;
        if fails && !sound {
          return false;
        }
        var left := if |bytes| - offset <= remaining then |bytes| - offset else remaining;
        if left == 0 {
          break;
        }
        var chunk: nat :| 0 < chunk <= left;
        SpliceLonger(was, at, bytes, offset, chunk);
        CopyInto(bytes[offset..offset + chunk], host, at + offset);
        offset, remaining := offset + chunk, remaining - chunk;
      }
      SpliceAbove(was, at, bytes[..offset]);
      assert bytes[..offset] == Head(bytes, room);
      return true;
    }

    /** Stage a file of the boot volume. */
    method BootStageFile(src: Source) returns (outcome: Outcome)
      requires Valid()
      modifies this, host
      ensures Valid()
      ensures outcome == Staged ==>
        && src.Source? && src.size > 0
        && files == old(files) +
                    [File(old(cursor), RoundUp16(src.size), src.size, Head(src.bytes, RoundUp16(src.size)))]
        && cursor == old(cursor) + (src.size + 15) / 16 * 16 && totalStaged == old(totalStaged) + src.size
      ensures outcome != Staged ==> files == old(files) && cursor == old(cursor) && totalStaged == old(totalStaged)
      ensures outcome == NotFound <==> src.Missing? || src.size == 0
      ensures outcome == AreaFull <==> src.Source? && src.size > 0 && old(Room(files)) + RoundUp16(src.size) > host.Length
      ensures outcome in {Staged, NotFound, AreaFull, LoadError}
      ensures outcome == LoadError ==> src.Source? && !src.sound
    {
      if src.Missing? || src.size == 0 {
        return NotFound;
      }
      var aligned := RoundUp16(src.size);
      if cursor - base + aligned > host.Length {
        return AreaFull;
      }
      var ok := Fill(src.size, src.bytes, src.sound, aligned);
      outcome := if ok then Staged else LoadError;
    }

    /** Read the file in at the cursor and, if that succeeds, take its room. */
    method Fill(size: nat, bytes: seq<byte>, sound: bool, aligned: nat) returns (ok: bool)
      requires Valid() && aligned == RoundUp16(size) && cursor - base + aligned <= host.Length
      modifies this, host
      ensures Valid()
      ensures sound ==> ok
      ensures ok ==>
        && files == old(files) + [File(old(cursor), aligned, size, Head(bytes, aligned))]
        && cursor == old(cursor) + aligned && totalStaged == old(totalStaged) + size
      ensures !ok ==> files == old(files) && cursor == old(cursor) && totalStaged == old(totalStaged)
    {
      hide Room, Listed, RoundUp16, Packed, Intact, Splice;
      ghost var was := host[..];
      ok := ReadFileInto(bytes, sound, aligned);
      StillIntact(files, base, cursor, was, host[..]);
      if ok {
        Take(aligned, size, Head(bytes, aligned), was);
      }
    }

    /** Stage a file of the mounted HFS volume. */
    method BootStageHfsFile(reader: HfsRead.Reader, entry: Option<HfsRead.Entry>) returns (outcome: Outcome)
      requires Valid() && reader.Valid()
      requires entry.Some? ==> forall i :: 0 <= i < |entry.value.extents| ==> entry.value.extents[i].count > 0
      modifies this, host
      ensures Valid()
      ensures outcome == Staged ==>
        && entry.Some? && !entry.value.isDirectory && entry.value.size > 0 && reader.mounted
        && var e := entry.value;
           var aligned := RoundUp16(e.size);
           e.size <= aligned
           && files == old(files) +
                       [File(old(cursor), aligned, e.size, reader.Content(e, e.size) + Zeros(aligned - e.size))]
           && cursor == old(cursor) + (e.size + 15) / 16 * 16 && totalStaged == old(totalStaged) + e.size
      ensures outcome != Staged ==> files == old(files) && cursor == old(cursor) && totalStaged == old(totalStaged)
      ensures outcome == NotFound <==> entry.None? || entry.value.isDirectory || entry.value.size == 0
      ensures outcome == AreaFull <==>
        entry.Some? && !entry.value.isDirectory && entry.value.size > 0
        && old(Room(files)) + RoundUp16(entry.value.size) > host.Length
      ensures outcome in {Staged, NotFound, AreaFull} || outcome.ReadError?
      ensures outcome.ReadError? ==>
        && entry.Some? && outcome.status != Success
        && (outcome.status == NotReady <==> !reader.mounted)
        && (reader.mounted && reader.dev.Sound() ==>
              outcome.status == EndOfMedia && |reader.Content(entry.value, entry.value.size)| < entry.value.size)
      ensures outcome == Staged ==> |reader.Content(entry.value, entry.value.size)| == entry.value.size
    {
      hide RoundUp16, Room, Zeros, Packed, Intact, Listed, HfsRead.Reader.Content;
      if entry.None? || entry.value.isDirectory || entry.value.size == 0 {
        return NotFound;
      }
      var e := entry.value;
      RoundUpAligned(e.size);
      var aligned := RoundUp16(e.size);
      if cursor - base + aligned > host.Length {
        return AreaFull;
      }
      var status := FillFromHfs(reader, e, aligned);
      outcome := if status == Success then Staged else ReadError(status);
    }

    /** Read the data fork in at the cursor and clear the padding behind it. The
        reader fills a scratch buffer that stands for the part of the area it is
        handed. */
    method ReadHfsInto(reader: HfsRead.Reader, e: HfsRead.Entry, aligned: nat) returns (status: Status)
      requires base <= cursor && cursor - base + aligned <= host.Length && e.size <= aligned
      requires reader.Valid() && !e.isDirectory
      requires forall i :: 0 <= i < |e.extents| ==> e.extents[i].count > 0
      modifies host
      ensures Above(old(host[..]))
      ensures status == NotReady <==> !reader.mounted
      ensures reader.mounted && reader.dev.Sound() && status != Success ==>
        status == EndOfMedia && |reader.Content(e, e.size)| < e.size
      ensures status == Success ==>
        && reader.mounted && |reader.Content(e, e.size)| == e.size
        && host[..] == Splice(old(host[..]), cursor - base, reader.Content(e, e.size) + Zeros(aligned - e.size))
    {
      hide Splice, Zeros, HfsRead.Reader.Valid, HfsRead.Reader.Content;
      var scratch := new byte[e.size];
      var size;
      status, size := reader.PpcHfsReadFile(e, scratch, e.size);
      assert scratch[..e.size] == scratch[..];
      StorePadded(scratch[..], if status == Success then aligned - e.size else 0);
    }

    /** Store `x` and `pad` zeros at the cursor. */
    method StorePadded(x: seq<byte>, pad: nat)
      requires base <= cursor && cursor - base + |x| + pad <= host.Length
      modifies host
      ensures Above(old(host[..]))
      ensures host[..] == Splice(old(host[..]), cursor - base, x + Zeros(pad))
    {
      hide Splice, Zeros;
      var zeros := ZeroBlock(pad);
      var at := cursor - base;
      SplicePair(host[..], at, x, zeros);
      SpliceAbove(host[..], at, x + zeros);
      CopyInto(x, host, at);
      CopyInto(zeros, host, at + |x|);
    }

    method FillFromHfs(reader: HfsRead.Reader, e: HfsRead.Entry, aligned: nat) returns (status: Status)
      requires Valid() && reader.Valid() && !e.isDirectory
      requires forall i :: 0 <= i < |e.extents| ==> e.extents[i].count > 0
      requires aligned == RoundUp16(e.size) && e.size <= aligned && cursor - base + aligned <= host.Length
      modifies this, host
      ensures Valid()
      ensures status == NotReady <==> !reader.mounted
      ensures reader.mounted && reader.dev.Sound() && status != Success ==>
        status == EndOfMedia && |reader.Content(e, e.size)| < e.size
      ensures status == Success ==>
        && reader.mounted && |reader.Content(e, e.size)| == e.size
        && files == old(files) +
                    [File(old(cursor), aligned, e.size, reader.Content(e, e.size) + Zeros(aligned - e.size))]
        && cursor == old(cursor) + aligned && totalStaged == old(totalStaged) + e.size
      ensures status != Success ==> files == old(files) && cursor == old(cursor) && totalStaged == old(totalStaged)
    {
      hide Room, Listed, RoundUp16, Packed, Intact, Splice, Zeros, HfsRead.Reader.Content;
      ghost var was := host[..];
      status := ReadHfsInto(reader, e, aligned);
      StillIntact(files, base, cursor, was, host[..]);
      if status == Success {
        Take(aligned, e.size, reader.Content(e, e.size) + Zeros(aligned - e.size), was);
      }
    }

    /** Take the room of the file just read in. */
    method Take(aligned: nat, size: nat, ghost data: seq<byte>, ghost was: seq<byte>)
      requires base % 16 == 0 && cursor == base + Room(files) && totalStaged == Listed(files)
      requires Packed(files, base) && Intact(files, base, host[..])
      requires aligned == RoundUp16(size) && cursor - base + aligned <= host.Length == |was| && |data| <= aligned
      requires host[..] == Splice(was, cursor - base, data)
      modifies this
      ensures Valid() && files == old(files) + [File(old(cursor), aligned, size, data)]
      ensures cursor == old(cursor) + aligned && totalStaged == old(totalStaged) + size
    {
      hide Room, Listed, RoundUp16, Packed, Intact, Splice;
      StageOne(files, base, cursor, size, data, was, host[..]);
      files := files + [File(cursor, aligned, size, data)];
      cursor := cursor + aligned;
      totalStaged := totalStaged + size;
    }
  }

  lemma {:induction false} SpliceAbove(b: seq<byte>, at: nat, src: seq<byte>)
    requires at + |src| <= |b|
    ensures Splice(b, at, src)[..at] == b[..at] && |Splice(b, at, src)| == |b|
    ensures Splice(b, at, src)[at..at + |src|] == src
  {
  }

  lemma {:induction false} SpliceLonger(b: seq<byte>, at: nat, src: seq<byte>, n: nat, m: nat)
    requires n + m <= |src| && at + n + m <= |b|
    ensures Splice(Splice(b, at, src[..n]), at + n, src[n..n + m]) == Splice(b, at, src[..n + m])
  {
    assert src[..n + m] == src[..n] + src[n..n + m];
  }

  lemma {:induction false} RoomPrefix(files: seq<File>, i: nat, j: nat)
    requires i <= j <= |files|
    ensures Room(files[..i]) <= Room(files[..j])
    ensures i < j ==> Room(files[..i]) + files[i].room <= Room(files[..j])
  {
    if i < j {
      assert files[..j][..j - 1] == files[..j - 1];
      RoomPrefix(files, i, j - 1);
    }
  }

  lemma {:induction false} StillHolds(f: File, base: nat, c: nat, was: seq<byte>, now: seq<byte>)
    requires Holds(f, base, was) && f.addr - base + |f.data| <= c <= |was| == |now| && was[..c] == now[..c]
    ensures Holds(f, base, now)
  {
    var a, n := f.addr - base, |f.data|;
    assert was[0..c] == now[0..c];
    Window(was, 0, c, a, n);
    Window(now, 0, c, a, n);
  }

  /** Writes at or above the cursor reach no staged file. */
  lemma {:induction false} StillIntact(files: seq<File>, base: nat, cursor: nat, was: seq<byte>, now: seq<byte>)
    requires Packed(files, base) && Intact(files, base, was) && cursor == base + Room(files)
    requires |was| == |now| && cursor - base <= |was| && was[..cursor - base] == now[..cursor - base]
    ensures Intact(files, base, now)
  {
    hide Room, Holds;
    forall i | 0 <= i < |files| ensures Holds(files[i], base, now) {
      assert InPlace(files, base, i) && Holds(files[i], base, was);
      RoomPrefix(files, i, |files|);
      assert files[..|files|] == files;
      StillHolds(files[i], base, cursor - base, was, now);
    }
  }

  lemma {:induction false} RoundUpAligned(n: nat)
    ensures RoundUp16(n) % 16 == 0 && n <= RoundUp16(n) < n + 16 && RoundUp16(n) == (n + 15) / 16 * 16
  {
  }

  lemma {:induction false} StageOne(files: seq<File>, base: nat, cursor: nat, size: nat, data: seq<byte>, was: seq<byte>, now: seq<byte>)
    requires base % 16 == 0 && Packed(files, base) && Intact(files, base, now) && cursor == base + Room(files)
    requires |data| <= RoundUp16(size) && cursor - base + RoundUp16(size) <= |was|
    requires now == Splice(was, cursor - base, data)
    ensures var all := files + [File(cursor, RoundUp16(size), size, data)];
      && Packed(all, base) && Intact(all, base, now)
      && Room(all) == Room(files) + RoundUp16(size) && Listed(all) == Listed(files) + size
  {
    var f := File(cursor, RoundUp16(size), size, data);
    var all := files + [f];
    assert all[..|files|] == files;
    RoundUpAligned(size);
    SpliceAbove(was, cursor - base, data);
    hide RoundUp16, Splice, Holds;
    forall i | 0 <= i < |all| ensures InPlace(all, base, i) {
      if i < |files| {
        assert InPlace(files, base, i) && all[..i] == files[..i];
      }
    }
    HoldsNew(f, base, was, now);
  }

  lemma {:induction false} HoldsNew(f: File, base: nat, was: seq<byte>, now: seq<byte>)
    requires base <= f.addr && f.addr - base + |f.data| <= |was| && now == Splice(was, f.addr - base, f.data)
    ensures Holds(f, base, now)
  {
    SpliceAbove(was, f.addr - base, f.data);
    hide Splice;
  }

  /** Staged files are aligned and pairwise disjoint, and together listed as no
      more than the cursor has moved. */
  lemma {:induction false} FilesDisjoint(files: seq<File>, base: nat, i: nat, j: nat)
    requires base % 16 == 0 && Packed(files, base) && i < j < |files|
    ensures files[i].addr + files[i].room <= files[j].addr
    ensures files[i].addr % 16 == 0 && files[j].addr % 16 == 0
  {
    hide Room;
    assert InPlace(files, base, i) && InPlace(files, base, j);
    RoomPrefix(files, i, j);
    RoomAligned(files, base, i);
    RoomAligned(files, base, j);
  }

  /** Every staged file lies inside the area, below the cursor. */
  lemma {:induction false} FileInside(area: Area, i: nat)
    requires area.Valid() && i < |area.files|
    ensures area.base <= area.files[i].addr
    ensures area.files[i].addr + area.files[i].room <= area.cursor <= area.base + area.host.Length
  {
    hide Room, Intact;
    var files := area.files;
    assert InPlace(files, area.base, i) && files[..|files|] == files;
    RoomPrefix(files, i, |files|);
  }

  /** The total of staged sizes never exceeds how far the cursor has moved. */
  lemma {:induction false} TotalWithin(area: Area)
    requires area.Valid()
    ensures area.totalStaged <= area.cursor - area.base <= area.host.Length
  {
    hide Room, Listed, Intact;
    ListedWithinRoom(area.files, area.base, |area.files|);
    assert area.files[..|area.files|] == area.files;
  }

  lemma {:induction false} RoomAligned(files: seq<File>, base: nat, i: nat)
    requires Packed(files, base) && i <= |files|
    ensures Room(files[..i]) % 16 == 0
  {
    if i > 0 {
      RoomAligned(files, base, i - 1);
      assert InPlace(files, base, i - 1);
      assert files[..i][..i - 1] == files[..i - 1];
    }
  }

  lemma {:induction false} ListedWithinRoom(files: seq<File>, base: nat, i: nat)
    requires Packed(files, base) && i <= |files|
    ensures Listed(files[..i]) <= Room(files[..i])
  {
    if i > 0 {
      ListedWithinRoom(files, base, i - 1);
      assert InPlace(files, base, i - 1);
      assert files[..i][..i - 1] == files[..i - 1];
    }
  }
}
