/** What the jump-table pass does, read off the image it starts from: it rebases
    exactly the entries that the tables of that image list. */
module RomJumpEntries {
  import opened Bytes
  import opened RomJumpTables

  /** The first halfword at `lp` has become that of a rebased entry. */
  predicate EntryDone(r: seq<byte>, q: seq<byte>, lp: nat, base: u32) {
    lp + 1 < |r| == |q| && q[lp] == NewHi(base) && q[lp + 1] == NewLo(base, r[lp + 1])
  }

  lemma {:induction false} FirstBytes(r: seq<byte>, q: seq<byte>, i: nat, base: u32)
    requires SafeBase(base) && Settles(r, q, base) && i + 1 < |r| && i % 2 == 0
    ensures |r| == |q| && (q[i] == r[i] || (r[i] == 0xFF && q[i] == NewHi(base) != 0xFF))
  {
    NewHalf(0, base);
    hide SafeBase, NewHi, NewLo;
    assert HalfStep(r, q, i, base);
  }

  lemma {:induction false} ChangedIsDone(r: seq<byte>, q: seq<byte>, i: nat, base: u32)
    requires Settles(r, q, base) && i % 2 == 0 && i + 1 < |q| && q[i] != r[i]
    ensures EntryDone(r, q, i, base)
  {
    hide NewHi, NewLo;
    assert HalfStep(r, q, i, base);
  }

  /** An entry of the run from `lp` to `end` begins at `i`. */
  predicate InRun(i: nat, lp: nat, end: nat) { lp <= i < end && (i - lp) % 4 == 0 }

  lemma {:induction false} InRunStep(i: nat, lp: nat, end: nat)
    requires lp + 4 <= end
    ensures InRun(i, lp, end) <==> i == lp || InRun(i, lp + 4, end)
  {
  }

  lemma {:induction false} InRunNext(i: nat, lp: nat, end: nat)
    requires InRun(i, lp, end) && (end - lp) % 4 == 0
    ensures i + 4 == end || InRun(i + 4, lp, end)
  {
  }

  /** First bytes of the run from `lp` to where it stops. */
  ghost predicate RunBytes(q: seq<byte>, s: seq<byte>, lp: nat, end: nat) {
    && |s| == |q| && lp <= end && (end - lp) % 4 == 0 && !Raw(s, end)
    && (forall i :: 0 <= i && InRun(i, lp, end) ==> i + 4 <= |q| && q[i] == 0xFF && s[i] != 0xFF)
    && (forall i :: 0 <= i < |q| && i % 2 == 0 && !InRun(i, lp, end) ==> s[i] == q[i])
  }

  /** A run rebases exactly the raw entries from `lp` up to the first that is not. */
  lemma {:induction false} RunExtent(q: seq<byte>, lp: nat, base: u32)
    requires SafeBase(base) && lp % 2 == 0
    ensures RunBytes(q, RebaseRun(q, lp, base), lp, RunEnd(q, lp, base))
    decreases |q| - lp
  {
    hide SafeBase, NewHi, NewLo, Rebased, Rd32, RunBytes;
    if Raw(q, lp) {
      var v := Rebased(Rd32(q, lp), base);
      var t := Put32(q, lp, v);
      EntryBytes(q, lp, base);
      RunExtent(t, lp + 4, base);
      RunBytesStep(q, t, RebaseRun(t, lp + 4, base), lp, RunEnd(t, lp + 4, base));
    } else {
      RunBytesNone(q, lp);
    }
    hide Raw, Put32;
  }

  lemma {:induction false} EntryBytes(q: seq<byte>, lp: nat, base: u32)
    requires SafeBase(base) && Raw(q, lp) && lp % 2 == 0
    ensures var t := Put32(q, lp, Rebased(Rd32(q, lp), base));
      lp + 4 <= |q| == |t| && q[lp] == 0xFF && t[lp] != 0xFF && forall i :: 0 <= i < |q| && i % 2 == 0 && i != lp ==> t[i] == q[i]
  {
    hide SafeBase, NewHi, NewLo, Rebased, Put32, Rd32;
    RawByte(q, lp);
    NewHalf(0, base);
    EntrySettles(q, lp, base);
    EntryKeeps(q, lp, base);
  }

  lemma {:induction false} EntryKeeps(q: seq<byte>, lp: nat, base: u32)
    requires SafeBase(base) && Raw(q, lp)
    ensures var t := Put32(q, lp, Rebased(Rd32(q, lp), base));
      forall i :: 0 <= i < |q| && i != lp && i != lp + 1 ==> t[i] == q[i]
  {
    hide SafeBase, NewHi, NewLo, Rebased;
    RebasedBytes(q[lp], q[lp + 1], q[lp + 2], q[lp + 3], base);
  }

  lemma {:induction false} RunBytesNone(q: seq<byte>, lp: nat)
    requires !Raw(q, lp)
    ensures RunBytes(q, q, lp, lp)
  {
  }

  lemma {:induction false} RunBytesStep(q: seq<byte>, t: seq<byte>, s: seq<byte>, lp: nat, end: nat)
    requires lp % 2 == 0 && lp + 4 <= |q| == |t| && q[lp] == 0xFF && t[lp] != 0xFF
    requires forall i :: 0 <= i < |q| && i % 2 == 0 && i != lp ==> t[i] == q[i]
    requires RunBytes(t, s, lp + 4, end)
    ensures RunBytes(q, s, lp, end)
  {
    NotBefore(lp, end);
    RunEven(lp, end);
    hide Raw, InRun;
    forall i: nat ensures InRun(i, lp, end) <==> i == lp || InRun(i, lp + 4, end) {
      InRunStep(i, lp, end);
    }
  }

  lemma {:induction false} NotBefore(lp: nat, end: nat)
    ensures !InRun(lp, lp + 4, end)
  {
  }

  lemma {:induction false} RunEven(lp: nat, end: nat)
    requires lp % 2 == 0
    ensures forall i: nat :: InRun(i, lp + 4, end) ==> i % 2 == 0
  {
  }

  /** The next raw entry a walk of the image comes to from `x`. */
  function Following(r: seq<byte>, x: nat): (y: Option<nat>)
    ensures y.Some? ==> y.value >= x && Raw(r, y.value)
    decreases |r| - x
  {
    if Raw(r, x) then Some(x)
    else
      var l := SkipZeros(r, x);
      if TableAt(r, l) then Following(r, l + 4) else None
  }

  /** The walk of the image from `lp` comes to the raw entry at `i`. */
  predicate Reaches(r: seq<byte>, lp: nat, i: nat)
    decreases |r| - lp
  {
    var y := Following(r, lp);
    y.Some? && (y.value == i || Reaches(r, y.value + 4, i))
  }

  /** Some table of the image lists an entry at `i`. */
  ghost predicate Listed(r: seq<byte>, i: nat) {
    exists off :: 0 <= off && off % 2 == 0 && off + 20 <= |r| && HeaderAt(r, off) && Reaches(r, off + 16, i)
  }

  lemma {:induction false} FollowingEven(r: seq<byte>, x: nat)
    requires x % 2 == 0
    ensures Following(r, x).Some? ==> Following(r, x).value % 2 == 0
    decreases |r| - x
  {
    if !Raw(r, x) {
      SkipEven(r, x);
      if TableAt(r, SkipZeros(r, x)) {
        FollowingEven(r, SkipZeros(r, x) + 4);
      }
    }
  }

  lemma {:induction false} FollowStep(r: seq<byte>, x: nat)
    ensures Raw(r, x) ==> Following(r, x) == Some(x)
    ensures !Raw(r, x) ==>
      Following(r, x) == if TableAt(r, SkipZeros(r, x)) then Following(r, SkipZeros(r, x) + 4) else None
  {
  }

  predicate Changed(r: seq<byte>, q: seq<byte>, i: nat) { i < |r| && i < |q| && q[i] != r[i] }

  /** Once changed, never changed back. */
  lemma {:induction false} ChangeStays(r: seq<byte>, q: seq<byte>, s: seq<byte>, i: nat, base: u32)
    requires SafeBase(base) && Settles(r, q, base) && Settles(q, s, base) && i % 2 == 0 && i + 1 < |r|
    requires Changed(r, q, i)
    ensures Changed(r, s, i)
  {
    hide SafeBase, NewHi, NewLo, Settles;
    FirstBytes(r, q, i, base);
    SettlesLength(q, s, base);
    FirstBytes(q, s, i, base);
  }

  /** An entry still raw was raw from the start. */
  lemma {:induction false} RawBefore(r: seq<byte>, q: seq<byte>, i: nat, base: u32)
    requires SafeBase(base) && Settles(r, q, base) && i % 2 == 0 && i + 4 <= |q| && q[i] == 0xFF
    ensures Raw(r, i)
  {
    hide SafeBase, NewHi, NewLo, Settles, Raw;
    SettlesLength(r, q, base);
    RawByte(r, i);
    FirstBytes(r, q, i, base);
  }

  /** Every changed entry is followed by a changed one, or by the one the walk
      now under way is still to come to from `pending`. */
  ghost predicate Closed(r: seq<byte>, q: seq<byte>, pending: Option<nat>) {
    forall i :: 0 <= i && i % 2 == 0 && Changed(r, q, i) && Following(r, i + 4).Some? ==>
      Changed(r, q, Following(r, i + 4).value)
      || (pending.Some? && Following(r, pending.value) == Following(r, i + 4))
  }

  /** Where the run of a walk leaves it, seen from the image the pass started
      from: at a change made before, where it ends, or at the same marks. */
  lemma {:induction false} AfterRun(r: seq<byte>, q: seq<byte>, lp: nat, base: u32)
    requires SafeBase(base) && lp % 2 == 0 && Settles(r, q, base)
    ensures var q1, end := RebaseRun(q, lp, base), RunEnd(q, lp, base);
      var l := SkipZeros(q1, end);
      && Settles(r, q1, base) && Settles(q, q1, base) && RunBytes(q, q1, lp, end)
      && end % 2 == 0 && l % 2 == 0 && l >= end
      && (Raw(r, end) ==> Changed(r, q, end) && !TableAt(q1, l))
      && (!Raw(r, end) ==> l == SkipZeros(r, end) && (TableAt(q1, l) <==> TableAt(r, l)))
  {
    hide SafeBase, Settles, RebaseRun, RunEnd, SkipZeros, InRun, Raw, ZeroAt, TableAt;
    var q1, end := RebaseRun(q, lp, base), RunEnd(q, lp, base);
    RunSettles(q, lp, base);
    SettlesTrans(r, q, q1, base);
    RunExtent(q, lp, base);
    SkipEven(q1, end);
    SettlesLength(r, q, base);
    if Raw(r, end) {
      StoppedAt(r, q, q1, lp, end, base);
    } else {
      SkipSame(r, q1, end, base);
      SameMarks(r, q1, SkipZeros(q1, end), base);
    }
  }

  lemma {:induction false} StoppedAt(r: seq<byte>, q: seq<byte>, q1: seq<byte>, lp: nat, end: nat, base: u32)
    requires SafeBase(base) && Settles(r, q, base) && Settles(r, q1, base) && RunBytes(q, q1, lp, end)
    requires lp % 2 == 0 && end % 2 == 0 && Raw(r, end)
    ensures Changed(r, q, end) && !TableAt(q1, SkipZeros(q1, end))
  {
    hide SafeBase, Settles, NewHi, NewLo;
    RawByte(r, end);
    SettlesLength(r, q, base);
    RawByte(q1, end);
    SameMarks(r, q1, end, base);
    assert !InRun(end, lp, end);
  }

  /** The run of a walk settles what was pending, but for what follows its end. */
  lemma {:induction false} RunCloses(r: seq<byte>, q: seq<byte>, lp: nat, base: u32)
    requires SafeBase(base) && lp % 2 == 0 && Settles(r, q, base) && Closed(r, q, Some(lp))
    ensures var q1, end := RebaseRun(q, lp, base), RunEnd(q, lp, base);
      var l := SkipZeros(q1, end);
      Closed(r, q1, if TableAt(q1, l) then Some(l + 4) else None)
  {
    hide SafeBase, Settles, RebaseRun, RunEnd, SkipZeros, InRun, Raw, TableAt, Following, Changed, RunBytes;
    var q1, end := RebaseRun(q, lp, base), RunEnd(q, lp, base);
    var l := SkipZeros(q1, end);
    AfterRun(r, q, lp, base);
    forall i | 0 <= i && i % 2 == 0 && Changed(r, q1, i) && Following(r, i + 4).Some?
      ensures Changed(r, q1, Following(r, i + 4).value)
              || (TableAt(q1, l) && Following(r, l + 4) == Following(r, i + 4))
    {
      if InRun(i, lp, end) {
        RunNext(q, q1, i, lp, end);
        if i + 4 == end {
          EndFollows(r, q, lp, base);
        } else {
          RunChanged(r, q, q1, i + 4, lp, end, base);
          FollowStep(r, i + 4);
        }
      } else {
        NotInRun(r, q, q1, i, lp, end);
        FollowingEven(r, i + 4);
        if Changed(r, q, Following(r, i + 4).value) {
          ChangedRoom(r, i + 4);
          ChangeStays(r, q, q1, Following(r, i + 4).value, base);
        } else {
          StartFollows(r, q, lp, base);
        }
      }
    }
  }

  lemma {:induction false} ChangedRoom(r: seq<byte>, x: nat)
    requires Following(r, x).Some?
    ensures Following(r, x).value + 4 <= |r|
  {
  }

  lemma {:induction false} RunNext(q: seq<byte>, q1: seq<byte>, i: nat, lp: nat, end: nat)
    requires RunBytes(q, q1, lp, end) && InRun(i, lp, end)
    ensures i + 4 == end || InRun(i + 4, lp, end)
  {
    InRunNext(i, lp, end);
  }

  lemma {:induction false} NotInRun(r: seq<byte>, q: seq<byte>, q1: seq<byte>, i: nat, lp: nat, end: nat)
    requires RunBytes(q, q1, lp, end) && !InRun(i, lp, end) && i % 2 == 0 && Changed(r, q1, i)
    ensures Changed(r, q, i)
  {
    hide InRun, Raw;
  }

  /** Entries of the run were raw from the start and are changed by it. */
  lemma {:induction false} RunChanged(r: seq<byte>, q: seq<byte>, q1: seq<byte>, i: nat, lp: nat, end: nat, base: u32)
    requires SafeBase(base) && Settles(r, q, base) && RunBytes(q, q1, lp, end) && InRun(i, lp, end) && lp % 2 == 0
    ensures i % 2 == 0 && Raw(r, i) && Changed(r, q1, i)
  {
    hide SafeBase, Settles, Raw;
    SettlesLength(r, q, base);
    RawBefore(r, q, i, base);
    RawByte(r, i);
  }

  /** What follows the end of the run is changed, or pending behind the mark. */
  lemma {:induction false} EndFollows(r: seq<byte>, q: seq<byte>, lp: nat, base: u32)
    requires SafeBase(base) && lp % 2 == 0 && Settles(r, q, base)
    ensures var q1, end := RebaseRun(q, lp, base), RunEnd(q, lp, base);
      var l := SkipZeros(q1, end);
      && (Following(r, end).Some? && !Changed(r, q1, Following(r, end).value) ==>
            TableAt(q1, l) && Following(r, l + 4) == Following(r, end))
      && (TableAt(q1, l) ==> Following(r, end) == Following(r, l + 4))
  {
    hide SafeBase, Settles, RebaseRun, RunEnd, SkipZeros, InRun, Raw, TableAt, Following, Changed, RunBytes;
    AfterRun(r, q, lp, base);
    var q1, end := RebaseRun(q, lp, base), RunEnd(q, lp, base);
    FollowStep(r, end);
    if Raw(r, end) {
      ChangedRoom(r, end);
      ChangeStays(r, q, q1, end, base);
    }
  }

  /** And so is what follows its start. */
  lemma {:induction false} StartFollows(r: seq<byte>, q: seq<byte>, lp: nat, base: u32)
    requires SafeBase(base) && lp % 2 == 0 && Settles(r, q, base)
    ensures var q1, end := RebaseRun(q, lp, base), RunEnd(q, lp, base);
      var l := SkipZeros(q1, end);
      Following(r, lp).Some? && !Changed(r, q1, Following(r, lp).value) ==>
        TableAt(q1, l) && Following(r, l + 4) == Following(r, lp)
  {
    hide SafeBase, Settles, SkipZeros, Raw, TableAt, Following, Changed, RebaseRun, RunEnd;
    var q1, end := RebaseRun(q, lp, base), RunEnd(q, lp, base);
    AfterRun(r, q, lp, base);
    EndFollows(r, q, lp, base);
    if lp < end {
      RunChanged(r, q, q1, lp, lp, end, base);
      FollowStep(r, lp);
    }
  }

  /** After a walk nothing is pending, and the first entry it lists is changed. */
  lemma {:induction false} WalkCloses(r: seq<byte>, q: seq<byte>, lp: nat, base: u32)
    requires SafeBase(base) && lp % 2 == 0 && Settles(r, q, base) && Closed(r, q, Some(lp))
    ensures var s := Walk(q, lp, base);
      && Settles(r, s, base) && Closed(r, s, None)
      && (Following(r, lp).Some? ==> Changed(r, s, Following(r, lp).value))
    decreases |q| - lp
  {
    hide SafeBase, Settles, RebaseRun, RunEnd, SkipZeros, Raw, TableAt, Following, Changed, Closed, RunBytes, Walk;
    var q1 := RebaseRun(q, lp, base);
    var l := SkipZeros(q1, RunEnd(q, lp, base));
    AfterRun(r, q, lp, base);
    RunCloses(r, q, lp, base);
    StartFollows(r, q, lp, base);
    WalkStep(q, lp, base);
    if TableAt(q1, l) {
      WalkSettles(q1, l + 4, base);
      FollowingEven(r, lp);
      if Following(r, lp).Some? && Changed(r, q1, Following(r, lp).value) {
        ChangedRoom(r, lp);
        ChangeStays(r, q1, Walk(q1, l + 4, base), Following(r, lp).value, base);
      }
      WalkCloses(r, q1, l + 4, base);
    }
  }

  /** A walk changes only entries it comes to on the image the pass started from. */
  lemma {:induction false} WalkOnly(r: seq<byte>, q: seq<byte>, lp: nat, i: nat, base: u32)
    requires SafeBase(base) && lp % 2 == 0 && Settles(r, q, base) && i % 2 == 0
    requires Changed(q, Walk(q, lp, base), i)
    ensures Reaches(r, lp, i)
    decreases |q| - lp
  {
    hide SafeBase, Settles, RebaseRun, RunEnd, SkipZeros, Raw, TableAt, Following, Changed, Reaches, RunBytes, Walk, InRun;
    var q1, end := RebaseRun(q, lp, base), RunEnd(q, lp, base);
    var l := SkipZeros(q1, end);
    AfterRun(r, q, lp, base);
    WalkStep(q, lp, base);
    if InRun(i, lp, end) {
      RunReaches(r, q, q1, lp, end, i, base);
    } else {
      Untouched(q, q1, Walk(q, lp, base), i, lp, end);
      if TableAt(q1, l) {
        WalkOnly(r, q1, l + 4, i, base);
        EndFollows(r, q, lp, base);
        SameReach(r, end, l + 4, i);
      }
      RunReaches(r, q, q1, lp, end, i, base);
    }
  }

  lemma {:induction false} Untouched(q: seq<byte>, q1: seq<byte>, s: seq<byte>, i: nat, lp: nat, end: nat)
    requires RunBytes(q, q1, lp, end) && !InRun(i, lp, end) && i % 2 == 0 && Changed(q, s, i)
    ensures Changed(q1, s, i) && !Changed(q, q1, i)
  {
    hide InRun, Raw;
  }

  lemma {:induction false} SameReach(r: seq<byte>, x: nat, y: nat, i: nat)
    requires Following(r, x) == Following(r, y)
    ensures Reaches(r, x, i) <==> Reaches(r, y, i)
  {
    hide Following;
  }

  lemma {:induction false} RunReaches(r: seq<byte>, q: seq<byte>, q1: seq<byte>, lp: nat, end: nat, i: nat, base: u32)
    requires SafeBase(base) && Settles(r, q, base) && RunBytes(q, q1, lp, end) && lp % 2 == 0
    ensures InRun(i, lp, end) || Reaches(r, end, i) ==> Reaches(r, lp, i)
  {
    hide SafeBase, Settles, Raw, Following, Changed, Reaches;
    if lp < end {
      RunChanged(r, q, q1, lp, lp, end, base);
      ReachStep(r, lp, i);
      InRunStep(i, lp, end);
      ShorterRun(r, q, q1, lp, end, base);
      RunReachesFrom(r, lp + 4, end, i);
    }
  }

  /** Raw entries all the way from `lp` to `end`. */
  ghost predicate AllRaw(r: seq<byte>, lp: nat, end: nat) {
    lp <= end && (end - lp) % 4 == 0 && forall i: nat :: InRun(i, lp, end) ==> Raw(r, i)
  }

  lemma {:induction false} ShorterRun(r: seq<byte>, q: seq<byte>, q1: seq<byte>, lp: nat, end: nat, base: u32)
    requires SafeBase(base) && Settles(r, q, base) && RunBytes(q, q1, lp, end) && lp % 2 == 0 && lp < end
    ensures AllRaw(r, lp + 4, end)
  {
    hide SafeBase, Settles, Raw;
    forall i: nat | InRun(i, lp + 4, end) ensures Raw(r, i) {
      RunChanged(r, q, q1, i, lp, end, base);
    }
  }

  lemma {:induction false} RunReachesFrom(r: seq<byte>, lp: nat, end: nat, i: nat)
    requires AllRaw(r, lp, end)
    ensures InRun(i, lp, end) || Reaches(r, end, i) ==> Reaches(r, lp, i)
    decreases end - lp
  {
    if lp < end {
      assert InRun(lp, lp, end);
      ReachStep(r, lp, i);
      forall k: nat | InRun(k, lp + 4, end) ensures Raw(r, k) {
        assert InRun(k, lp, end);
      }
      RunReachesFrom(r, lp + 4, end, i);
      InRunStep(i, lp, end);
    }
    hide Raw, Reaches;
  }

  lemma {:induction false} ReachStep(r: seq<byte>, lp: nat, i: nat)
    requires Raw(r, lp)
    ensures Reaches(r, lp, i) <==> i == lp || Reaches(r, lp + 4, i)
  {
  }

  /** Where nothing is pending, all that a changed entry leads to is changed. */
  lemma {:induction false} ReachChanged(r: seq<byte>, s: seq<byte>, lp: nat, i: nat)
    requires lp % 2 == 0 && Closed(r, s, None) && Reaches(r, lp, i)
    requires Changed(r, s, Following(r, lp).value)
    ensures Changed(r, s, i) && i % 2 == 0
    decreases |r| - lp
  {
    hide Following, Raw;
    var y := Following(r, lp).value;
    FollowingEven(r, lp);
    if y != i {
      ReachChanged(r, s, y + 4, i);
    }
  }

  lemma {:induction false} PassStep(q: seq<byte>, from: nat, base: u32)
    requires from + 20 <= |q|
    ensures var w := if HeaderAt(q, from) then Walk(q, from + 16, base) else q;
      |w| == |q| && Pass(q, from, base) == Pass(w, from + 2, base)
  {
  }

  /** The pass changes every entry the table behind a header lists. */
  lemma {:induction false} PassDoes(r: seq<byte>, q: seq<byte>, from: nat, off: nat, i: nat, base: u32)
    requires SafeBase(base) && from % 2 == 0 && off % 2 == 0 && from <= off && off + 20 <= |r|
    requires Settles(r, q, base) && Closed(r, q, None) && HeaderAt(r, off) && Reaches(r, off + 16, i)
    ensures Settles(r, Pass(q, from, base), base) && Changed(r, Pass(q, from, base), i) && i % 2 == 0
    decreases off - from
  {
    hide SafeBase, HeaderAt, Walk, Pass, Settles, Closed, Changed, Reaches, Following;
    SettlesLength(r, q, base);
    PassStep(q, from, base);
    HeaderCloses(r, q, from, base);
    var w := if HeaderAt(q, from) then Walk(q, from + 16, base) else q;
    if from < off {
      PassDoes(r, w, from + 2, off, i, base);
    } else {
      SameHeader(r, q, off, base);
      ReachSome(r, off + 16, i);
      ReachChanged(r, w, off + 16, i);
      PassSettles(w, from + 2, base);
      SettlesTrans(r, w, Pass(w, from + 2, base), base);
      ReachRoom(r, off + 16, i);
      ChangeStays(r, w, Pass(w, from + 2, base), i, base);
    }
  }

  lemma {:induction false} ReachSome(r: seq<byte>, lp: nat, i: nat)
    requires Reaches(r, lp, i)
    ensures Following(r, lp).Some?
  {
  }

  lemma {:induction false} ReachRoom(r: seq<byte>, lp: nat, i: nat)
    requires Reaches(r, lp, i)
    ensures i + 4 <= |r|
    decreases |r| - lp
  {
    if Following(r, lp).value != i {
      ReachRoom(r, Following(r, lp).value + 4, i);
    }
  }

  /** One header's step keeps everything settled. */
  lemma {:induction false} HeaderCloses(r: seq<byte>, q: seq<byte>, from: nat, base: u32)
    requires SafeBase(base) && from % 2 == 0 && Settles(r, q, base) && Closed(r, q, None)
    ensures var w := if HeaderAt(q, from) then Walk(q, from + 16, base) else q;
      && Settles(r, w, base) && Closed(r, w, None)
      && (HeaderAt(q, from) && Following(r, from + 16).Some? ==> Changed(r, w, Following(r, from + 16).value))
  {
    hide SafeBase, HeaderAt, Walk, Settles, Changed, Following;
    assert Closed(r, q, Some(from + 16));
    hide Closed;
    WalkCloses(r, q, from + 16, base);
  }

  /** And no other. */
  lemma {:induction false} PassOnly(r: seq<byte>, q: seq<byte>, from: nat, i: nat, base: u32)
    requires SafeBase(base) && from % 2 == 0 && i % 2 == 0 && Settles(r, q, base)
    requires Changed(q, Pass(q, from, base), i)
    ensures Listed(r, i)
    decreases |q| - from
  {
    hide SafeBase, HeaderAt, Walk, Pass, Settles, Changed, Reaches;
    SettlesLength(r, q, base);
    if from + 20 > |q| {
      PassEnd(q, from, i, base);
    } else {
      PassStep(q, from, base);
      var w := if HeaderAt(q, from) then Walk(q, from + 16, base) else q;
      WalkSettles(q, from + 16, base);
      SettlesRefl(q, base);
      SettlesTrans(r, q, w, base);
      if Changed(w, Pass(w, from + 2, base), i) {
        PassOnly(r, w, from + 2, i, base);
      } else {
        OneOf(q, w, Pass(w, from + 2, base), i);
        SettlesRefl(q, base);
        SameHeader(r, q, from, base);
        SelfUnchanged(q, i);
        WalkOnly(r, q, from + 16, i, base);
      }
    }
  }

  lemma {:induction false} PassEnd(q: seq<byte>, from: nat, i: nat, base: u32)
    requires from + 20 > |q|
    ensures !Changed(q, Pass(q, from, base), i)
  {
  }

  lemma {:induction false} SelfUnchanged(q: seq<byte>, i: nat)
    ensures !Changed(q, q, i)
  {
  }

  lemma {:induction false} OneOf(q: seq<byte>, w: seq<byte>, s: seq<byte>, i: nat)
    requires Changed(q, s, i) && !Changed(w, s, i) && |w| == |q|
    ensures Changed(q, w, i)
  {
  }

  /** The whole pass at once: it rebases an even halfword exactly if the tables of
      the image it starts from list an entry there, whatever overlaps. */
  lemma {:induction false} PassExactly(r: seq<byte>, i: nat, base: u32)
    requires SafeBase(base) && i % 2 == 0 && i + 1 < |r|
    ensures var s := Pass(r, 0, base);
      if Listed(r, i) then EntryDone(r, s, i, base) else |s| == |r| && s[i] == r[i] && s[i + 1] == r[i + 1]
  {
    hide SafeBase, HeaderAt, Pass, Settles, Reaches, NewHi, NewLo;
    var s := Pass(r, 0, base);
    SettlesRefl(r, base);
    PassSettles(r, 0, base);
    SettlesLength(r, s, base);
    if Listed(r, i) {
      var off :| 0 <= off && off % 2 == 0 && off + 20 <= |r| && HeaderAt(r, off) && Reaches(r, off + 16, i);
      NothingChanged(r);
      PassDoes(r, r, 0, off, i, base);
      ChangedIsDone(r, s, i, base);
    } else {
      if Changed(r, s, i) {
        PassOnly(r, r, 0, i, base);
      }
      StaysPut(r, s, i, base);
    }
  }

  /** The odd byte at the end of an image stays as it is. */
  lemma {:induction false} PassKeepsLast(r: seq<byte>, base: u32)
    requires SafeBase(base) && |r| % 2 == 1
    ensures |Pass(r, 0, base)| == |r| && Pass(r, 0, base)[|r| - 1] == r[|r| - 1]
  {
    PassSettles(r, 0, base);
    hide Pass, SafeBase;
  }

  lemma {:induction false} NothingChanged(r: seq<byte>)
    ensures Closed(r, r, None)
  {
  }

  lemma {:induction false} StaysPut(r: seq<byte>, s: seq<byte>, i: nat, base: u32)
    requires Settles(r, s, base) && i % 2 == 0 && i + 1 < |r| && !Changed(r, s, i)
    ensures |s| == |r| && s[i] == r[i] && s[i + 1] == r[i + 1]
  {
    hide NewHi, NewLo;
    assert HalfStep(r, s, i, base);
  }

  /** In particular every entry of the run directly behind every header is rebased. */
  lemma {:induction false} EveryTableRebased(r: seq<byte>, off: nat, n: nat, k: nat, base: u32)
    requires SafeBase(base) && off % 2 == 0 && off + 20 <= |r| && k < n
    requires HeaderAt(r, off) && forall j :: 0 <= j < n ==> Raw(r, off + 16 + 4 * j)
    ensures EntryDone(r, Pass(r, 0, base), off + 16 + 4 * k, base)
  {
    hide SafeBase, HeaderAt, Pass, Reaches, EntryDone, Raw;
    RunListed(r, off + 16, n, k);
    assert Raw(r, off + 16 + 4 * k);
    RawRoom(r, off + 16 + 4 * k);
    assert Listed(r, off + 16 + 4 * k);
    PassExactly(r, off + 16 + 4 * k, base);
  }

  lemma {:induction false} RawRoom(r: seq<byte>, i: nat)
    requires Raw(r, i)
    ensures i + 4 <= |r|
  {
  }

  lemma {:induction false} RunListed(r: seq<byte>, lp: nat, n: nat, k: nat)
    requires k < n && forall j :: 0 <= j < n ==> Raw(r, lp + 4 * j)
    ensures Reaches(r, lp, lp + 4 * k)
    decreases n
  {
    hide Raw, Reaches;
    assert Raw(r, lp + 4 * 0);
    ReachStep(r, lp, lp + 4 * k);
    if k > 0 {
      forall j | 0 <= j < n - 1 ensures Raw(r, lp + 4 + 4 * j) {
        assert Raw(r, lp + 4 * (j + 1));
      }
      RunListed(r, lp + 4, n - 1, k - 1);
    }
  }
}
