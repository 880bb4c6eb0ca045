/** The table of extents-overflow records of the data forks. */
module HfsOverflow {
  import opened Bytes

  const MAX_OVF: nat := 512

  datatype Extent = Extent(block: u32, count: u32)
  datatype Ovf = Ovf(flNum: u32, fabn: u32, exts: seq<Extent>)
  /** A leaf record of the extents-overflow tree. */
  datatype LeafRecord = LeafRecord(forkType: byte, ovf: Ovf)

  function Compare(a: Ovf, b: Ovf): int {
    if a.flNum != b.flNum then if a.flNum < b.flNum then -1 else 1
    else if a.fabn != b.fabn then if a.fabn < b.fabn then -1 else 1
    else 0
  }

  predicate Sorted(s: seq<Ovf>) {
    forall i, j :: 0 <= i < j < |s| ==> Compare(s[i], s[j]) <= 0
  }

  /** `x` put behind the records of `s` that do not follow it. */
  function InsertInto(s: seq<Ovf>, x: Ovf): seq<Ovf> {
    if s == [] || Compare(s[|s| - 1], x) <= 0 then s + [x]
    else InsertInto(s[..|s| - 1], x) + [s[|s| - 1]]
  }

  function SortOf(s: seq<Ovf>): (r: seq<Ovf>)
    ensures |r| == |s|
  {
    if s == [] then []
    else
      InsertLength(SortOf(s[..|s| - 1]), s[|s| - 1]);
      InsertInto(SortOf(s[..|s| - 1]), s[|s| - 1])
  }

  lemma {:induction false} InsertLength(s: seq<Ovf>, x: Ovf)
    ensures |InsertInto(s, x)| == |s| + 1
  {
    if s != [] && Compare(s[|s| - 1], x) > 0 {
      InsertLength(s[..|s| - 1], x);
    }
  }

  lemma {:induction false} InsertCounts(s: seq<Ovf>, x: Ovf)
    ensures multiset(InsertInto(s, x)) == multiset(s) + multiset{x}
  {
    if s != [] && Compare(s[|s| - 1], x) > 0 {
      InsertCounts(s[..|s| - 1], x);
      assert s == s[..|s| - 1] + [s[|s| - 1]];
    }
  }

  lemma {:induction false} InsertMembers(s: seq<Ovf>, x: Ovf, y: Ovf)
    ensures y in InsertInto(s, x) ==> y in s || y == x
  {
    if s != [] && Compare(s[|s| - 1], x) > 0 {
      InsertMembers(s[..|s| - 1], x, y);
    }
  }

  lemma {:induction false} InsertSorted(s: seq<Ovf>, x: Ovf)
    requires Sorted(s)
    ensures Sorted(InsertInto(s, x))
  {
    if s != [] && Compare(s[|s| - 1], x) > 0 {
      var t, last := s[..|s| - 1], s[|s| - 1];
      InsertSorted(t, x);
      var r := InsertInto(t, x);
      forall i | 0 <= i < |r| ensures Compare(r[i], last) <= 0 {
        InsertMembers(t, x, r[i]);
        if r[i] != x {
          var k :| 0 <= k < |t| && t[k] == r[i];
          assert s[k] == r[i];
        }
      }
      SortedSnoc(r, last);
    } else {
      forall i | 0 <= i < |s| ensures Compare(s[i], x) <= 0 {
        if i < |s| - 1 {
          assert Compare(s[i], s[|s| - 1]) <= 0;
        }
      }
      SortedSnoc(s, x);
    }
  }

  lemma {:induction false} SortedSnoc(s: seq<Ovf>, x: Ovf)
    requires Sorted(s) && forall i :: 0 <= i < |s| ==> Compare(s[i], x) <= 0
    ensures Sorted(s + [x])
  {
    hide Compare;
  }

  /** The sort orders the table by file and first block, and loses no record. */
  lemma {:induction false} SortIsPermutation(s: seq<Ovf>)
    ensures Sorted(SortOf(s)) && multiset(SortOf(s)) == multiset(s)
  {
    if s != [] {
      SortIsPermutation(s[..|s| - 1]);
      InsertSorted(SortOf(s[..|s| - 1]), s[|s| - 1]);
      InsertCounts(SortOf(s[..|s| - 1]), s[|s| - 1]);
      assert s == s[..|s| - 1] + [s[|s| - 1]];
    }
  }

  class OverflowTable {
    const ovf: array<Ovf>
    var count: nat

    constructor ()
      ensures Valid() && count == 0 && fresh(ovf)
    {
      ovf := new Ovf[MAX_OVF](_ => Ovf(0, 0, []));
      count := 0;
    }

    ghost predicate Valid()
      reads this
    {
      ovf.Length == MAX_OVF && count <= MAX_OVF
    }

    ghost function Records(): seq<Ovf>
      requires Valid()
      reads this, ovf
    {
      ovf[..count]
    }

    /** Insertion sort by shifting. */
    method HfsOvfSort()
      requires Valid()
      modifies ovf
      ensures Records() == SortOf(old(Records()))
      ensures ovf[count..] == old(ovf[count..])
    {
      ghost var was := ovf[..];
      if count > 0 {
        SortOne(ovf[0]);
        assert ovf[..1] == [ovf[0]];
      }
      var i := 1;
      while i < count
        invariant count > 0 ==> 1 <= i <= count
        invariant count > 0 ==> ovf[..i] == SortOf(was[..i])
        invariant forall k :: i <= k < MAX_OVF ==> ovf[k] == was[k]
        invariant count == 0 ==> ovf[..] == was
      {
        SortNext(was, i);
        InsertLast(i);
        i := i + 1;
      }
      assert count == 0 ==> ovf[..0] == [] && was[..0] == [];
      assert ovf[count..] == was[count..];
    }

    /** Shift the records that follow ovf[i] and drop it into the gap. */
    method InsertLast(i: nat)
      requires Valid() && 0 < i < count
      modifies ovf
      ensures ovf[..i + 1] == InsertInto(old(ovf[..i]), old(ovf[i]))
      ensures forall k :: i < k < MAX_OVF ==> ovf[k] == old(ovf[k])
    {
      hide InsertInto, Compare, Gap;
      var tmp := ovf[i];
      ghost var s := ovf[..i];
      var j := i;
      InsertWhole(s, tmp);
      while j > 0 && Compare(ovf[j - 1], tmp) > 0
        invariant 0 <= j <= i
        invariant forall k :: 0 <= k < j ==> ovf[k] == s[k]
        invariant forall k :: j < k <= i ==> ovf[k] == s[k - 1]
        invariant forall k :: i < k < MAX_OVF ==> ovf[k] == old(ovf[k])
        invariant Gap(s, tmp, j)
      {
        InsertShift(s, tmp, j);
        ovf[j] := ovf[j - 1];
        j := j - 1;
      }
      ovf[j] := tmp;
      InsertHere(s, tmp, j, ovf[..i + 1]);
    }

    /** Keep the data-fork records, as far as the table has room. */
    method Build(leaves: seq<LeafRecord>)
      requires Valid()
      modifies this`count, ovf
      ensures Valid() && Records() == SortOf(FirstData(leaves))
    {
      count := 0;
      assert leaves[..0] == [];
      for r := 0 to |leaves|
        invariant Valid() && Records() == FirstData(leaves[..r])
      {
        assert leaves[..r + 1][..r] == leaves[..r];
        if leaves[r].forkType == 0 && count < MAX_OVF {
          ovf[count] := leaves[r].ovf;
          count := count + 1;
        }
      }
      assert leaves[..|leaves|] == leaves;
      HfsOvfSort();
    }
  }

  /** The data-fork records met before the table is full. */
  function FirstData(leaves: seq<LeafRecord>): seq<Ovf> {
    if leaves == [] then []
    else
      var before, last := FirstData(leaves[..|leaves| - 1]), leaves[|leaves| - 1];
      if last.forkType == 0 && |before| < MAX_OVF then before + [last.ovf] else before
  }

  /** All data-fork records, in the order they are met. */
  function DataRecords(leaves: seq<LeafRecord>): seq<Ovf> {
    if leaves == [] then []
    else
      var before, last := DataRecords(leaves[..|leaves| - 1]), leaves[|leaves| - 1];
      if last.forkType == 0 then before + [last.ovf] else before
  }

  lemma {:induction false} FirstIsAll(leaves: seq<LeafRecord>)
    requires |DataRecords(leaves)| <= MAX_OVF
    ensures FirstData(leaves) == DataRecords(leaves)
  {
    if leaves != [] {
      FirstIsAll(leaves[..|leaves| - 1]);
    }
  }

  /** The table is filled with the first 512 of them. */
  lemma {:induction false} FirstAreFirst(leaves: seq<LeafRecord>)
    ensures FirstData(leaves) == if |DataRecords(leaves)| <= 512 then DataRecords(leaves) else DataRecords(leaves)[..512]
  {
    if leaves != [] {
      FirstAreFirst(leaves[..|leaves| - 1]);
    }
  }

  /** They are the records of fork type 0. */
  lemma {:induction false} DataMeans(leaves: seq<LeafRecord>, x: Ovf)
    ensures x in DataRecords(leaves) <==> exists i :: 0 <= i < |leaves| && leaves[i].forkType == 0 && leaves[i].ovf == x
  {
    if leaves != [] {
      var pre := leaves[..|leaves| - 1];
      DataMeans(pre, x);
      if x in DataRecords(pre) {
        var i :| 0 <= i < |pre| && pre[i].forkType == 0 && pre[i].ovf == x;
        assert leaves[i] == pre[i];
      }
      if exists i :: 0 <= i < |leaves| && leaves[i].forkType == 0 && leaves[i].ovf == x {
        var i :| 0 <= i < |leaves| && leaves[i].forkType == 0 && leaves[i].ovf == x;
        if i < |pre| {
          assert pre[i] == leaves[i];
        }
      }
    }
  }

  /** Sorted by file, and within a file by first block. */
  lemma {:induction false} SortedMeans(s: seq<Ovf>, i: nat, j: nat)
    requires Sorted(s) && i < j < |s|
    ensures s[i].flNum < s[j].flNum || (s[i].flNum == s[j].flNum && s[i].fabn <= s[j].fabn)
  {
    assert Compare(s[i], s[j]) <= 0;
  }

  /** Keys are distinct if file and first block are. */
  lemma {:induction false} DistinctMeans(s: seq<Ovf>)
    ensures DistinctKeys(s) <==>
            forall i, j :: 0 <= i < j < |s| ==> s[i].flNum != s[j].flNum || s[i].fabn != s[j].fabn
  {
    assert forall i, j :: 0 <= i < j < |s| ==> (Compare(s[i], s[j]) == 0 <==> s[i].flNum == s[j].flNum && s[i].fabn == s[j].fabn);
    hide Compare;
  }

  lemma {:induction false} SortOne(x: Ovf)
    ensures SortOf([x]) == [x]
  {
    assert [x][..0] == [] && SortOf([]) == [];
    assert InsertInto([], x) == [] + [x];
  }

  lemma {:induction false} SortNext(was: seq<Ovf>, i: nat)
    requires i < |was|
    ensures SortOf(was[..i + 1]) == InsertInto(SortOf(was[..i]), was[i])
  {
    assert was[..i + 1][..i] == was[..i];
  }

  /** What is left to do once the records from `j` on have been shifted. */
  ghost predicate Gap(s: seq<Ovf>, x: Ovf, j: nat)
    requires j <= |s|
  {
    InsertInto(s, x) == InsertInto(s[..j], x) + s[j..]
  }

  lemma {:induction false} InsertWhole(s: seq<Ovf>, x: Ovf)
    ensures Gap(s, x, |s|)
  {
    assert s[..|s|] == s && s[|s|..] == [];
    assert InsertInto(s, x) + [] == InsertInto(s, x);
  }

  lemma {:induction false} InsertShift(s: seq<Ovf>, x: Ovf, j: nat)
    requires 0 < j <= |s| && Compare(s[j - 1], x) > 0 && Gap(s, x, j)
    ensures Gap(s, x, j - 1)
  {
    assert s[..j][..j - 1] == s[..j - 1];
    assert s[j - 1..] == [s[j - 1]] + s[j..];
  }

  lemma {:induction false} InsertHere(s: seq<Ovf>, x: Ovf, j: nat, r: seq<Ovf>)
    requires j <= |s| && (j == 0 || Compare(s[j - 1], x) <= 0) && Gap(s, x, j)
    requires |r| == |s| + 1 && r[j] == x
    requires forall k :: 0 <= k < j ==> r[k] == s[k]
    requires forall k :: j < k <= |s| ==> r[k] == s[k - 1]
    ensures r == InsertInto(s, x)
  {
    assert InsertInto(s[..j], x) == s[..j] + [x];
    assert r == s[..j] + [x] + s[j..];
  }

  /** The records of one file, in table order. */
  function RecordsOf(s: seq<Ovf>, id: u32): seq<Ovf> {
    if s == [] then []
    else if s[0].flNum == id then [s[0]] + RecordsOf(s[1..], id)
    else RecordsOf(s[1..], id)
  }

  predicate DistinctKeys(s: seq<Ovf>) {
    forall i, j :: 0 <= i < j < |s| ==> Compare(s[i], s[j]) != 0
  }

  lemma {:induction false} InsertDistinct(s: seq<Ovf>, x: Ovf)
    requires DistinctKeys(s) && forall i :: 0 <= i < |s| ==> Compare(s[i], x) != 0
    ensures DistinctKeys(InsertInto(s, x))
  {
    if s != [] && Compare(s[|s| - 1], x) > 0 {
      var t, last := s[..|s| - 1], s[|s| - 1];
      InsertDistinct(t, x);
      var r := InsertInto(t, x);
      forall i | 0 <= i < |r| ensures Compare(r[i], last) != 0 {
        InsertMembers(t, x, r[i]);
        if r[i] == x {
          Opposite(x, last);
        } else {
          var k :| 0 <= k < |t| && t[k] == r[i];
          assert s[k] == r[i];
        }
      }
    }
  }

  lemma {:induction false} Opposite(a: Ovf, b: Ovf)
    ensures Compare(a, b) == -Compare(b, a)
  {
  }

  lemma {:induction false} SortDistinct(s: seq<Ovf>)
    requires DistinctKeys(s)
    ensures DistinctKeys(SortOf(s))
  {
    if s != [] {
      var t, last := s[..|s| - 1], s[|s| - 1];
      SortDistinct(t);
      SortIsPermutation(t);
      var r := SortOf(t);
      forall i | 0 <= i < |r| ensures Compare(r[i], last) != 0 {
        assert r[i] in multiset(t);
        var k :| 0 <= k < |t| && t[k] == r[i];
        assert s[k] == r[i];
      }
      InsertDistinct(r, last);
    }
  }

  predicate Ascending(s: seq<Ovf>) {
    forall i, j :: 0 <= i < j < |s| ==> s[i].fabn < s[j].fabn
  }

  lemma {:induction false} RecordsCount(s: seq<Ovf>, id: u32, x: Ovf)
    ensures multiset(RecordsOf(s, id))[x] == if x.flNum == id then multiset(s)[x] else 0
  {
    if s != [] {
      RecordsCount(s[1..], id, x);
      assert s == [s[0]] + s[1..];
    }
  }

  lemma {:induction false} RecordsIn(s: seq<Ovf>, id: u32, x: Ovf)
    ensures x in RecordsOf(s, id) <==> x in s && x.flNum == id
  {
    if s != [] {
      RecordsIn(s[1..], id, x);
    }
  }

  lemma {:induction false} RecordsAscend(s: seq<Ovf>, id: u32)
    requires Sorted(s) && DistinctKeys(s)
    ensures Ascending(RecordsOf(s, id))
  {
    if s != [] {
      RecordsAscend(s[1..], id);
      if s[0].flNum == id {
        var r := RecordsOf(s[1..], id);
        forall i | 0 <= i < |r| ensures s[0].fabn < r[i].fabn {
          RecordsIn(s[1..], id, r[i]);
          var j :| 0 <= j < |s[1..]| && s[1..][j] == r[i];
          assert s[1 + j] == r[i] && Compare(s[0], s[1 + j]) <= 0 && Compare(s[0], s[1 + j]) != 0;
        }
      }
    }
  }

  lemma {:induction false} AscendingUnique(a: seq<Ovf>, b: seq<Ovf>)
    requires Ascending(a) && Ascending(b) && multiset(a) == multiset(b)
    ensures a == b
  {
    SameSize(a, b);
    if a != [] {
      FirstSame(a, b);
      TailCounts(a);
      TailCounts(b);
      AscendingUnique(a[1..], b[1..]);
      assert a == [a[0]] + a[1..] && b == [b[0]] + b[1..];
    }
  }

  lemma {:induction false} SameSize(a: seq<Ovf>, b: seq<Ovf>)
    requires multiset(a) == multiset(b)
    ensures |a| == |b|
  {
    assert |multiset(a)| == |a| && |multiset(b)| == |b|;
  }

  lemma {:induction false} FirstSame(a: seq<Ovf>, b: seq<Ovf>)
    requires Ascending(a) && Ascending(b) && multiset(a) == multiset(b) && a != [] && b != []
    ensures a[0] == b[0]
  {
    assert a[0] in multiset(b) && b[0] in multiset(a);
    FirstLeast(a, b[0]);
    FirstLeast(b, a[0]);
  }

  lemma {:induction false} FirstLeast(a: seq<Ovf>, x: Ovf)
    requires Ascending(a) && x in a
    ensures a[0].fabn <= x.fabn && (a[0].fabn == x.fabn ==> a[0] == x)
  {
    var i :| 0 <= i < |a| && a[i] == x;
    if i > 0 {
      assert a[0].fabn < a[i].fabn;
    }
  }

  lemma {:induction false} TailCounts(a: seq<Ovf>)
    requires a != []
    ensures multiset(a[1..]) == multiset(a) - multiset{a[0]}
  {
    assert a == [a[0]] + a[1..];
  }

  /** Sorting the whole table and picking one file gives the per-file list the
      reference sorts on its own, in whatever order the records came. */
  lemma {:induction false} FileRecords(table: seq<Ovf>, id: u32, r: seq<Ovf>)
    requires DistinctKeys(table)
    requires Ascending(r) && multiset(r) == multiset(RecordsOf(table, id))
    ensures RecordsOf(SortOf(table), id) == r
  {
    SortIsPermutation(table);
    SortDistinct(table);
    RecordsAscend(SortOf(table), id);
    forall x: Ovf ensures multiset(RecordsOf(SortOf(table), id))[x] == multiset(r)[x] {
      RecordsCount(SortOf(table), id, x);
      RecordsCount(table, id, x);
    }
    AscendingUnique(RecordsOf(SortOf(table), id), r);
  }
}
