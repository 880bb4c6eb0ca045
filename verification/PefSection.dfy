/** Relocating one section of a fragment from its relocation headers. */
module PefSection {
  import opened Bytes
  import opened PefCode
  import opened PefTrace
  import opened PefExec
  import opened PefAlgebra

  /** Where the loader tables of a container sit in its file. */
  datatype Tables = Tables(file: seq<byte>, hdrBase: nat, relocBase: nat, count: nat) {
    ghost predicate Valid() {
      && hdrBase + 12 * count <= |file|
      && forall h :: 0 <= h < count ==> StreamOk(h)
    }

    ghost predicate StreamOk(h: nat)
      requires hdrBase + 12 * count <= |file| && h < count
    {
      relocBase + First(h) + 2 * Words(h) <= |file|
    }

    function Index(h: nat): u16
      requires hdrBase + 12 * count <= |file| && h < count
    {
      Rd16(file, hdrBase + 12 * h)
    }

    function Words(h: nat): u32
      requires hdrBase + 12 * count <= |file| && h < count
    {
      Rd32(file, hdrBase + 12 * h + 4)
    }

    function First(h: nat): u32
      requires hdrBase + 12 * count <= |file| && h < count
    {
      Rd32(file, hdrBase + 12 * h + 8)
    }

    function Stream(h: nat): (cs: ChunkStream)
      requires Valid() && h < count
      ensures cs.Valid()
    {
      assert StreamOk(h);
      ChunkStream(file[relocBase + First(h)..], Words(h))
    }

    /** The unrolled streams of the first `n` headers that name section `s`. */
    ghost function Programs(s: u16, n: nat): seq<seq<Prim>>
      requires Valid() && n <= count
    {
      if n == 0 then []
      else if Index(n - 1) == s then Programs(s, n - 1) + [Unroll(Stream(n - 1), 0, Words(n - 1))]
      else Programs(s, n - 1)
    }
  }

  /** The fields of a relocation header by their place in the file: section index,
      number of instruction words, offset of the first; and the words themselves. */
  lemma {:induction false} HeaderBytes(t: Tables, h: nat, i: nat)
    requires t.Valid() && h < t.count
    ensures var f, b := t.file, t.hdrBase + 12 * h;
      && t.Index(h) == Word(0, 0, f[b], f[b + 1])
      && t.Words(h) == Word(f[b + 4], f[b + 5], f[b + 6], f[b + 7])
      && t.First(h) == Word(f[b + 8], f[b + 9], f[b + 10], f[b + 11])
      && t.Stream(h).nchunks == t.Words(h)
      && (i < t.Words(h) ==>
            var at := t.relocBase + t.First(h) + 2 * i;
            at + 2 <= |f| && t.Stream(h).At(i) == Word(0, 0, f[at], f[at + 1]))
      && (i >= t.Words(h) ==> t.Stream(h).At(i) == 0)
  {
    assert t.StreamOk(h);
    hide Word;
  }

  datatype Result = Result(ok: bool, fixes: seq<Fixup>)

  /** Each program starts over at the default address; the first failure ends
      the section. */
  function SectionTrace(progs: seq<seq<Prim>>, d: u32, len: nat): Result {
    if progs == [] then Result(true, [])
    else
      var before := SectionTrace(progs[..|progs| - 1], d, len);
      if !before.ok then before
      else
        var t := Trace(progs[|progs| - 1], d, len, Cursor(d, 0));
        Result(t.ok, before.fixes + t.fixes)
  }

  lemma {:induction false} ProgramsPrefix(t: Tables, s: u16, d: u32, len: nat, i: nat, n: nat)
    requires t.Valid() && i <= n <= t.count
    ensures SectionTrace(t.Programs(s, i), d, len).fixes <= SectionTrace(t.Programs(s, n), d, len).fixes
    ensures !SectionTrace(t.Programs(s, i), d, len).ok ==>
              SectionTrace(t.Programs(s, n), d, len) == SectionTrace(t.Programs(s, i), d, len)
  {
    if i < n {
      ProgramsPrefix(t, s, d, len, i, n - 1);
      if t.Index(n - 1) == s {
        var p := t.Programs(s, n);
        assert p[..|p| - 1] == t.Programs(s, n - 1);
      }
    }
  }

  lemma {:induction false} SectionSnoc(progs: seq<seq<Prim>>, p: seq<Prim>, d: u32, len: nat)
    requires SectionTrace(progs, d, len).ok
    ensures var before, o := SectionTrace(progs, d, len), Trace(p, d, len, Cursor(d, 0));
      SectionTrace(progs + [p], d, len) == Result(o.ok, before.fixes + o.fixes)
  {
    assert (progs + [p])[..|progs|] == progs;
  }

  /** One more header of the section: its trace follows what was done before. */
  lemma {:induction false} NextProgram(t: Tables, s: u16, d: u32, env: Bases, was: seq<byte>, h: nat)
    requires t.Valid() && h < t.count && t.Index(h) == s
    requires SectionTrace(t.Programs(s, h), d, |was|).ok
    requires Resolves(env, SectionTrace(t.Programs(s, t.count), d, |was|).fixes)
    ensures var before := SectionTrace(t.Programs(s, h), d, |was|);
      var o := Trace(Unroll(t.Stream(h), 0, t.Words(h)), d, |was|, Cursor(d, 0));
      && Resolves(env, o.fixes)
      && SectionTrace(t.Programs(s, h + 1), d, |was|) == Result(o.ok, before.fixes + o.fixes)
      && Patch(env, was, before.fixes + o.fixes) == Patch(env, Patch(env, was, before.fixes), o.fixes)
  {
    hide Trace, Unroll, SectionTrace, Patch, Resolves, Tables.Programs;
    var before := SectionTrace(t.Programs(s, h), d, |was|);
    var o := Trace(Unroll(t.Stream(h), 0, t.Words(h)), d, |was|, Cursor(d, 0));
    NextResult(t, s, d, |was|, h);
    ProgramsPrefix(t, s, d, |was|, h + 1, t.count);
    PatchAppend(env, was, before.fixes, o.fixes);
    MiddleResolves(env, before.fixes, o.fixes, SectionTrace(t.Programs(s, t.count), d, |was|).fixes);
  }

  lemma {:induction false} NextResult(t: Tables, s: u16, d: u32, len: nat, h: nat)
    requires t.Valid() && h < t.count && t.Index(h) == s
    requires SectionTrace(t.Programs(s, h), d, len).ok
    ensures var before := SectionTrace(t.Programs(s, h), d, len);
      var o := Trace(Unroll(t.Stream(h), 0, t.Words(h)), d, len, Cursor(d, 0));
      SectionTrace(t.Programs(s, h + 1), d, len) == Result(o.ok, before.fixes + o.fixes)
  {
    hide SectionTrace, Trace, Unroll;
    var p := Unroll(t.Stream(h), 0, t.Words(h));
    assert t.Programs(s, h + 1) == t.Programs(s, h) + [p];
    SectionSnoc(t.Programs(s, h), p, d, len);
  }

  /** Apply every relocation header of section `s` to its image `buf`; a section
      that was not instantiated is refused. */
  method PefRelocateSection(t: Tables, s: u16, d: u32, env: Bases, instantiated: bool, buf: array<byte>)
    returns (ok: bool)
    requires t.Valid()
    requires Resolves(env, SectionTrace(t.Programs(s, t.count), d, buf.Length).fixes)
    modifies buf
    ensures !instantiated ==> !ok && buf[..] == old(buf[..])
    ensures var r := SectionTrace(t.Programs(s, t.count), d, buf.Length);
      instantiated ==> ok == r.ok && buf[..] == Patch(env, old(buf[..]), r.fixes)
  {
    hide Patch, Trace, Resolves, SectionTrace;
    if !instantiated {
      return false;
    }
    ghost var was := buf[..];
    NothingYet(t, s, d, env, was);
    var h := 0;
    while h < t.count
      invariant h <= t.count
      invariant SectionTrace(t.Programs(s, h), d, |was|).ok
      invariant buf[..] == Patch(env, was, SectionTrace(t.Programs(s, h), d, |was|).fixes)
    {
      if t.Index(h) == s {
        NextProgram(t, s, d, env, was, h);
        var reloc := new Relocator(t.Stream(h), d, env, buf);
        ok := reloc.Run(t.Words(h));
        if !ok {
          ProgramsPrefix(t, s, d, |was|, h + 1, t.count);
          return false;
        }
      }
      h := h + 1;
    }
    return true;
  }

  lemma {:induction false} NothingYet(t: Tables, s: u16, d: u32, env: Bases, buf: seq<byte>)
    requires t.Valid()
    ensures var r := SectionTrace(t.Programs(s, 0), d, |buf|);
      r.ok && Patch(env, buf, r.fixes) == buf
  {
  }

  /** Every program of the section moves by whole words. */
  predicate AlignedSection(progs: seq<seq<Prim>>) {
    forall i :: 0 <= i < |progs| ==> AlignedStream(progs[i])
  }

  lemma {:induction false} AlignedSectionFixes(progs: seq<seq<Prim>>, d: u32, len: nat)
    requires AlignedSection(progs)
    ensures AlignedFixes(SectionTrace(progs, d, len).fixes)
  {
    if progs != [] {
      AlignedSectionFixes(progs[..|progs| - 1], d, len);
      assert AlignedStream(progs[|progs| - 1]);
      AlignedTrace(progs[|progs| - 1], d, len, Cursor(d, 0));
    }
  }

  /** Moving a relocated section: relocating by A and then by B gives what one
      relocation by A + B gives. */
  lemma {:induction false} RelocationAdditive(progs: seq<seq<Prim>>, d: u32, a: Bases, b: Bases, buf: seq<byte>)
    requires AlignedSection(progs) && SameShape(a, b)
    ensures var fs := SectionTrace(progs, d, |buf|).fixes;
      Patch(b, Patch(a, buf, fs), fs) == Patch(Plus(a, b), buf, fs)
  {
    AlignedSectionFixes(progs, d, |buf|);
    AlignedApart(SectionTrace(progs, d, |buf|).fixes);
    PatchAdditive(a, b, buf, SectionTrace(progs, d, |buf|).fixes);
  }

  /** Relocating by the negated bases restores the section byte for byte. */
  lemma {:induction false} RelocationUndone(progs: seq<seq<Prim>>, d: u32, a: Bases, buf: seq<byte>)
    requires AlignedSection(progs)
    ensures var fs := SectionTrace(progs, d, |buf|).fixes;
      Patch(Negative(a), Patch(a, buf, fs), fs) == buf
  {
    AlignedSectionFixes(progs, d, |buf|);
    AlignedApart(SectionTrace(progs, d, |buf|).fixes);
    PatchUndone(a, buf, SectionTrace(progs, d, |buf|).fixes);
  }

  /** A section is never patched outside its image. */
  lemma {:induction false} SectionWithin(progs: seq<seq<Prim>>, d: u32, len: nat)
    ensures Within(SectionTrace(progs, d, len).fixes, len)
  {
    if progs != [] {
      SectionWithin(progs[..|progs| - 1], d, len);
      TraceWithin(progs[|progs| - 1], d, len, Cursor(d, 0));
    }
  }
}
