/** The patching half of the two-phase reference relocator, and the bytes the two
    relocators leave. */
module PefApply {
  import opened Bytes
  import opened PefCode
  import opened PefTrace
  import opened PefPatch
  import opened PefReference

  /** The patching loop of one event. */
  method ApplyRun(buf: array<byte>, env: Bases, k: Kind, off: nat, imp: nat, run: nat)
    requires Within(RunFixes(k, off, imp, run), buf.Length) && Resolves(env, RunFixes(k, off, imp, run))
    modifies buf
    ensures buf[..] == Patch(env, old(buf[..]), RunFixes(k, off, imp, run))
  {
    hide Patch, RunFixes, ItemFixes, Within, Resolves;
    ghost var was := buf[..];
    RunFixesStep(k, off, imp, 0, env, was);
    for i := 0 to run
      invariant buf[..] == Patch(env, was, RunFixes(k, off, imp, i))
    {
      RunFixesStep(k, off, imp, i, env, was);
      ItemResolves(env, k, off, imp, i, run);
      ItemWithin(k, off, imp, i, run, buf.Length);
      PatchItem(buf, env, k, off + Offset(k, i), imp + i, was, RunFixes(k, off, imp, i));
    }
  }

  /** The image and the bases of the selected code and data sections. */
  datatype Applied = Applied(buf: seq<byte>, c: u32, d: u32)

  function Get(m: map<nat, u32>, k: nat, default: u32): u32 { if k in m then m[k] else default }

  function Selected(imp: seq<u32>, s: Applied): Bases { Bases([s.c, s.d], imp) }

  /** The events carried out in order from `start`, the SetSect events changing
      what the later ones add. */
  function ApplyAll(es: seq<Event>, imp: seq<u32>, sec: map<nat, u32>, start: Applied): (r: Applied)
    ensures |r.buf| == |start.buf|
  {
    if es == [] then start
    else
      var s := ApplyAll(es[..|es| - 1], imp, sec, start);
      match es[|es| - 1]
      case SetSect(true, idx) => s.(c := Get(sec, idx, Get(sec, 0, start.c)))
      case SetSect(false, idx) => s.(d := Get(sec, idx, Get(sec, 1, start.d)))
      case e => s.(buf := Patch(Selected(imp, s), s.buf, EventFixes(e)))
  }

  lemma {:induction false} ApplySnoc(es: seq<Event>, e: Event, imp: seq<u32>, sec: map<nat, u32>, start: Applied)
    ensures var s := ApplyAll(es, imp, sec, start);
      ApplyAll(es + [e], imp, sec, start) ==
      match e
      case SetSect(true, idx) => s.(c := Get(sec, idx, Get(sec, 0, start.c)))
      case SetSect(false, idx) => s.(d := Get(sec, idx, Get(sec, 1, start.d)))
      case _ => s.(buf := Patch(Selected(imp, s), s.buf, EventFixes(e)))
  {
    assert (es + [e])[..|es|] == es;
  }

  /** Every import an event names has an address. */
  predicate ImportsOk(fs: seq<Fixup>, imp: seq<u32>) {
    forall i :: 0 <= i < |fs| && fs[i].base.Import? ==> fs[i].base.i < |imp|
  }

  /** The patching loop. */
  method ApplyRelocs(buf: array<byte>, codeBase: u32, dataBase: u32, sec: map<nat, u32>, imp: seq<u32>, events: seq<Event>)
    requires forall i :: 0 <= i < |events| ==>
               Within(EventFixes(events[i]), buf.Length) && ImportsOk(EventFixes(events[i]), imp)
    modifies buf
    ensures buf[..] == ApplyAll(events, imp, sec, Applied(old(buf[..]), codeBase, dataBase)).buf
  {
    hide ApplyAll, EventFixes, Within, ImportsOk, Patch;
    ghost var start := Applied(buf[..], codeBase, dataBase);
    NothingApplied(imp, sec, start);
    var c, d := codeBase, dataBase;
    for i := 0 to |events|
      invariant ApplyAll(events[..i], imp, sec, start) == Applied(buf[..], c, d)
    {
      var e := events[i];
      ApplySnoc(events[..i], e, imp, sec, start);
      assert events[..i] + [e] == events[..i + 1];
      match e {
        case SetSect(code, idx) =>
          if code {
            c := Get(sec, idx, Get(sec, 0, codeBase));
          } else {
            d := Get(sec, idx, Get(sec, 1, dataBase));
          }
        case _ => ApplyOne(buf, Bases([c, d], imp), e);
      }
    }
    assert events[..|events|] == events;
  }

  lemma {:induction false} NothingApplied(imp: seq<u32>, sec: map<nat, u32>, start: Applied)
    ensures ApplyAll([], imp, sec, start) == start
  {
  }

  /** One event that is no selection. */
  method ApplyOne(buf: array<byte>, env: Bases, e: Event)
    requires |env.sec| == 2 && Within(EventFixes(e), buf.Length) && ImportsOk(EventFixes(e), env.imp)
    modifies buf
    ensures buf[..] == Patch(env, old(buf[..]), EventFixes(e))
  {
    EventResolves(env, e);
    hide Patch, RunFixes, Within, Resolves, ImportsOk;
    NoEvents(env, buf[..]);
    match e {
      case SkipRun(off, count) => ApplyRun(buf, env, BySectD, off, 0, count);
      case RunEvent(sub, off, run) =>
        if sub <= 4 {
          ApplyRun(buf, env, RunKind(sub), off, 0, run);
        }
      case ImportEvent(off, run, start) => ApplyRun(buf, env, ImportRun, off, start, run);
      case ImportWord(off, idx) => ApplyRun(buf, env, ImportRun, off, idx, 1);
      case _ =>
    }
  }

  /** Events patch with the two selected sections and the imports only. */
  lemma {:induction false} RunBases(k: Kind, pos: nat, imp: nat, n: nat)
    ensures TwoSections(RunFixes(k, pos, imp, n))
  {
    if n > 0 {
      RunBases(k, pos, imp, n - 1);
    }
  }

  predicate TwoSections(fs: seq<Fixup>) {
    forall i :: 0 <= i < |fs| && fs[i].base.Section? ==> fs[i].base.i < 2
  }

  lemma {:induction false} EventBases(e: Event)
    ensures TwoSections(EventFixes(e))
  {
    hide RunFixes;
    match e {
      case SkipRun(off, count) => RunBases(BySectD, off, 0, count);
      case RunEvent(sub, off, run) => RunBases(RunKind(sub), off, 0, run);
      case ImportEvent(off, run, start) => RunBases(ImportRun, off, start, run);
      case _ =>
    }
  }

  lemma {:induction false} EventResolves(env: Bases, e: Event)
    requires |env.sec| == 2 && ImportsOk(EventFixes(e), env.imp)
    ensures Resolves(env, EventFixes(e))
  {
    EventBases(e);
    hide EventFixes;
  }

  lemma {:induction false} NoEvents(env: Bases, buf: seq<byte>)
    ensures Patch(env, buf, []) == buf
    ensures forall off: nat, idx: nat :: RunFixes(ImportRun, off, idx, 1) == [Fixup(off, Import(idx))]
  {
    forall off: nat, idx: nat ensures RunFixes(ImportRun, off, idx, 1) == [Fixup(off, Import(idx))] {
      RunFixesStep(ImportRun, off, idx, 0, env, buf);
      assert RunFixes(ImportRun, off, idx, 0) == [] && Offset(ImportRun, 0) == 0;
    }
  }

  lemma {:induction false} ItemWithin(k: Kind, pos: nat, imp: nat, i: nat, n: nat, len: nat)
    requires i < n && Within(RunFixes(k, pos, imp, n), len)
    ensures Within(ItemFixes(k, pos + Offset(k, i), imp + i), len)
  {
    RunFixesPrefix(k, pos, imp, i + 1, n);
    var fs, item, all := RunFixes(k, pos, imp, i), ItemFixes(k, pos + Offset(k, i), imp + i), RunFixes(k, pos, imp, n);
    assert fs + item <= all;
    hide RunFixes, ItemFixes;
    forall j | 0 <= j < |item| ensures item[j].pos + 4 <= len {
      assert all[|fs| + j] == (fs + item)[|fs| + j] == item[j];
    }
  }

  /** The same bases patch the same. */
  lemma {:induction false} SamePatch(a: Bases, b: Bases, buf: seq<byte>, fs: seq<Fixup>)
    requires forall i :: 0 <= i < |fs| ==> a.Value(fs[i].base) == b.Value(fs[i].base)
    ensures Patch(a, buf, fs) == Patch(b, buf, fs)
  {
    if fs != [] {
      SamePatch(a, b, buf, fs[..|fs| - 1]);
    }
  }

  lemma {:induction false} SameValues(env: Bases, fs: seq<Fixup>)
    requires |env.sec| >= 2 && TwoSections(fs)
    ensures forall i :: 0 <= i < |fs| ==> env.Value(fs[i].base) == Bases(env.sec[..2], env.imp).Value(fs[i].base)
  {
  }

  predicate NoSelection(es: seq<Event>) { forall i :: 0 <= i < |es| ==> !es[i].SetSect? }

  /** Without selections the events only patch. */
  lemma {:induction false} ApplyIsPatch(es: seq<Event>, env: Bases, sec: map<nat, u32>, buf: seq<byte>)
    requires NoSelection(es) && |env.sec| >= 2
    ensures ApplyAll(es, env.imp, sec, Applied(buf, env.sec[0], env.sec[1])) ==
            Applied(Patch(env, buf, AllFixes(es)), env.sec[0], env.sec[1])
  {
    hide Patch, EventFixes;
    if es == [] {
      NoEvents(env, buf);
    } else {
      var pre, e := es[..|es| - 1], es[|es| - 1];
      ApplyIsPatch(pre, env, sec, buf);
      PatchAppend(env, buf, AllFixes(pre), EventFixes(e));
      EventBases(e);
      SameValues(env, EventFixes(e));
      SamePatch(env, Bases(env.sec[..2], env.imp), Patch(env, buf, AllFixes(pre)), EventFixes(e));
      assert env.sec[..2] == [env.sec[0], env.sec[1]];
    }
  }

  /** Shared streams decode to no selection. */
  lemma {:induction false} SharedSelectsNone(cs: ChunkStream, pc: nat, at: Place)
    requires cs.Valid() && SharedFrom(cs, pc)
    ensures NoSelection(Events(cs, pc, 0, at))
    decreases cs.nchunks - pc
  {
    hide Decode, DecodeEvents, DecodeAt, PairMatches;
    if pc < cs.nchunks {
      SharedWord(cs, pc, at);
      DecodedPair(cs.At(pc), cs.At(pc + 1), at);
      PairSelectsNone(Decode(cs.At(pc), cs.At(pc + 1)).prim, cs.At(pc), at, DecodeAt(cs, pc, 0, at));
      SharedSelectsNone(cs, pc + DecodeAt(cs, pc, 0, at).size, DecodeAt(cs, pc, 0, at).next);
    }
  }

  lemma {:induction false} PairSelectsNone(p: Prim, w: u16, at: Place, s: Decoded)
    requires Shared(p) && PairMatches(p, w, at, s)
    ensures NoSelection(s.events)
  {
  }

  /** The two relocators leave the same bytes: on a shared stream whose items fit,
      patching in one pass gives the image that decoding first and applying the
      events then gives. */
  lemma {:induction false} SameImage(cs: ChunkStream, env: Bases, sec: map<nat, u32>, buf: seq<byte>)
    requires cs.Valid() && SharedFrom(cs, 0) && |buf| <= TWO32 && |env.sec| >= 2
    requires AllFit(Events(cs, 0, 0, Place(0, 0)), |buf|)
    ensures var o := Trace(Unroll(cs, 0, cs.nchunks), 0, |buf|, Cursor(0, 0));
      var es := Events(cs, 0, 0, Place(0, 0));
      && o.ok
      && Patch(env, buf, o.fixes) == ApplyAll(es, env.imp, sec, Applied(buf, env.sec[0], env.sec[1])).buf
  {
    hide Trace, Unroll, Events, ApplyAll, Patch, AllFixes, AllFit, NoSelection;
    OnePassIsTwoPhase(cs, 0, Place(0, 0), |buf|);
    SharedSelectsNone(cs, 0, Place(0, 0));
    ApplyIsPatch(Events(cs, 0, 0, Place(0, 0)), env, sec, buf);
    StartsLow(Place(0, 0));
  }

  lemma {:induction false} StartsLow(at: Place)
    requires at.addr < TWO32
    ensures Low(at) == Cursor(at.addr, at.imp)
  {
  }
}
