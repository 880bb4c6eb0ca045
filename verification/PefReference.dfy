/** The two-phase reference relocator: decode the stream to events with
    absolute positions, then patch. */
module PefReference {
  import opened Bytes
  import opened PefCode
  import opened PefTrace
  import opened PefPatch
  import opened PefExec

  datatype Event =
    | SkipRun(off: nat, count: nat)
    | RunEvent(sub: nat, off: nat, run: nat)
    | ImportEvent(off: nat, run: nat, start: nat)
    | ImportWord(off: nat, idx: nat)
    | SectionWord(off: nat, idx: nat)
    | SetSect(c: bool, idx: nat)
    | Moved(addr: nat)
    | RepeatEvent(cc: nat, rc: nat)
    | Unknown
    | EndOfFile

  /** The decoder's state: unbounded address and import index. */
  datatype Place = Place(addr: nat, imp: nat)
  datatype Decoded = Decoded(events: seq<Event>, next: Place, size: nat)

  /** One step of the decoding loop; `d` is the default address. */
  function DecodeEvents(w: u16, next: u16, d: nat, at: Place): Decoded {
    var op := w / 512;
    var sub := PefField(w, 3, 4);
    var low := PefField(w, 7, 9);
    if op < 0x20 then
      var a := at.addr + PefField(w, 2, 8) * 4;
      var count := PefField(w, 10, 6);
      Decoded([SkipRun(a, count)], at.(addr := a + count * 4), 1)
    else if op <= 0x25 then
      var run := low + 1;
      var e := RunEvent(sub, at.addr, run);
      if sub == 5 then
        Decoded([e, ImportEvent(at.addr, run, at.imp)], Place(at.addr + run * 4, at.imp + run), 1)
      else
        Decoded([e], at.(addr := at.addr + Stride(RunKind(sub)) * run), 1)
    else if 0x30 <= op <= 0x33 then
      if sub == 0 then Decoded([ImportWord(at.addr, low)], Place(at.addr + 4, low + 1), 1)
      else if sub == 1 then Decoded([SetSect(true, low)], at, 1)
      else if sub == 2 then Decoded([SetSect(false, low)], at, 1)
      else Decoded([SectionWord(at.addr, low)], at.(addr := at.addr + 4), 1)
    else if 0x40 <= op <= 0x47 then
      var a := at.addr + PefField(w, 4, 12) + 1;
      Decoded([Moved(a)], at.(addr := a), 1)
    else if 0x48 <= op <= 0x4F then
      Decoded([RepeatEvent(PefField(w, 4, 4) + 1, PefField(w, 8, 8) + 1)], at, 1)
    else if op == 0x50 then
      var a := d + PefField(w, 6, 10) * 0x10000 + next;
      Decoded([Moved(a)], at.(addr := a), 2)
    else if op == 0x52 then
      var idx := PefField(w, 6, 10) * 0x10000 + next;
      Decoded([ImportWord(at.addr, idx)], Place(at.addr + 4, idx + 1), 2)
    else if op == 0x58 then
      Decoded([RepeatEvent(PefField(w, 6, 4) + 1, PefField(w, 10, 6) * 0x10000 + next)], at, 2)
    else if op == 0x5A then
      var k, idx := PefField(w, 6, 4), PefField(w, 10, 6) * 0x10000 + next;
      if k == 0 then Decoded([SectionWord(at.addr, idx)], at.(addr := at.addr + 4), 2)
      else if k <= 2 then Decoded([SetSect(k == 1, idx)], at, 2)
      else Decoded([], at, 2)
    else Decoded([Unknown], at, 0)
  }

  /** The table of codes the decoding reads, by ranges of the word, those included
      that the script only lists. */
  lemma {:induction false} EventTable(w: u16, next: u16, d: nat, at: Place)
    ensures var s, a, long := DecodeEvents(w, next, d, at), at.addr, w % 0x40 * 0x10000 + next;
      && (w < 0x4000 ==>
            s == Decoded([SkipRun(a + w / 64 * 4, w % 64)], Place(a + w / 64 * 4 + w % 64 * 4, at.imp), 1))
      && ((0x4C00 <= w < 0x6000 || 0x6800 <= w < 0x8000 || 0xA200 <= w < 0xA400 || 0xA600 <= w < 0xB000
           || 0xB200 <= w < 0xB400 || w >= 0xB600) ==> s == Decoded([Unknown], at, 0))
      && (0x6200 <= w < 0x6600 ==> s == Decoded([SetSect(w < 0x6400, w % 0x200)], at, 1))
      && (0x6600 <= w < 0x6800 ==> s == Decoded([SectionWord(a, w % 0x200)], Place(a + 4, at.imp), 1))
      && (0x9000 <= w < 0xA000 ==> s == Decoded([RepeatEvent(w / 0x100 % 0x10 + 1, w % 0x100 + 1)], at, 1))
      && (0xB000 <= w < 0xB200 ==> s == Decoded([RepeatEvent(w / 0x40 % 0x10 + 1, long)], at, 2))
      && (0xB400 <= w < 0xB440 ==> s == Decoded([SectionWord(a, long)], Place(a + 4, at.imp), 2))
      && (0xB440 <= w < 0xB4C0 ==> s == Decoded([SetSect(w < 0xB480, long)], at, 2))
      && (0xB4C0 <= w < 0xB600 ==> s == Decoded([], at, 2))
  {
    if w < 0x4000 {
      EventsShort(w, next, d, at);
    } else if 0x4C00 <= w < 0x6000 || 0x6800 <= w < 0x8000 || 0xA200 <= w < 0xA400 || 0xA600 <= w < 0xB000
              || 0xB200 <= w < 0xB400 || w >= 0xB600 {
      EventsUnknown(w, next, d, at);
    }
    EventsRepeat(w, next, d, at);
    EventsLong(w, next, d, at);
    hide DecodeEvents;
  }

  lemma {:induction false} EventsShort(w: u16, next: u16, d: nat, at: Place)
    requires w < 0x4000
    ensures DecodeEvents(w, next, d, at) ==
            Decoded([SkipRun(at.addr + w / 64 * 4, w % 64)], Place(at.addr + w / 64 * 4 + w % 64 * 4, at.imp), 1)
  {
    Fields(w);
    hide PefField, Pow2;
  }

  lemma {:induction false} EventsUnknown(w: u16, next: u16, d: nat, at: Place)
    requires 0x4C00 <= w < 0x6000 || 0x6800 <= w < 0x8000 || 0xA200 <= w < 0xA400 || 0xA600 <= w < 0xB000
             || 0xB200 <= w < 0xB400 || w >= 0xB600
    ensures DecodeEvents(w, next, d, at) == Decoded([Unknown], at, 0)
  {
    hide PefField;
  }

  lemma {:induction false} EventsRepeat(w: u16, next: u16, d: nat, at: Place)
    ensures var s, a, long := DecodeEvents(w, next, d, at), at.addr, w % 0x40 * 0x10000 + next;
      && (0x6200 <= w < 0x6600 ==> s == Decoded([SetSect(w < 0x6400, w % 0x200)], at, 1))
      && (0x6600 <= w < 0x6800 ==> s == Decoded([SectionWord(a, w % 0x200)], Place(a + 4, at.imp), 1))
      && (0x9000 <= w < 0xA000 ==> s == Decoded([RepeatEvent(w / 0x100 % 0x10 + 1, w % 0x100 + 1)], at, 1))
      && (0xB000 <= w < 0xB200 ==> s == Decoded([RepeatEvent(w / 0x40 % 0x10 + 1, long)], at, 2))
  {
    Fields(w);
    hide PefField, Pow2;
    EventGroups(w);
  }

  lemma {:induction false} EventsLong(w: u16, next: u16, d: nat, at: Place)
    ensures var s, a, long := DecodeEvents(w, next, d, at), at.addr, w % 0x40 * 0x10000 + next;
      && (0xB400 <= w < 0xB440 ==> s == Decoded([SectionWord(a, long)], Place(a + 4, at.imp), 2))
      && (0xB440 <= w < 0xB4C0 ==> s == Decoded([SetSect(w < 0xB480, long)], at, 2))
      && (0xB4C0 <= w < 0xB600 ==> s == Decoded([], at, 2))
  {
    Fields(w);
    hide PefField, Pow2;
    EventGroups(w);
  }

  lemma {:induction false} EventGroups(w: u16)
    ensures w / 0x40 % 0x10 == 0 && w / 0x200 == 0x5A <==> 0xB400 <= w < 0xB440
    ensures w / 0x40 % 0x10 == 1 && w / 0x200 == 0x5A <==> 0xB440 <= w < 0xB480
    ensures w / 0x40 % 0x10 == 2 && w / 0x200 == 0x5A <==> 0xB480 <= w < 0xB4C0
    ensures w / 0x200 % 0x10 == 1 && 0x30 <= w / 0x200 <= 0x33 <==> 0x6200 <= w < 0x6400
    ensures w / 0x200 % 0x10 == 2 && 0x30 <= w / 0x200 <= 0x33 <==> 0x6400 <= w < 0x6600
    ensures w / 0x200 % 0x10 == 0 && 0x30 <= w / 0x200 <= 0x33 <==> 0x6000 <= w < 0x6200
  {
  }

  /** The decoding of the word at `pc`, with the second word of the long forms
      read from the file even past the end of the stream; where the file ends too
      the script raises an error, which EndOfFile stands for. */
  function DecodeAt(cs: ChunkStream, pc: nat, d: nat, at: Place): Decoded
    requires cs.Valid() && pc < cs.nchunks
  {
    var more := 2 * pc + 4 <= |cs.bytes|;
    var s := DecodeEvents(cs.At(pc), if more then Rd16(cs.bytes, 2 * pc + 2) else 0, d, at);
    if s.size == 2 && !more then Decoded([EndOfFile], at, 0) else s
  }

  /** Two-word codes take the two bytes that follow in the file, and end the
      decoding where there are none. */
  lemma {:induction false} SecondWord(cs: ChunkStream, pc: nat, d: nat, at: Place)
    requires cs.Valid() && pc < cs.nchunks
    ensures var w, b := cs.At(pc), cs.bytes;
      && (2 * pc + 4 <= |b| ==>
            DecodeAt(cs, pc, d, at) == DecodeEvents(w, Word(0, 0, b[2 * pc + 2], b[2 * pc + 3]), d, at))
      && (2 * pc + 4 > |b| && (0xA000 <= w < 0xA200 || 0xA400 <= w < 0xA600 || 0xB000 <= w < 0xB200 || 0xB400 <= w < 0xB600) ==>
            DecodeAt(cs, pc, d, at) == Decoded([EndOfFile], at, 0))
  {
    hide PefField;
  }

  /** The event list of the words [pc, nchunks). */
  function Events(cs: ChunkStream, pc: nat, d: nat, at: Place): seq<Event>
    requires cs.Valid()
    decreases cs.nchunks - pc
  {
    if pc >= cs.nchunks then []
    else
      var s := DecodeAt(cs, pc, d, at);
      if s.size == 0 then s.events else s.events + Events(cs, pc + s.size, d, s.next)
  }

  /** The decoding loop. */
  method RunRelocs(cs: ChunkStream, d: nat) returns (events: seq<Event>)
    requires cs.Valid()
    ensures events == Events(cs, 0, d, Place(d, 0))
  {
    hide DecodeAt, Events;
    events := [];
    var p, at := 0, Place(d, 0);
    while p < cs.nchunks
      invariant events + Events(cs, p, d, at) == Events(cs, 0, d, Place(d, 0))
      decreases cs.nchunks - p
    {
      var s := DecodeAt(cs, p, d, at);
      EventsStep(cs, p, d, at, events);
      events := events + s.events;
      if s.size == 0 {
        return;
      }
      p, at := p + s.size, s.next;
    }
    EventsEnd(cs, p, d, at);
    assert events + [] == events;
  }

  lemma {:induction false} EventsEnd(cs: ChunkStream, p: nat, d: nat, at: Place)
    requires cs.Valid() && p >= cs.nchunks
    ensures Events(cs, p, d, at) == []
  {
  }

  lemma {:induction false} EventsStep(cs: ChunkStream, p: nat, d: nat, at: Place, before: seq<Event>)
    requires cs.Valid() && p < cs.nchunks
    ensures var s := DecodeAt(cs, p, d, at);
      before + Events(cs, p, d, at) ==
      before + s.events + (if s.size == 0 then [] else Events(cs, p + s.size, d, s.next))
  {
    hide DecodeAt;
    var s := DecodeAt(cs, p, d, at);
    if s.size != 0 {
      var rest := Events(cs, p + s.size, d, s.next);
      assert before + (s.events + rest) == (before + s.events) + rest;
    }
  }

  /** What applying one event patches. */
  function EventFixes(e: Event): seq<Fixup> {
    match e
    case SkipRun(off, count) => RunFixes(BySectD, off, 0, count)
    case RunEvent(sub, off, run) => if sub <= 4 then RunFixes(RunKind(sub), off, 0, run) else []
    case ImportEvent(off, run, start) => RunFixes(ImportRun, off, start, run)
    case ImportWord(off, idx) => [Fixup(off, Import(idx))]
    case _ => []
  }

  function AllFixes(es: seq<Event>): seq<Fixup> {
    if es == [] then [] else AllFixes(es[..|es| - 1]) + EventFixes(es[|es| - 1])
  }

  lemma {:induction false} AllFixesAppend(a: seq<Event>, b: seq<Event>)
    ensures AllFixes(a + b) == AllFixes(a) + AllFixes(b)
  {
    hide AllFixes, EventFixes;
    if b == [] {
      AllFixesNil();
      assert a + b == a && AllFixes(a) + [] == AllFixes(a);
    } else {
      var b', e := b[..|b| - 1], b[|b| - 1];
      AllFixesAppend(a, b');
      AllFixesSnoc(b', e);
      AllFixesSnoc(a + b', e);
      assert b' + [e] == b;
      Assoc(a, b', [e]);
      Assoc(AllFixes(a), AllFixes(b'), EventFixes(e));
    }
  }

  lemma {:induction false} AllFixesNil()
    ensures AllFixes([]) == []
  {
  }

  lemma {:induction false} AllFixesSnoc(es: seq<Event>, e: Event)
    ensures AllFixes(es + [e]) == AllFixes(es) + EventFixes(e)
  {
    assert (es + [e])[..|es|] == es;
  }

  /** The kind of run an event patches, if it is one that applies. */
  function EventRun(e: Event): (Kind, nat, nat) {
    match e
    case SkipRun(off, count) => (BySectD, off, count)
    case RunEvent(sub, off, run) => if sub <= 4 then (RunKind(sub), off, run) else (BySectD, off, 0)
    case ImportEvent(off, run, _) => (ImportRun, off, run)
    case ImportWord(off, _) => (BySectC, off, 1)
    case _ => (BySectC, 0, 0)
  }

  /** The items of the event, padding words included, lie inside the buffer. */
  predicate EventFits(e: Event, len: nat) {
    var (k, off, run) := EventRun(e);
    run == 0 || off + Offset(k, run) <= len
  }

  predicate AllFit(es: seq<Event>, len: nat) {
    forall i :: 0 <= i < |es| ==> EventFits(es[i], len)
  }

  /** The instructions both relocators give a meaning to. */
  predicate Shared(p: Prim) { p.Words? || p.ByImport? || p.Incr? || p.SetPosition? }

  /** From `pc` on, only complete shared instructions. */
  predicate SharedFrom(cs: ChunkStream, pc: nat)
    requires cs.Valid()
    decreases cs.nchunks - pc
  {
    pc >= cs.nchunks ||
    var i := Decode(cs.At(pc), cs.At(pc + 1));
    i.Do? && Shared(i.prim) && pc + i.size <= cs.nchunks && SharedFrom(cs, pc + i.size)
  }

  /** The second word matters to the two-word codes only. */
  lemma {:induction false} NextUnused(w: u16, next: u16, other: u16, d: nat, at: Place)
    requires DecodeEvents(w, next, d, at).size != 2
    ensures DecodeEvents(w, other, d, at) == DecodeEvents(w, next, d, at)
  {
    hide PefField;
  }

  /** On complete shared instructions both programs read the same words. */
  lemma {:induction false} SharedWord(cs: ChunkStream, pc: nat, at: Place)
    requires cs.Valid() && pc < cs.nchunks && SharedFrom(cs, pc)
    ensures DecodeAt(cs, pc, 0, at) == DecodeEvents(cs.At(pc), cs.At(pc + 1), 0, at)
  {
    hide Decode, DecodeEvents;
    var w, next := cs.At(pc), cs.At(pc + 1);
    DecodedPair(w, next, at);
    if Decode(w, next).size != 2 {
      NextUnused(w, next, if 2 * pc + 4 <= |cs.bytes| then Rd16(cs.bytes, 2 * pc + 2) else 0, 0, at);
    }
  }

  /** The unbounded decoder address never leaves 32 bits. */
  predicate BoundedFrom(cs: ChunkStream, pc: nat, at: Place)
    requires cs.Valid()
    decreases cs.nchunks - pc
  {
    at.addr < TWO32 &&
    (pc >= cs.nchunks ||
     var s := DecodeAt(cs, pc, 0, at);
     s.size == 0 || BoundedFrom(cs, pc + s.size, s.next))
  }

  function Low(at: Place): Cursor { Cursor(at.addr % TWO32, at.imp) }

  lemma {:induction false} RunFixesAnyImport(k: Kind, pos: nat, i: nat, j: nat, n: nat)
    requires !k.ImportRun?
    ensures RunFixes(k, pos, i, n) == RunFixes(k, pos, j, n)
  {
    if n > 0 {
      RunFixesAnyImport(k, pos, i, j, n - 1);
    }
  }

  lemma {:induction false} WordsFit(skip: nat, k: Kind, run: nat, at: Place, len: nat)
    requires len <= TWO32 && (run == 0 || at.addr + skip + Offset(k, run) <= len)
    ensures Step(Words(skip, k, run), 0, len, Low(at)) ==
            Outcome(true,
                    Low(Place(at.addr + skip + Offset(k, run), if k.ImportRun? then at.imp + run else at.imp)),
                    RunFixes(k, at.addr + skip, at.imp, run))
  {
    hide Add32, Sub32, RunFixes, Fitting, Offset, Stride;
    var off := at.addr + skip;
    var pos := Sub32(Add32(at.addr % TWO32, skip), 0);
    Reduced(at.addr, skip);
    Reduced(off, Offset(k, run));
    OffsetStep(k, run - 1);
    if run > 0 {
      assert pos == off;
      FittingFrom(k, pos, run, run, len);
    } else {
      NoFixes(k, off, at.imp);
      NoFixes(k, pos, at.imp);
    }
  }

  lemma {:induction false} OffsetStep(k: Kind, i: int)
    requires i >= -1
    ensures Offset(k, i + 1) == if i == -1 then 0 else Offset(k, i) + Stride(k)
    ensures Stride(k) >= 4
  {
  }

  lemma {:induction false} WordSpan()
    ensures Offset(BySectC, 1) == 4
  {
  }

  lemma {:induction false} NoFixes(k: Kind, pos: nat, imp: nat)
    ensures RunFixes(k, pos, imp, 0) == []
  {
  }

  lemma {:induction false} Reduced(a: nat, n: nat)
    ensures Add32(a % TWO32, n) == (a + n) % TWO32 == Sub32(Add32(a % TWO32, n), 0)
  {
  }

  lemma {:induction false} WordsMiss(skip: nat, k: Kind, run: nat, at: Place, len: nat)
    requires at.addr + skip < TWO32 && run > 0 && at.addr + skip + Offset(k, run) > len
    ensures !Step(Words(skip, k, run), 0, len, Low(at)).ok
  {
    hide Offset, Add32, Sub32, RunFixes, Fitting, Stride;
    var pos := at.addr + skip;
    Reduced(at.addr, skip);
    OffsetStep(k, run - 1);
    assert !Fits(k, pos, run - 1, len);
  }

  /** The instruction and the events one word decodes to agree. */
  ghost predicate PairMatches(p: Prim, w: u16, at: Place, s: Decoded) {
    match p
    case Words(skip, k, run) =>
      && s.next == Place(at.addr + skip + Offset(k, run), if k.ImportRun? then at.imp + run else at.imp)
      && s.events == RunEvents(w, skip, k, run, at) && RunCode(w, skip, k)
    case ByImport(idx) => s.events == [ImportWord(at.addr, idx)] && s.next == Place(at.addr + 4, idx + 1)
    case Incr(n) => s.events == [Moved(at.addr + n)] && s.next == Place(at.addr + n, at.imp)
    case SetPosition(off) => s.events == [Moved(off)] && s.next == Place(off, at.imp)
    case _ => true
  }

  /** Decoding one shared word: the instruction and its events. */
  lemma {:induction false} DecodedPair(w: u16, next: u16, at: Place)
    requires Decode(w, next).Do? && Shared(Decode(w, next).prim)
    ensures DecodeEvents(w, next, 0, at).size == Decode(w, next).size > 0
    ensures PairMatches(Decode(w, next).prim, w, at, DecodeEvents(w, next, 0, at))
  {
    DecodeFields(w, next);
    Fields(w);
    hide Decode, PefField, Pow2, PairMatches;
    if w / 512 <= 0x25 {
      DecodedRun(w, next, at);
    } else {
      DecodedOther(w, next, at);
    }
  }

  lemma {:induction false} DecodedRun(w: u16, next: u16, at: Place)
    requires w / 512 <= 0x25
    ensures DecodeEvents(w, next, 0, at).size == Decode(w, next).size > 0
    ensures PairMatches(Decode(w, next).prim, w, at, DecodeEvents(w, next, 0, at))
  {
    DecodeFields(w, next);
    Fields(w);
    hide Decode, PefField, Pow2;
  }

  lemma {:induction false} DecodedOther(w: u16, next: u16, at: Place)
    requires w / 512 > 0x25 && Decode(w, next).Do? && Shared(Decode(w, next).prim)
    ensures DecodeEvents(w, next, 0, at).size == Decode(w, next).size > 0
    ensures PairMatches(Decode(w, next).prim, w, at, DecodeEvents(w, next, 0, at))
  {
    DecodeFields(w, next);
    Fields(w);
    hide Decode, PefField, Pow2;
  }

  /** The events of a run instruction. */
  function RunEvents(w: u16, skip: nat, k: Kind, run: nat, at: Place): seq<Event> {
    if w < 0x4000 then [SkipRun(at.addr + skip, run)]
    else if k.ImportRun? then [RunEvent(5, at.addr, run), ImportEvent(at.addr, run, at.imp)]
    else [RunEvent(w / 512 % 16, at.addr, run)]
  }

  predicate RunCode(w: u16, skip: nat, k: Kind) {
    if w < 0x4000 then k == BySectD
    else skip == 0 && w / 512 % 16 <= 5 && k == RunKind(w / 512 % 16)
  }

  lemma {:induction false} RunEventsFit(w: u16, skip: nat, k: Kind, run: nat, at: Place, len: nat)
    requires RunCode(w, skip, k)
    ensures AllFixes(RunEvents(w, skip, k, run, at)) == RunFixes(k, at.addr + skip, at.imp, run)
    ensures AllFit(RunEvents(w, skip, k, run, at), len) <==> (run == 0 || at.addr + skip + Offset(k, run) <= len)
  {
    hide AllFixes, RunFixes, Offset, Stride;
    var es := RunEvents(w, skip, k, run, at);
    EventsFixes(es);
    if !k.ImportRun? {
      RunFixesAnyImport(k, at.addr + skip, at.imp, 0, run);
    }
    assert EventFits(es[|es| - 1], len) <==> (run == 0 || at.addr + skip + Offset(k, run) <= len);
    assert |es| == 2 ==> EventFits(es[0], len);
  }

  /** A shared instruction whose items fit does what its events say. */
  lemma {:induction false} PairFits(w: u16, next: u16, at: Place, len: nat)
    requires Decode(w, next).Do? && Shared(Decode(w, next).prim) && len <= TWO32
    requires AllFit(DecodeEvents(w, next, 0, at).events, len)
    ensures var s := DecodeEvents(w, next, 0, at);
      Step(Decode(w, next).prim, 0, len, Low(at)) == Outcome(true, Low(s.next), AllFixes(s.events))
  {
    hide Decode, DecodeEvents, AllFixes, RunFixes, RunEvents, Offset, Stride, Fitting;
    DecodedPair(w, next, at);
    var p, s := Decode(w, next).prim, DecodeEvents(w, next, 0, at);
    match p {
      case Words(skip, k, run) =>
        RunEventsFit(w, skip, k, run, at, len);
        WordsFit(skip, k, run, at, len);
      case ByImport(_) =>
        EventsFixes(s.events);
        assert EventFits(s.events[0], len);
        Reduced(at.addr, 0);
        Reduced(at.addr, 4);
        WordSpan();
      case Incr(n) =>
        EventsFixes(s.events);
        Reduced(at.addr, n);
      case SetPosition(off) =>
        EventsFixes(s.events);
        Reduced(0, off);
      case _ =>
    }
  }

  lemma {:induction false} EventsFixes(es: seq<Event>)
    requires 1 <= |es| <= 2
    ensures AllFixes(es) == if |es| == 1 then EventFixes(es[0]) else EventFixes(es[0]) + EventFixes(es[1])
  {
    hide AllFixes, EventFixes;
    AllFixesNil();
    AllFixesSnoc([], es[0]);
    if |es| == 2 {
      AllFixesSnoc([es[0]], es[1]);
      assert es == [es[0]] + [es[1]];
    }
    assert [] + [es[0]] == [es[0]];
    assert |es| == 1 ==> es == [es[0]];
  }

  /** A shared instruction with an item that does not fit fails. */
  lemma {:induction false} PairMisses(w: u16, next: u16, at: Place, len: nat)
    requires Decode(w, next).Do? && Shared(Decode(w, next).prim)
    requires at.addr < TWO32 && DecodeEvents(w, next, 0, at).next.addr < TWO32
    requires !AllFit(DecodeEvents(w, next, 0, at).events, len)
    ensures !Step(Decode(w, next).prim, 0, len, Low(at)).ok
  {
    hide Decode, DecodeEvents, AllFixes, RunFixes, RunEvents, Offset, Stride, Fitting;
    DecodedPair(w, next, at);
    var p, s := Decode(w, next).prim, DecodeEvents(w, next, 0, at);
    if p.Words? {
      RunEventsFit(w, p.skip, p.kind, p.run, at, len);
      WordsMiss(p.skip, p.kind, p.run, at, len);
    } else {
      assert !EventFits(s.events[0], len);
      assert p.ByImport?;
      Reduced(at.addr, 0);
      WordSpan();
    }
  }

  lemma {:induction false} AllFitAppend(a: seq<Event>, b: seq<Event>, len: nat)
    ensures AllFit(a + b, len) <==> AllFit(a, len) && AllFit(b, len)
  {
    hide EventFits;
    if AllFit(a + b, len) {
      assert forall i :: 0 <= i < |a| ==> a[i] == (a + b)[i];
      assert forall i :: 0 <= i < |b| ==> b[i] == (a + b)[|a| + i];
    }
  }

  lemma {:induction false} AllFitNil(len: nat)
    ensures AllFit([], len)
  {
  }

  /** The one-pass relocator makes exactly the patches the decoded events list,
      whenever every item of every event lies inside the buffer. */
  lemma {:induction false} OnePassIsTwoPhase(cs: ChunkStream, pc: nat, at: Place, len: nat)
    requires cs.Valid() && SharedFrom(cs, pc) && len <= TWO32
    requires AllFit(Events(cs, pc, 0, at), len)
    ensures var o := Trace(Unroll(cs, pc, cs.nchunks), 0, len, Low(at));
      o.ok && o.fixes == AllFixes(Events(cs, pc, 0, at))
    decreases cs.nchunks - pc
  {
    hide Decode, DecodeEvents, DecodeAt, AllFixes, Step, AllFit, Trace;
    if pc >= cs.nchunks {
      AllFixesNil();
      TraceNil(0, len, Low(at));
    } else {
      var w, next := cs.At(pc), cs.At(pc + 1);
      var s := DecodeAt(cs, pc, 0, at);
      SharedWord(cs, pc, at);
      DecodedPair(w, next, at);
      AllFitAppend(s.events, Events(cs, pc + s.size, 0, s.next), len);
      TraceCons(Decode(w, next).prim, Unroll(cs, pc + s.size, cs.nchunks), 0, len, Low(at));
      PairFits(w, next, at, len);
      OnePassIsTwoPhase(cs, pc + s.size, s.next, len);
      AllFixesAppend(s.events, Events(cs, pc + s.size, 0, s.next));
    }
  }

  /** Conversely, while the decoder's address stays inside 32 bits, the one-pass
      relocator succeeds only if every item fits. */
  lemma {:induction false} OnePassFitsOnly(cs: ChunkStream, pc: nat, at: Place, len: nat)
    requires cs.Valid() && SharedFrom(cs, pc) && BoundedFrom(cs, pc, at) && len <= TWO32
    ensures Trace(Unroll(cs, pc, cs.nchunks), 0, len, Low(at)).ok ==> AllFit(Events(cs, pc, 0, at), len)
    decreases cs.nchunks - pc
  {
    hide Decode, DecodeEvents, DecodeAt, AllFixes, Step, AllFit, Trace;
    if pc >= cs.nchunks {
      AllFitNil(len);
    } else {
      var w, next := cs.At(pc), cs.At(pc + 1);
      var s := DecodeAt(cs, pc, 0, at);
      SharedWord(cs, pc, at);
      DecodedPair(w, next, at);
      TraceCons(Decode(w, next).prim, Unroll(cs, pc + s.size, cs.nchunks), 0, len, Low(at));
      NextBounded(cs, pc + s.size, s.next);
      AllFitAppend(s.events, Events(cs, pc + s.size, 0, s.next), len);
      if AllFit(s.events, len) {
        PairFits(w, next, at, len);
        OnePassFitsOnly(cs, pc + s.size, s.next, len);
      } else {
        PairMisses(w, next, at, len);
      }
    }
  }

  lemma {:induction false} NextBounded(cs: ChunkStream, pc: nat, at: Place)
    requires cs.Valid() && BoundedFrom(cs, pc, at)
    ensures at.addr < TWO32
  {
  }

  /** The two relocators part on the padding word of a transition vector: with
      only its two patched words inside the section, the reference patches them
      and the one-pass relocator refuses. */
  lemma {:induction false} PaddingDiffers()
    ensures var cs := ChunkStream([0x44, 0x00], 1);
      var es := Events(cs, 0, 0, Place(0, 0));
      && SharedFrom(cs, 0)
      && !Trace(Unroll(cs, 0, 1), 0, 8, Cursor(0, 0)).ok
      && AllFixes(es) == [Fixup(0, Section(0)), Fixup(4, Section(1))]
  {
    var cs, at := ChunkStream([0x44, 0x00], 1), Place(0, 0);
    assert cs.At(0) == 0x4400 && cs.At(1) == 0;
    assert Decode(0x4400, 0) == Do(Words(0, TVector12, 1), 1);
    DecodedPair(0x4400, 0, at);
    hide Decode, DecodeEvents, AllFixes, Trace, Step, Fitting, RunFixes;
    assert DecodeEvents(0x4400, 0, 0, at).events == [RunEvent(2, 0, 1)];
    SharedWord(cs, 0, at);
    UnrollEnd(cs, 1, 1);
    EventsEnd(cs, 1, 0, DecodeEvents(0x4400, 0, 0, at).next);
    EventsFixes([RunEvent(2, 0, 1)]);
    RunFixesStep(TVector12, 0, 0, 0, Bases([], []), []);
    NoFixes(TVector12, 0, 0);
    TraceOne(Words(0, TVector12, 1), 0, 8, Low(at));
    WordsMiss(0, TVector12, 1, at, 8);
    assert Unroll(cs, 0, 1) == [Words(0, TVector12, 1)];
    assert Events(cs, 0, 0, at) == [RunEvent(2, 0, 1)];
  }
}
