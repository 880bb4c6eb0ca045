/** An assembler for pattern-initialized data, and its round trip through the
    reference expansion and the bounded decoder. */
module PefPatternCode {
  import opened Bytes
  import opened PefPattern
  import opened PefPatternReference

  /** The groups of a number before its last one, high bits set. */
  function Leading(v: nat): seq<byte> { if v == 0 then [] else Leading(v / 0x80) + [0x80 + v % 0x80] }

  function NumberBytes(v: nat): seq<byte> { Leading(v / 0x80) + [v % 0x80] }

  lemma {:induction false} LeadingRead(src: seq<byte>, p: nat, v: nat)
    requires p + |Leading(v)| <= |src| && src[p..p + |Leading(v)|] == Leading(v)
    ensures ReadNumber(src, p, 0) == ReadNumber(src, p + |Leading(v)|, v)
  {
    hide ReadNumber;
    if v > 0 {
      var a, last := Leading(v / 0x80), 0x80 + v % 0x80;
      SplitAt(src, p, a, [last]);
      LeadingRead(src, p, v / 0x80);
      assert src[p + |a|] == src[p + |a|..p + |a| + 1][0] == last;
      NumberStep(src, p + |a|, v / 0x80);
    }
  }

  /** A number is read back. */
  lemma {:induction false} NumberRead(src: seq<byte>, p: nat, v: nat)
    requires p + |NumberBytes(v)| <= |src| && src[p..p + |NumberBytes(v)|] == NumberBytes(v)
    ensures ReadNumber(src, p, 0) == Some(Number(v, p + |NumberBytes(v)|))
  {
    hide ReadNumber, Leading;
    var a, last := Leading(v / 0x80), v % 0x80;
    SplitAt(src, p, a, [last]);
    LeadingRead(src, p, v / 0x80);
    assert src[p + |a|] == src[p + |a|..p + |a| + 1][0] == last;
    NumberStep(src, p + |a|, v / 0x80);
  }

  /** An instruction and its payload; `h.next` means nothing here. */
  datatype Instruction = Instruction(h: Header, payload: seq<byte>) {
    predicate Valid() {
      && h.op <= 4 && (h.op <= 1 ==> h.extra == 0) && (h.op <= 2 ==> h.times == 0)
      && |payload| == PayloadLen(h)
    }
  }

  /** The opcode with its count, in the short form where there is one. */
  function CountBytes(op: nat, count: nat): seq<byte>
    requires op <= 4
  {
    if 1 <= count <= 31 then [op * 32 + count] else [op * 32] + NumberBytes(count)
  }

  function ArgumentBytes(h: Header): seq<byte> {
    if h.op <= 1 then []
    else if h.op == 2 then NumberBytes(h.extra)
    else NumberBytes(h.extra) + NumberBytes(h.times)
  }

  lemma {:induction false} CountRead(src: seq<byte>, p: nat, op: nat, count: nat)
    requires op <= 4
    requires var b := CountBytes(op, count);
      p + |b| <= |src| && src[p..p + |b|] == b
    ensures p < |src| && src[p] / 32 == op
    ensures Count(src, p) == Some(Number(count, p + |CountBytes(op, count)|))
  {
    hide ReadNumber;
    var b := CountBytes(op, count);
    assert src[p] == src[p..p + |b|][0] == b[0];
    if !(1 <= count <= 31) {
      SplitAt(src, p, [op * 32], NumberBytes(count));
      NumberRead(src, p + 1, count);
    }
    hide NumberBytes;
  }

  lemma {:induction false} HeaderRead(src: seq<byte>, p: nat, h: Header)
    requires h.op <= 4 && (h.op <= 1 ==> h.extra == 0) && (h.op <= 2 ==> h.times == 0)
    requires var b := CountBytes(h.op, h.count) + ArgumentBytes(h);
      p + |b| <= |src| && src[p..p + |b|] == b
    ensures p < |src|
    ensures ParseHeader(src, p) == Some(h.(next := p + |CountBytes(h.op, h.count) + ArgumentBytes(h)|))
  {
    hide ReadNumber, NumberBytes, Count, CountBytes;
    var a := CountBytes(h.op, h.count);
    SplitAt(src, p, a, ArgumentBytes(h));
    CountRead(src, p, h.op, h.count);
    if h.op == 2 {
      NumberRead(src, p + |a|, h.extra);
    } else if h.op > 2 {
      SplitAt(src, p + |a|, NumberBytes(h.extra), NumberBytes(h.times));
      NumberRead(src, p + |a|, h.extra);
      NumberRead(src, p + |a| + |NumberBytes(h.extra)|, h.times);
    }
  }

  predicate AllValid(prog: seq<Instruction>) { forall i :: 0 <= i < |prog| ==> prog[i].Valid() }

  function InstructionBytes(i: Instruction): seq<byte>
    requires i.Valid()
  {
    CountBytes(i.h.op, i.h.count) + ArgumentBytes(i.h) + i.payload
  }

  function Encode(prog: seq<Instruction>): seq<byte>
    requires AllValid(prog)
  {
    if prog == [] then [] else InstructionBytes(prog[0]) + Encode(prog[1..])
  }

  /** The outputs of the instructions, one after the other. */
  function Meaning(prog: seq<Instruction>): seq<byte>
    requires AllValid(prog)
  {
    if prog == [] then [] else Output(prog[0].h, prog[0].payload) + Meaning(prog[1..])
  }

  lemma {:induction false} InstructionRead(src: seq<byte>, p: nat, i: Instruction, out: seq<byte>, rest: seq<byte>)
    requires i.Valid() && p <= |src| && src[p..] == InstructionBytes(i) + rest
    ensures var end := p + |InstructionBytes(i)|;
      && p < end <= |src| && src[end..] == rest
      && Unpack(src, p, out) == Unpack(src, end, out + Output(i.h, i.payload))
      && ParseHeader(src, p) == Some(i.h.(next := end - |i.payload|)) && src[end - |i.payload|..end] == i.payload
  {
    hide ParseHeader, Output, PayloadLen, CountBytes, ArgumentBytes;
    var a := CountBytes(i.h.op, i.h.count) + ArgumentBytes(i.h);
    var end := p + |InstructionBytes(i)|;
    assert src[p..end] == src[p..][..|InstructionBytes(i)|] == a + i.payload;
    assert src[end..] == src[p..][|InstructionBytes(i)|..] == rest;
    SplitAt(src, p, a, i.payload);
    HeaderRead(src, p, i.h);
    SamePayload(i.h, i.h.(next := p + |a|), i.payload);
  }

  lemma {:induction false} UnpackEncoded(src: seq<byte>, p: nat, prog: seq<Instruction>, out: seq<byte>)
    requires AllValid(prog) && p <= |src| && src[p..] == Encode(prog)
    ensures Unpack(src, p, out) == Some(out + Meaning(prog))
    decreases |prog|
  {
    hide InstructionBytes, Output, ParseHeader;
    if prog == [] {
      assert out + [] == out;
    } else {
      InstructionRead(src, p, prog[0], out, Encode(prog[1..]));
      UnpackEncoded(src, p + |InstructionBytes(prog[0])|, prog[1..], out + Output(prog[0].h, prog[0].payload));
      Assoc(out, Output(prog[0].h, prog[0].payload), Meaning(prog[1..]));
    }
  }

  /** No instruction repeats its block 2^32 times. */
  predicate AllEnd(prog: seq<Instruction>) { forall i :: 0 <= i < |prog| ==> !NeverEnds(Low(prog[i].h)) }

  lemma {:induction false} ExpandEncoded(src: seq<byte>, p: nat, prog: seq<Instruction>, out: seq<byte>, cap: nat)
    requires AllValid(prog) && p <= |src| < TWO32 && src[p..] == Encode(prog)
    requires |out| + |Meaning(prog)| <= cap < TWO32
    ensures Expand(src, p, out, cap) == Finished(out + Meaning(prog)) <==> AllEnd(prog)
    ensures Expand(src, p, out, cap).Endless? <==> !AllEnd(prog)
    decreases |prog|
  {
    hide InstructionBytes, Output, OutputLen, PayloadLen, ParseHeader, Low, NeverEnds;
    if prog == [] {
      assert out + [] == out;
    } else {
      var i := prog[0];
      var end := p + |InstructionBytes(i)|;
      InstructionRead(src, p, i, out, Encode(prog[1..]));
      var h := i.h.(next := end - |i.payload|);
      SamePayload(i.h, h, i.payload);
      OutputSize(h, i.payload);
      SmallStep(h, i.h, i.payload);
      var o := out + Output(i.h, i.payload);
      Assoc(out, Output(i.h, i.payload), Meaning(prog[1..]));
      ExpandEncoded(src, end, prog[1..], o, cap);
    }
  }

  lemma {:induction false} SmallStep(h: Header, k: Header, payload: seq<byte>)
    requires h == k.(next := h.next) && h.op <= 4 && |payload| == PayloadLen(h) < TWO32 && OutputLen(h) < TWO32
    ensures PayloadLen(Low(h)) == PayloadLen(h) && OutputLen(Low(h)) == OutputLen(h) && Low(h).next == h.next
    ensures Output(Low(h), payload) == Output(h, payload)
    ensures NeverEnds(Low(h)) <==> NeverEnds(Low(k))
  {
    SmallIsHarmless(h);
    HarmlessSame(h, payload);
    hide Output, OutputLen, PayloadLen;
  }

  /** Every list of instructions is unpacked to its outputs; the decoder gives
      them too when they fit, exactly if none repeats its block 2^32 times. */
  lemma {:induction false} EncodeRoundTrip(prog: seq<Instruction>, cap: nat)
    requires AllValid(prog)
    ensures Unpack(Encode(prog), 0, []) == Some(Meaning(prog))
    ensures |Encode(prog)| < TWO32 && |Meaning(prog)| <= cap < TWO32 ==>
              (Expand(Encode(prog), 0, [], cap) == Finished(Meaning(prog)) <==> AllEnd(prog))
  {
    hide Unpack, Expand, Encode, Meaning, AllEnd;
    assert Encode(prog)[0..] == Encode(prog) && [] + Meaning(prog) == Meaning(prog);
    UnpackEncoded(Encode(prog), 0, prog, []);
    if |Encode(prog)| < TWO32 && |Meaning(prog)| <= cap < TWO32 {
      ExpandEncoded(Encode(prog), 0, prog, [], cap);
    }
  }
}
