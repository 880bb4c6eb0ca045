/** The script's expansion of pattern data, which reads numbers on past the end of
    a section and cuts payloads short where the file ends, against the semantics
    of the format. */
module PefPatternScript {
  import opened Bytes
  import opened PefPattern
  import opened PefPatternReference

  /** The slice b[p:p + n], cut short where the file ends. */
  function Cut(b: seq<byte>, p: nat, n: nat): (r: seq<byte>)
    ensures |r| <= n && (p + n <= |b| ==> r == b[p..p + n])
  {
    if p + n <= |b| then b[p..p + n] else if p <= |b| then b[p..] else []
  }

  /** `times` slices of `custom` bytes from `p` on, each after the common block. */
  function CutWeave(common: seq<byte>, b: seq<byte>, p: nat, custom: nat, times: nat): seq<byte> {
    if times == 0 then []
    else CutWeave(common, b, p, custom, times - 1) + common + Cut(b, p + custom * (times - 1), custom)
  }

  /** What an instruction produces from the file. */
  function CutOutput(h: Header, b: seq<byte>): seq<byte> {
    if h.op == 0 then Zeros(h.count)
    else if h.op == 1 then Cut(b, h.next, h.count)
    else if h.op == 2 then Times(h.extra + 1, Cut(b, h.next, h.count))
    else if h.op == 3 then
      var common := Cut(b, h.next, h.count);
      CutWeave(common, b, h.next + h.count, h.extra, h.times) + common
    else CutWeave(Zeros(h.count), b, h.next, h.extra, h.times) + Zeros(h.count)
  }

  /** The expansion of the section [p, end) of a file; None where the script
      raises an error. */
  function Script(b: seq<byte>, p: nat, end: nat, out: seq<byte>): Option<seq<byte>>
    decreases end - p
  {
    if p >= end then Some(out)
    else if p >= |b| then None
    else
      match ParseHeader(b, p)
      case None => None
      case Some(h) => Script(b, h.next + PayloadLen(h), end, out + CutOutput(h, b))
  }

  /** The script: its loops over instructions and blocks, and the size it is told
      to expect, 0 for none. */
  method UnpackPattern(b: seq<byte>, off: nat, plen: nat, usize: nat) returns (r: Option<seq<byte>>)
    ensures var s := Script(b, off, off + plen, []);
      r == if s.Some? && usize != 0 && |s.value| != usize then None else s
  {
    hide ParseHeader, PayloadLen, CutOutput;
    var out: seq<byte>, p, end := [], off, off + plen;
    while p < end
      invariant Script(b, p, end, out) == Script(b, off, end, [])
      decreases end - p
    {
      if p >= |b| {
        return None;
      }
      var h := ReadInstruction(b, p);
      if h == None {
        return None;
      }
      var piece := Produce(h.value, b);
      out := out + piece;
      p := h.value.next + PayloadLen(h.value);
    }
    if usize != 0 && |out| != usize {
      return None;
    }
    return Some(out);
  }

  /** Read a number, `c & 0x80` asking for another group. */
  method ReadVarint(b: seq<byte>, start: nat) returns (r: Option<Number>)
    ensures r == ReadNumber(b, start, 0)
  {
    hide ReadNumber;
    var val: nat, p: nat := 0, start;
    while true
      invariant start <= p && ReadNumber(b, p, val) == ReadNumber(b, start, 0)
      decreases |b| - p
    {
      NumberStep(b, p, val);
      if p >= |b| {
        return None;
      }
      var c := b[p];
      p := p + 1;
      val := val * 0x80 + c % 0x80;
      if c < 0x80 {
        return Some(Number(val, p));
      }
    }
  }

  /** Read an instruction and its arguments. */
  method ReadInstruction(b: seq<byte>, p: nat) returns (r: Option<Header>)
    requires p < |b|
    ensures r == ParseHeader(b, p)
  {
    hide ReadNumber;
    var op, cnt := b[p] as int / 32, b[p] as int % 32;
    if op > 4 {
      return None;
    }
    var a := Some(Number(cnt, p + 1));
    if cnt == 0 {
      a := ReadVarint(b, p + 1);
    }
    if a == None {
      return None;
    }
    if op <= 1 {
      return Some(Header(op, a.value.v, 0, 0, a.value.next));
    }
    var x := ReadVarint(b, a.value.next);
    if x == None {
      return None;
    }
    if op == 2 {
      return Some(Header(op, a.value.v, x.value.v, 0, x.value.next));
    }
    var t := ReadVarint(b, x.value.next);
    if t == None {
      return None;
    }
    return Some(Header(op, a.value.v, x.value.v, t.value.v, t.value.next));
  }

  method Produce(h: Header, b: seq<byte>) returns (out: seq<byte>)
    ensures out == CutOutput(h, b)
  {
    if h.op == 0 {
      out := ZeroBlock(h.count);
    } else if h.op == 1 {
      out := Cut(b, h.next, h.count);
    } else if h.op == 2 {
      out := [];
      for r := 0 to h.extra + 1
        invariant out == Times(r, Cut(b, h.next, h.count))
      {
        out := out + Cut(b, h.next, h.count);
      }
    } else if h.op == 3 {
      out := ProduceWeave(Cut(b, h.next, h.count), b, h.next + h.count, h.extra, h.times);
    } else {
      var z := ZeroBlock(h.count);
      out := ProduceWeave(z, b, h.next, h.extra, h.times);
    }
  }

  method ProduceWeave(common: seq<byte>, b: seq<byte>, start: nat, custom: nat, rep: nat) returns (out: seq<byte>)
    ensures out == CutWeave(common, b, start, custom, rep) + common
  {
    hide Cut;
    out := [];
    var p := start;
    for r := 0 to rep
      invariant p == start + custom * r && out == CutWeave(common, b, start, custom, r)
    {
      out := out + common;
      out := out + Cut(b, p, custom);
      p := p + custom;
    }
    out := out + common;
  }

  /** Where the payload is all in the file nothing is cut. */
  lemma {:induction false} Uncut(h: Header, b: seq<byte>)
    requires h.next + PayloadLen(h) <= |b|
    ensures CutOutput(h, b) == Output(h, b[h.next..h.next + PayloadLen(h)])
  {
    hide Cut, Weave, CutWeave;
    var payload := b[h.next..h.next + PayloadLen(h)];
    if h.op == 3 {
      UncutWeave(payload[..h.count], b, h.next + h.count, h.extra, h.times, h.times);
      assert payload[..h.count] == b[h.next..h.next + h.count];
      assert payload[h.count..] == b[h.next + h.count..h.next + h.count + h.extra * h.times];
    } else if h.op > 3 {
      UncutWeave(Zeros(h.count), b, h.next, h.extra, h.times, h.times);
    }
  }

  lemma {:induction false} UncutWeave(common: seq<byte>, b: seq<byte>, p: nat, custom: nat, times: nat, all: nat)
    requires times <= all && p + custom * all <= |b|
    ensures custom * times <= custom * all
    ensures CutWeave(common, b, p, custom, times) == Weave(common, b[p..p + custom * all], custom, times)
  {
    hide Cut;
    MulLe(times, all, custom);
    if times > 0 {
      UncutWeave(common, b, p, custom, times - 1, all);
      assert custom * times == custom * (times - 1) + custom;
      Window(b, p, custom * all, custom * (times - 1), custom);
    }
  }

  /** Every number and every payload the expansion meets lies inside the section;
      what follows an unknown instruction does not matter. */
  predicate Contained(src: seq<byte>, p: nat)
    decreases |src| - p
  {
    p < |src| && src[p] / 32 <= 4 ==>
      && ParseHeader(src, p).Some?
      && var end := ParseHeader(src, p).value.next + PayloadLen(ParseHeader(src, p).value);
         end <= |src| && Contained(src, end)
  }

  /** An instruction that lies in the section reads the same in the file. */
  lemma {:induction false} InSection(b: seq<byte>, p: nat, end: nat)
    requires p < end <= |b| && ParseHeader(b[..end], p).Some?
    ensures ParseHeader(b, p) == ParseHeader(b[..end], p)
  {
    assert b == b[..end] + b[end..];
    HeaderFirst(b[..end], b[end..], p);
  }

  lemma {:induction false} UnknownFails(src: seq<byte>, p: nat)
    requires p < |src| && src[p] / 32 > 4
    ensures ParseHeader(src, p) == None
  {
  }

  /** The script gives what the format means exactly where numbers and payloads
      stay inside the section; elsewhere the format gives the stream no meaning. */
  lemma {:induction false} ScriptIsUnpack(b: seq<byte>, p: nat, end: nat, out: seq<byte>)
    requires p <= end <= |b|
    ensures Contained(b[..end], p) ==> Script(b, p, end, out) == Unpack(b[..end], p, out)
    ensures !Contained(b[..end], p) ==> Unpack(b[..end], p, out) == None
    decreases end - p
  {
    hide ParseHeader, PayloadLen, CutOutput, Output;
    var src := b[..end];
    if p < end {
      if src[p] / 32 > 4 {
        UnknownFails(src, p);
        UnknownFails(b, p);
      } else if ParseHeader(src, p).Some? {
        InSection(b, p, end);
        var h := ParseHeader(src, p).value;
        var e := h.next + PayloadLen(h);
        if e <= end {
          Uncut(h, b);
          assert src[h.next..e] == b[h.next..e];
          ScriptIsUnpack(b, e, end, out + Output(h, src[h.next..e]));
        }
      }
    }
  }

  /** What precedes a section does not matter. */
  lemma {:induction false} HeaderShift(a: seq<byte>, b: seq<byte>, p: nat)
    requires p < |b|
    ensures (a + b)[|a| + p] == b[p]
    ensures ParseHeader(a + b, |a| + p) ==
            if ParseHeader(b, p).None? then None
            else Some(ParseHeader(b, p).value.(next := ParseHeader(b, p).value.next + |a|))
  {
    if ParseHeader(b, p).Some? {
      HeaderSecond(a, b, p);
    } else {
      HeaderMissing(a, b, p);
    }
    hide ParseHeader;
  }

  lemma {:induction false} HeaderMissing(a: seq<byte>, b: seq<byte>, p: nat)
    requires p < |b| && ParseHeader(b, p).None?
    ensures ParseHeader(a + b, |a| + p).None?
  {
    hide ReadNumber;
    assert (a + b)[|a| + p] == b[p];
    NumberSecond(a, b, p + 1, 0);
    var c := Count(b, p);
    if c.Some? {
      NumberSecond(a, b, c.value.next, 0);
      var x := ReadNumber(b, c.value.next, 0);
      if x.Some? {
        NumberSecond(a, b, x.value.next, 0);
      }
    }
  }

  lemma {:induction false} SectionShift(a: seq<byte>, b: seq<byte>, p: nat, out: seq<byte>)
    requires p <= |b|
    ensures Unpack(a + b, |a| + p, out) == Unpack(b, p, out)
    ensures Contained(a + b, |a| + p) <==> Contained(b, p)
    decreases |b| - p
  {
    hide ParseHeader, PayloadLen, Output;
    if p < |b| {
      HeaderShift(a, b, p);
      if ParseHeader(b, p).Some? {
        var h := ParseHeader(b, p).value;
        var moved, end := h.(next := h.next + |a|), h.next + PayloadLen(h);
        MovedLen(h, moved);
        if end <= |b| {
          SamePayload(h, moved, b[h.next..end]);
          assert (a + b)[|a| + h.next..|a| + end] == b[h.next..end];
          SectionShift(a, b, end, out + Output(h, b[h.next..end]));
        }
      }
    }
  }

  lemma {:induction false} MovedLen(h: Header, k: Header)
    requires k == h.(next := k.next)
    ensures PayloadLen(k) == PayloadLen(h)
  {
  }

  /** What the decoder finishes with on a contained section of a file is what the
      script returns, exactly if every instruction it carried out is harmless. */
  lemma {:induction false} FinishedIsScript(b: seq<byte>, off: nat, end: nat, cap: nat)
    requires off <= end <= |b| && end - off < TWO32 && cap < TWO32
    requires Contained(b[off..end], 0) && Expand(b[off..end], 0, [], cap).Finished?
    ensures HarmlessRun(b[off..end], 0, 0, cap) <==>
            Script(b, off, end, []) == Some(Expand(b[off..end], 0, [], cap).out)
  {
    hide Expand, Unpack, Script, HarmlessRun, Contained;
    var src := b[off..end];
    FinishedRight(src, 0, [], cap);
    assert b[..end] == b[..off] + src;
    SectionShift(b[..off], src, 0, []);
    ScriptIsUnpack(b, off, end, []);
  }

  /** Outside contained sections the two may agree by accident: a block copy of
      2^32 + 1 bytes is one of 1 byte to the decoder, and is cut to the one byte
      left in the file by the script. */
  lemma {:induction false} CutShortAgrees()
    ensures var src: seq<byte> := [0x20, 0x90, 0x80, 0x80, 0x80, 0x01, 0x58];
      && Expand(src, 0, [], 1) == Finished([0x58]) && Script(src, 0, 7, []) == Some([0x58])
      && !Contained(src, 0) && !HarmlessRun(src, 0, 0, 1)
  {
    var src: seq<byte> := [0x20, 0x90, 0x80, 0x80, 0x80, 0x01, 0x58];
    LongCount(src);
    var h := Header(1, TWO32 + 1, 0, 0, 6);
    assert ParseHeader(src, 0) == Some(h);
    CopyOne(src, h);
  }

  lemma {:induction false} LongCount(src: seq<byte>)
    requires |src| == 7 && src[1] == 0x90 && src[2] == src[3] == src[4] == 0x80 && src[5] == 1
    ensures ReadNumber(src, 1, 0) == Some(Number(TWO32 + 1, 6))
  {
    hide ReadNumber;
    NumberStep(src, 1, 0);
    NumberStep(src, 2, 0x10);
    NumberStep(src, 3, 0x800);
    NumberStep(src, 4, 0x40000);
    NumberStep(src, 5, 0x2000000);
  }

  lemma {:induction false} CopyOne(src: seq<byte>, h: Header)
    requires |src| == 7 && src[0] == 0x20 && src[6] == 0x58
    requires ParseHeader(src, 0) == Some(h) && h == Header(1, TWO32 + 1, 0, 0, 6)
    ensures Expand(src, 0, [], 1) == Finished([0x58]) && Script(src, 0, 7, []) == Some([0x58])
    ensures !Contained(src, 0) && !HarmlessRun(src, 0, 0, 1)
  {
    hide ParseHeader;
    assert Low(h) == Header(1, 1, 0, 0, 6);
    assert src[6..7] == [0x58] && src[6..] == [0x58] && [] + [0x58] == [0x58];
    ExpandEnd(src, 7, [0x58], 1);
    assert CutOutput(h, src) == [0x58];
  }
}
