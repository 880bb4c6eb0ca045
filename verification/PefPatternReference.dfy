/** The bounded decoder of pattern-initialized data against the reference
    semantics: where they agree, exactly. */
module PefPatternReference {
  import opened Bytes
  import opened PefPattern

  /** Every argument the reference meets fits 32 bits. */
  predicate Narrow(src: seq<byte>, p: nat)
    decreases |src| - p
  {
    p < |src| && ParseHeader(src, p).Some? ==>
      var h := ParseHeader(src, p).value;
      Is32(h) && (h.next + PayloadLen(h) <= |src| ==> Narrow(src, h.next + PayloadLen(h)))
  }

  lemma {:induction false} UnpackExtends(src: seq<byte>, p: nat, out: seq<byte>)
    ensures Unpack(src, p, out).Some? ==> out <= Unpack(src, p, out).value
    decreases |src| - p
  {
    hide ParseHeader, PayloadLen, Output;
    if p < |src| && ParseHeader(src, p).Some? {
      var h := ParseHeader(src, p).value;
      var end := h.next + PayloadLen(h);
      if end <= |src| {
        UnpackExtends(src, end, out + Output(h, src[h.next..end]));
      }
    }
  }

  lemma {:induction false} LowIs(h: Header)
    requires Is32(h)
    ensures Low(h) == h
  {
  }

  /** With arguments of 32 bits the decoder finishes exactly when the reference
      gives a result that fits and no repeat runs forever, and then with that
      result. */
  lemma {:induction false} ExpandIsUnpack(src: seq<byte>, p: nat, out: seq<byte>, cap: nat)
    requires Narrow(src, p) && |out| <= cap
    ensures var r, u := Expand(src, p, out, cap), Unpack(src, p, out);
      && (r.Finished? <==> u.Some? && |u.value| <= cap && RepeatsEnd(src, p, |out|, cap))
      && (r.Finished? ==> r.out == u.value)
    decreases |src| - p
  {
    hide ParseHeader, PayloadLen, OutputLen, Output, Low;
    if p < |src| && ParseHeader(src, p).Some? {
      var h := ParseHeader(src, p).value;
      LowIs(h);
      var end := h.next + PayloadLen(h);
      if end <= |src| {
        var o := out + Output(h, src[h.next..end]);
        OutputSize(h, src[h.next..end]);
        UnpackExtends(src, end, o);
        if |out| + OutputLen(h) <= cap {
          ExpandIsUnpack(src, end, o, cap);
        }
      }
    }
  }

  /** The decoder runs forever exactly when it carries out a repeat that does. */
  lemma {:induction false} EndlessExactly(src: seq<byte>, p: nat, out: seq<byte>, cap: nat)
    ensures Expand(src, p, out, cap).Endless? <==> !RepeatsEnd(src, p, |out|, cap)
    decreases |src| - p
  {
    hide ParseHeader, PayloadLen, OutputLen, Output, Low;
    if p < |src| && ParseHeader(src, p).Some? {
      LowNext(ParseHeader(src, p).value);
      var h := Low(ParseHeader(src, p).value);
      var end := h.next + PayloadLen(h);
      if end <= |src| && !NeverEnds(h) && |out| + OutputLen(h) <= cap {
        OutputSize(h, src[h.next..end]);
        EndlessExactly(src, end, out + Output(h, src[h.next..end]), cap);
      }
    }
  }

  lemma {:induction false} WeaveEmpty(data: seq<byte>, times: nat)
    ensures Weave([], data, 0, times) == []
  {
    if times > 0 {
      WeaveEmpty(data, times - 1);
    }
  }

  /** The reduction of the arguments to 32 bits changes nothing: they fit, or
      what is reduced has no effect. */
  predicate Harmless(h: Header) {
    if h.op <= 1 then h.count < TWO32
    else if h.op == 2 then h.count == 0 || (h.count < TWO32 && h.extra < TWO32)
    else (h.times == 0 && h.count < TWO32) || (h.count == 0 && h.extra == 0) || Is32(h)
  }

  /** An instruction is harmless if its payload and output fit 32 bits. */
  lemma {:induction false} SmallIsHarmless(h: Header)
    requires h.op <= 4 && PayloadLen(h) < TWO32 && OutputLen(h) < TWO32
    ensures Harmless(h)
  {
    if h.op == 2 {
      if h.count > 0 {
        MulLe(1, h.count, h.extra + 1);
      }
    } else if h.op > 2 {
      var sum := h.count + h.extra;
      MulLe(0, sum, h.times);
      if h.times > 0 && sum > 0 {
        MulLe(1, h.times, sum);
        MulLe(1, sum, h.times);
      }
    }
  }

  lemma {:induction false} HarmlessSame(h: Header, payload: seq<byte>)
    requires h.op <= 4 && Harmless(h) && |payload| == PayloadLen(h)
    ensures PayloadLen(Low(h)) == PayloadLen(h) && OutputLen(Low(h)) == OutputLen(h)
    ensures Output(Low(h), payload) == Output(h, payload)
  {
    if h.op == 2 {
      if h.count == 0 {
        TimesSize(h.extra + 1, payload);
        TimesSize(h.extra % TWO32 + 1, payload);
      }
      hide Times;
    } else if h.op > 2 {
      WeaveSame(h, payload);
    }
  }

  lemma {:induction false} WeaveSame(h: Header, payload: seq<byte>)
    requires 3 <= h.op <= 4 && Harmless(h) && |payload| == PayloadLen(h)
    ensures PayloadLen(Low(h)) == PayloadLen(h) && OutputLen(Low(h)) == OutputLen(h)
    ensures Output(Low(h), payload) == Output(h, payload)
  {
    if Is32(h) {
      LowIs(h);
      hide Output, PayloadLen, OutputLen;
    } else if h.count + h.extra == 0 {
      WeaveEmpty(payload, h.times);
      WeaveEmpty(payload, h.times % TWO32);
      hide Weave;
    } else {
      NoTimes(h, payload);
      hide Output, PayloadLen, OutputLen;
    }
  }

  lemma {:induction false} NoTimes(h: Header, payload: seq<byte>)
    requires 3 <= h.op <= 4 && h.times == 0 && h.count < TWO32 && |payload| == PayloadLen(h)
    ensures PayloadLen(Low(h)) == PayloadLen(h) && OutputLen(Low(h)) == OutputLen(h)
    ensures Output(Low(h), payload) == Output(h, payload)
  {
    assert h.extra * h.times == 0 && h.extra % TWO32 * h.times == 0;
    var common := if h.op == 3 then payload[..h.count] else Zeros(h.count);
    var data := if h.op == 3 then payload[h.count..] else payload;
    WeaveNone(common, data, h.extra);
    WeaveNone(common, data, h.extra % TWO32);
    hide Weave, Zeros;
  }

  /** Every instruction the decoder carries out, and the one it stops at, is
      harmless. */
  predicate HarmlessRun(src: seq<byte>, p: nat, o: nat, cap: nat)
    decreases |src| - p
  {
    p < |src| && ParseHeader(src, p).Some? ==>
      var h := Low(ParseHeader(src, p).value);
      var end := h.next + PayloadLen(h);
      && Harmless(ParseHeader(src, p).value)
      && (end <= |src| && o + OutputLen(h) <= cap ==> HarmlessRun(src, end, o + OutputLen(h), cap))
  }

  /** Whatever the size of the numbers in the stream, the decoder finishes with
      the reference result exactly when there is one, it fits and no repeat runs
      forever. */
  lemma {:induction false} ExpandIsReference(src: seq<byte>, cap: nat)
    requires |src| < TWO32 && cap < TWO32
    ensures var r, u := Expand(src, 0, [], cap), Unpack(src, 0, []);
      r.Finished? && u == Some(r.out) <==> u.Some? && |u.value| <= cap && RepeatsEnd(src, 0, 0, cap)
  {
    ExpandFits(src, 0, [], cap);
    EndlessExactly(src, 0, [], cap);
    if Unpack(src, 0, []).Some? && |Unpack(src, 0, []).value| <= cap {
      ReferenceAccepted(src, 0, [], cap);
    }
    hide Expand, Unpack, RepeatsEnd;
  }

  /** What the decoder finishes with is the reference result exactly when every
      instruction it carried out is harmless; otherwise the reference fails or
      gives more than the destination holds. */
  lemma {:induction false} FinishedRight(src: seq<byte>, p: nat, out: seq<byte>, cap: nat)
    requires |src| < TWO32 && |out| <= cap < TWO32 && Expand(src, p, out, cap).Finished?
    ensures var r, u := Expand(src, p, out, cap), Unpack(src, p, out);
      && (HarmlessRun(src, p, |out|, cap) <==> u == Some(r.out))
      && (HarmlessRun(src, p, |out|, cap) <==> u.Some? && |u.value| <= cap)
    decreases |src| - p
  {
    hide ParseHeader, PayloadLen, OutputLen, Output, Low, Harmless;
    if p < |src| {
      var h := ParseHeader(src, p).value;
      var low := Low(h);
      LowNext(h);
      var end := low.next + PayloadLen(low);
      OutputSize(low, src[low.next..end]);
      var o := out + Output(low, src[low.next..end]);
      if Harmless(h) {
        SameStep(src, h);
        FinishedRight(src, end, o, cap);
      } else {
        HarmfulFails(src, p, h, out, cap);
        ExpandFits(src, end, o, cap);
      }
    }
  }

  lemma {:induction false} SameStep(src: seq<byte>, h: Header)
    requires h.op <= 4 && Harmless(h) && h.next + PayloadLen(Low(h)) <= |src|
    ensures PayloadLen(Low(h)) == PayloadLen(h) && OutputLen(Low(h)) == OutputLen(h)
    ensures var payload := src[h.next..h.next + PayloadLen(h)];
      Output(Low(h), payload) == Output(h, payload)
  {
    hide Harmless, Output, PayloadLen, OutputLen, Low;
    var some := Zeros(PayloadLen(h));
    HarmlessSame(h, some);
    HarmlessSame(h, src[h.next..h.next + PayloadLen(h)]);
  }

  /** The reference does not get past a harmful instruction with a result that
      fits. */
  lemma {:induction false} HarmfulFails(src: seq<byte>, p: nat, h: Header, out: seq<byte>, cap: nat)
    requires |src| < TWO32 && cap < TWO32 && p < |src| && ParseHeader(src, p) == Some(h) && !Harmless(h)
    ensures Unpack(src, p, out).Some? ==> |Unpack(src, p, out).value| > cap
  {
    hide ParseHeader, PayloadLen, OutputLen, Output, Harmless;
    var end := h.next + PayloadLen(h);
    if end <= |src| {
      if OutputLen(h) < TWO32 {
        SmallIsHarmless(h);
      }
      OutputSize(h, src[h.next..end]);
      UnpackExtends(src, end, out + Output(h, src[h.next..end]));
    }
  }

  lemma {:induction false} ExpandFits(src: seq<byte>, p: nat, out: seq<byte>, cap: nat)
    requires |out| <= cap
    ensures |Expand(src, p, out, cap).out| <= cap
    decreases |src| - p
  {
    hide ParseHeader, PayloadLen, OutputLen, Output, Low;
    if p < |src| && ParseHeader(src, p).Some? {
      var h := Low(ParseHeader(src, p).value);
      LowNext(ParseHeader(src, p).value);
      var end := h.next + PayloadLen(h);
      if end <= |src| && !NeverEnds(h) && |out| + OutputLen(h) <= cap {
        OutputSize(h, src[h.next..end]);
        ExpandFits(src, end, out + Output(h, src[h.next..end]), cap);
      }
    }
  }

  lemma {:induction false} LowNext(h: Header)
    ensures Low(h).next == h.next
  {
  }

  lemma {:induction false} ReferenceAccepted(src: seq<byte>, p: nat, out: seq<byte>, cap: nat)
    requires |src| < TWO32 && cap < TWO32
    requires Unpack(src, p, out).Some? && |Unpack(src, p, out).value| <= cap
    ensures var r := Expand(src, p, out, cap);
      r.Endless? || r == Finished(Unpack(src, p, out).value)
    decreases |src| - p
  {
    hide ParseHeader, PayloadLen, OutputLen, Output, Low;
    if p < |src| {
      var h := ParseHeader(src, p).value;
      var end := h.next + PayloadLen(h);
      var payload := src[h.next..end];
      OutputSize(h, payload);
      UnpackExtends(src, end, out + Output(h, payload));
      LowNext(h);
      SmallIsHarmless(h);
      HarmlessSame(h, payload);
      ReferenceAccepted(src, end, out + Output(h, payload), cap);
    }
  }

  /** A harmful stream: a count of 2^32 zeros is taken as a count of none. */
  lemma {:induction false} WideCountDiffers()
    ensures var src: seq<byte> := [0x00, 0x90, 0x80, 0x80, 0x80, 0x00];
      && !HarmlessRun(src, 0, 0, 0) && Expand(src, 0, [], 0) == Finished([])
      && Unpack(src, 0, []).Some? && |Unpack(src, 0, []).value| == TWO32
  {
    hide Zeros;
    var src: seq<byte> := [0x00, 0x90, 0x80, 0x80, 0x80, 0x00];
    WideCount(src);
    var h := Header(0, TWO32, 0, 0, 6);
    assert ParseHeader(src, 0) == Some(h);
    assert Low(h) == Header(0, 0, 0, 0, 6);
    OneInstruction(src, h);
    assert !Harmless(h);
  }

  lemma {:induction false} WideCount(src: seq<byte>)
    requires |src| == 6 && src[1] == 0x90 && src[2] == src[3] == src[4] == 0x80 && src[5] == 0
    ensures ReadNumber(src, 1, 0) == Some(Number(TWO32, 6))
  {
    hide ReadNumber;
    NumberStep(src, 1, 0);
    NumberStep(src, 2, 0x10);
    NumberStep(src, 3, 0x800);
    NumberStep(src, 4, 0x40000);
    NumberStep(src, 5, 0x2000000);
  }

  lemma {:induction false} OneInstruction(src: seq<byte>, h: Header)
    requires |src| == 6 && ParseHeader(src, 0) == Some(h) && h.op == 0 && h.next == 6 && Low(h).count == 0
    ensures Expand(src, 0, [], 0) == Finished([])
    ensures Unpack(src, 0, []) == Some(Zeros(h.count))
  {
    hide ParseHeader, Zeros;
    ExpandEnd(src, 6, [], 0);
    assert Zeros(0) == [];
    assert [] + Zeros(h.count) == Zeros(h.count);
    assert Unpack(src, 6, Zeros(h.count)) == Some(Zeros(h.count));
  }

  /** The reference starts over at the end of a complete stream: expanding two
      streams in a row gives their expansions in a row. */
  lemma {:induction false} UnpackConcat(a: seq<byte>, b: seq<byte>)
    requires Unpack(a, 0, []).Some? && Unpack(b, 0, []).Some?
    ensures Unpack(a + b, 0, []) == Some(Unpack(a, 0, []).value + Unpack(b, 0, []).value)
  {
    hide Unpack, ParseHeader;
    var x := Unpack(a, 0, []).value;
    UnpackFirst(a, b, 0, []);
    UnpackSecond(a, b, 0, [], x);
    assert x + [] == x;
  }

  lemma {:induction false} NumberFirst(a: seq<byte>, b: seq<byte>, p: nat, acc: nat)
    requires ReadNumber(a, p, acc).Some?
    ensures ReadNumber(a + b, p, acc) == ReadNumber(a, p, acc)
    decreases |a| - p
  {
    assert (a + b)[p] == a[p];
    if a[p] >= 0x80 {
      NumberFirst(a, b, p + 1, acc * 0x80 + a[p] % 0x80);
    }
  }

  function Moved(n: Option<Number>, k: nat): Option<Number> {
    match n
    case None => None
    case Some(x) => Some(Number(x.v, x.next + k))
  }

  lemma {:induction false} NumberSecond(a: seq<byte>, b: seq<byte>, p: nat, acc: nat)
    ensures ReadNumber(a + b, |a| + p, acc) == Moved(ReadNumber(b, p, acc), |a|)
    decreases |b| - p
  {
    if p < |b| {
      assert (a + b)[|a| + p] == b[p];
      if b[p] >= 0x80 {
        NumberSecond(a, b, p + 1, acc * 0x80 + b[p] % 0x80);
      }
    }
  }

  lemma {:induction false} HeaderFirst(a: seq<byte>, b: seq<byte>, p: nat)
    requires p < |a| && ParseHeader(a, p).Some?
    ensures ParseHeader(a + b, p) == ParseHeader(a, p)
  {
    hide ReadNumber;
    assert (a + b)[p] == a[p];
    var h := ParseHeader(a, p).value;
    if a[p] % 32 == 0 {
      NumberFirst(a, b, p + 1, 0);
    }
    if h.op >= 2 {
      var n := Count(a, p).value.next;
      NumberFirst(a, b, n, 0);
      if h.op > 2 {
        NumberFirst(a, b, ReadNumber(a, n, 0).value.next, 0);
      }
    }
  }

  lemma {:induction false} HeaderSecond(a: seq<byte>, b: seq<byte>, p: nat)
    requires p < |b| && ParseHeader(b, p).Some?
    ensures var h := ParseHeader(b, p).value;
      ParseHeader(a + b, |a| + p) == Some(h.(next := h.next + |a|))
  {
    hide ReadNumber;
    assert (a + b)[|a| + p] == b[p];
    var h := ParseHeader(b, p).value;
    NumberSecond(a, b, p + 1, 0);
    if h.op >= 2 {
      var n := Count(b, p).value.next;
      NumberSecond(a, b, n, 0);
      if h.op > 2 {
        NumberSecond(a, b, ReadNumber(b, n, 0).value.next, 0);
      }
    }
  }

  lemma {:induction false} UnpackFirst(a: seq<byte>, b: seq<byte>, p: nat, out: seq<byte>)
    requires p <= |a| && Unpack(a, p, out).Some?
    ensures Unpack(a + b, p, out) == Unpack(a + b, |a|, Unpack(a, p, out).value)
    decreases |a| - p
  {
    hide ParseHeader, PayloadLen, Output;
    if p < |a| {
      var h := ParseHeader(a, p).value;
      var end := h.next + PayloadLen(h);
      HeaderFirst(a, b, p);
      assert (a + b)[h.next..end] == a[h.next..end];
      UnpackFirst(a, b, end, out + Output(h, a[h.next..end]));
    }
  }

  lemma {:induction false} UnpackSecond(a: seq<byte>, b: seq<byte>, p: nat, out: seq<byte>, pre: seq<byte>)
    requires p <= |b| && Unpack(b, p, out).Some?
    ensures Unpack(a + b, |a| + p, pre + out) == Some(pre + Unpack(b, p, out).value)
    decreases |b| - p
  {
    hide ParseHeader, PayloadLen, Output;
    if p < |b| {
      var h := ParseHeader(b, p).value;
      var end := h.next + PayloadLen(h);
      HeaderSecond(a, b, p);
      var moved := h.(next := h.next + |a|);
      SamePayload(h, moved, b[h.next..end]);
      assert (a + b)[|a| + h.next..|a| + end] == b[h.next..end];
      UnpackSecond(a, b, end, out + Output(h, b[h.next..end]), pre);
      assert pre + out + Output(h, b[h.next..end]) == pre + (out + Output(h, b[h.next..end]));
    }
  }

  lemma {:induction false} SamePayload(h: Header, k: Header, payload: seq<byte>)
    requires k == h.(next := k.next) && |payload| == PayloadLen(h)
    ensures PayloadLen(k) == PayloadLen(h) && Output(k, payload) == Output(h, payload)
  {
  }
}
