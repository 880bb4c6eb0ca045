/** Pattern-initialized data: the expansion in 32-bit arithmetic against the
    reference semantics of the format. */
module PefPattern {
  import opened Bytes

  datatype Number = Number(v: nat, next: nat)

  /** A big-endian number of 7-bit groups, the last with its high bit clear. */
  function ReadNumber(src: seq<byte>, p: nat, acc: nat): (r: Option<Number>)
    ensures r.Some? ==> p < r.value.next <= |src|
    decreases |src| - p
  {
    if p >= |src| then None
    else
      var v := acc * 0x80 + src[p] % 0x80;
      if src[p] >= 0x80 then ReadNumber(src, p + 1, v) else Some(Number(v, p + 1))
  }

  /** An instruction and its arguments: `count`, then `extra` (a repeat count, or
      the custom size), then `times`. */
  datatype Header = Header(op: nat, count: nat, extra: nat, times: nat, next: nat)

  function Count(src: seq<byte>, p: nat): (r: Option<Number>)
    requires p < |src|
    ensures r.Some? ==> p < r.value.next <= |src|
  {
    if src[p] % 32 == 0 then ReadNumber(src, p + 1, 0) else Some(Number(src[p] % 32, p + 1))
  }

  function ParseHeader(src: seq<byte>, p: nat): (r: Option<Header>)
    requires p < |src|
    ensures r.Some? ==> p < r.value.next <= |src| && r.value.op <= 4
  {
    var op := src[p] / 32;
    var a := Count(src, p);
    if a.None? || op > 4 then None
    else if op <= 1 then Some(Header(op, a.value.v, 0, 0, a.value.next))
    else
      var b := ReadNumber(src, a.value.next, 0);
      if b.None? then None
      else if op == 2 then Some(Header(op, a.value.v, b.value.v, 0, b.value.next))
      else
        var c := ReadNumber(src, b.value.next, 0);
        if c.None? then None else Some(Header(op, a.value.v, b.value.v, c.value.v, c.value.next))
  }

  function PayloadLen(h: Header): nat {
    if h.op == 0 then 0
    else if h.op <= 2 then h.count
    else if h.op == 3 then h.count + h.extra * h.times
    else h.extra * h.times
  }

  function OutputLen(h: Header): nat {
    if h.op <= 1 then h.count
    else if h.op == 2 then h.count * (h.extra + 1)
    else (h.count + h.extra) * h.times + h.count
  }

  /** `times` blocks of `custom` bytes of `data`, each after the common block. */
  function Weave(common: seq<byte>, data: seq<byte>, custom: nat, times: nat): seq<byte>
    requires |data| >= custom * times
  {
    if times == 0 then []
    else
      assert custom * times == custom * (times - 1) + custom;
      Weave(common, data, custom, times - 1) + common + data[custom * (times - 1)..custom * times]
  }

  /** What an instruction produces from its payload. */
  function Output(h: Header, payload: seq<byte>): seq<byte>
    requires |payload| == PayloadLen(h)
  {
    if h.op == 0 then Zeros(h.count)
    else if h.op == 1 then payload
    else if h.op == 2 then Times(h.extra + 1, payload)
    else if h.op == 3 then
      Weave(payload[..h.count], payload[h.count..], h.extra, h.times) + payload[..h.count]
    else Weave(Zeros(h.count), payload, h.extra, h.times) + Zeros(h.count)
  }

  /** The reference expansion of src[p..]. */
  function Unpack(src: seq<byte>, p: nat, out: seq<byte>): Option<seq<byte>>
    decreases |src| - p
  {
    if p >= |src| then Some(out)
    else
      match ParseHeader(src, p)
      case None => None
      case Some(h) =>
        var end := h.next + PayloadLen(h);
        if end > |src| then None else Unpack(src, end, out + Output(h, src[h.next..end]))
  }

  /** The arguments as the 32-bit decoder holds them. */
  function Low(h: Header): Header {
    h.(count := h.count % TWO32, extra := h.extra % TWO32, times := h.times % TWO32)
  }

  /** A repeat count of 2^32 - 1, whose successor a 32-bit counter never reaches. */
  predicate NeverEnds(h: Header) { h.op == 2 && h.extra == TWO32 - 1 }

  datatype Run = Finished(out: seq<byte>) | Rejected(out: seq<byte>) | Endless(out: seq<byte>)

  /** The expansion with 32-bit arguments into `cap` bytes, up to the first
      instruction that is malformed, would overrun or never ends. */
  function Expand(src: seq<byte>, p: nat, out: seq<byte>, cap: nat): Run
    decreases |src| - p
  {
    if p >= |src| then Finished(out)
    else
      match ParseHeader(src, p)
      case None => Rejected(out)
      case Some(wide) =>
        var h := Low(wide);
        var end := h.next + PayloadLen(h);
        if end > |src| then Rejected(out)
        else if NeverEnds(h) then Endless(out)
        else if |out| + OutputLen(h) > cap then Rejected(out)
        else Expand(src, end, out + Output(h, src[h.next..end]), cap)
  }

  /** No instruction that is carried out on the way never ends. */
  predicate RepeatsEnd(src: seq<byte>, p: nat, o: nat, cap: nat)
    decreases |src| - p
  {
    p < |src| && ParseHeader(src, p).Some? ==>
      var h := Low(ParseHeader(src, p).value);
      var end := h.next + PayloadLen(h);
      end <= |src| ==>
        !NeverEnds(h) && (o + OutputLen(h) <= cap ==> RepeatsEnd(src, end, o + OutputLen(h), cap))
  }

  // ------------------------------------------------------- the bounds checks

  function W32(x: int): nat { x % TWO32 }

  function W64(x: int): nat { x % TWO64 }

  /** The source and destination checks of each instruction, with the 32-bit sums
      and 64-bit products the decoder computes them in. */
  predicate Refused(h: Header, p: nat, o: nat, srcLen: nat, dstLen: nat) {
    match h.op
    case 0 => W64(o + h.count) > dstLen
    case 1 => W64(p + h.count) > srcLen || W64(o + h.count) > dstLen
    case 2 => W64(p + h.count) > srcLen || W64(o + h.count * W32(h.extra + 1)) > dstLen
    case 3 =>
      W64(p + h.count + h.extra * h.times) > srcLen ||
      W64(o + W32(h.count + h.extra) * h.times + h.count) > dstLen
    case _ =>
      W64(p + h.extra * h.times) > srcLen ||
      W64(o + W32(h.count + h.extra) * h.times + h.count) > dstLen
  }

  predicate Is32(h: Header) { h.count < TWO32 && h.extra < TWO32 && h.times < TWO32 }

  lemma {:induction false} MulLe(a: int, c: int, b: int)
    requires 0 <= b && a <= c
    ensures a * b <= c * b && b * a <= b * c
  {
  }

  lemma {:induction false} Product(a: nat, b: nat)
    requires a < TWO32 && b < TWO32
    ensures 0 <= a * b <= TWO64 - 2 * TWO32 + 1
  {
    MulLe(a, TWO32 - 1, b);
    MulLe(b, TWO32 - 1, TWO32 - 1);
    MulLe(0, a, b);
  }

  lemma {:induction false} NoWrap(x: int)
    ensures 0 <= x < TWO64 ==> W64(x) == x
    ensures 0 <= x < TWO32 ==> W32(x) == x
    ensures TWO32 <= x < 2 * TWO32 ==> W32(x) == x - TWO32
  {
  }

  /** The checks refuse exactly the instructions whose payload or output would
      not fit. */
  lemma {:induction false} ChecksExact(h: Header, p: nat, o: nat, srcLen: nat, dstLen: nat)
    requires Is32(h) && h.op <= 4 && (h.op == 2 ==> h.extra + 1 < TWO32)
    requires p <= srcLen && o <= dstLen && srcLen + dstLen < TWO32
    ensures Refused(h, p, o, srcLen, dstLen) <==> p + PayloadLen(h) > srcLen || o + OutputLen(h) > dstLen
  {
    hide W32, W64;
    if h.op == 2 {
      RepeatCheck(h, p, o, srcLen, dstLen);
    } else if h.op >= 3 {
      SourceCheck(h, p, srcLen);
      if p + PayloadLen(h) <= srcLen {
        WeaveCheck(h, p, o, srcLen, dstLen);
      }
      hide OutputLen;
    } else {
      NoWrap(p + h.count);
      NoWrap(o + h.count);
    }
  }

  lemma {:induction false} RepeatCheck(h: Header, p: nat, o: nat, srcLen: nat, dstLen: nat)
    requires Is32(h) && h.op == 2 && h.extra + 1 < TWO32
    requires p <= srcLen && o <= dstLen && srcLen + dstLen < TWO32
    ensures W64(p + h.count) == p + PayloadLen(h)
    ensures W64(o + h.count * W32(h.extra + 1)) == o + OutputLen(h)
  {
    hide W32, W64;
    Product(h.count, h.extra + 1);
    NoWrap(h.extra + 1);
    NoWrap(o + h.count * (h.extra + 1));
    NoWrap(p + h.count);
  }

  lemma {:induction false} SourceCheck(h: Header, p: nat, srcLen: nat)
    requires Is32(h) && 3 <= h.op <= 4 && p <= srcLen < TWO32
    ensures W64(if h.op == 3 then p + h.count + h.extra * h.times else p + h.extra * h.times) == p + PayloadLen(h)
  {
    hide W64;
    Product(h.extra, h.times);
    NoWrap(p + PayloadLen(h));
  }

  /** The 32-bit sum of the two block sizes wraps only where the instruction is
      refused anyway. */
  lemma {:induction false} WeaveCheck(h: Header, p: nat, o: nat, srcLen: nat, dstLen: nat)
    requires Is32(h) && 3 <= h.op <= 4
    requires p <= srcLen && o <= dstLen && srcLen + dstLen < TWO32
    requires p + PayloadLen(h) <= srcLen
    ensures W64(o + W32(h.count + h.extra) * h.times + h.count) > dstLen <==> o + OutputLen(h) > dstLen
  {
    hide W32, W64;
    var sum := h.count + h.extra;
    NoWrap(sum);
    if h.times == 0 {
      NoWrap(o + h.count);
      assert W32(sum) * h.times == 0;
    } else if sum < TWO32 {
      Product(sum, h.times);
      NoWrap(o + sum * h.times + h.count);
    } else {
      WrappedSum(h, p, o, srcLen, dstLen);
    }
  }

  lemma {:induction false} WrappedSum(h: Header, p: nat, o: nat, srcLen: nat, dstLen: nat)
    requires Is32(h) && 3 <= h.op <= 4 && h.times > 0 && h.count + h.extra >= TWO32
    requires p <= srcLen && o <= dstLen && srcLen + dstLen < TWO32
    requires p + PayloadLen(h) <= srcLen
    ensures W64(o + (h.count + h.extra - TWO32) * h.times + h.count) > dstLen
    ensures o + OutputLen(h) > dstLen
  {
    hide W32, W64;
    var low := h.count + h.extra - TWO32;
    MulLe(1, h.times, h.extra);
    MulLe(low, h.extra, h.times);
    MulLe(0, low, h.times);
    MulLe(0, h.count + h.extra, h.times);
    var x, y := low * h.times, h.extra * h.times;
    assert x <= y <= srcLen;
    NoWrap(o + x + h.count);
  }

  /** For a repeat count of 2^32 - 1 the destination is not checked at all: its
      successor wraps to 0. */
  lemma {:induction false} RepeatUnchecked(h: Header, p: nat, o: nat, srcLen: nat, dstLen: nat)
    requires Is32(h) && h.op == 2 && h.extra + 1 == TWO32
    requires p <= srcLen && o <= dstLen && srcLen + dstLen < TWO32
    ensures Refused(h, p, o, srcLen, dstLen) <==> p + h.count > srcLen
    ensures o + OutputLen(h) > dstLen <==> h.count > 0
  {
    hide W64;
    NoWrap(p + h.count);
    NoWrap(o);
    if h.count > 0 {
      MulLe(1, h.count, TWO32);
    }
    assert h.count * W32(h.extra + 1) == 0;
  }

  /** The checks of an instruction agree with what fits unless it repeats a
      non-empty block, read from inside the source, 2^32 - 1 times. */
  lemma {:induction false} ChecksAgree(h: Header, p: nat, o: nat, srcLen: nat, dstLen: nat)
    requires Is32(h) && h.op <= 4
    requires p <= srcLen && o <= dstLen && srcLen + dstLen < TWO32
    ensures (Refused(h, p, o, srcLen, dstLen) <==> p + PayloadLen(h) > srcLen || o + OutputLen(h) > dstLen)
            <==> !(h.op == 2 && h.extra == TWO32 - 1 && 0 < h.count <= srcLen - p)
  {
    if h.op == 2 && h.extra == TWO32 - 1 {
      RepeatUnchecked(h, p, o, srcLen, dstLen);
    } else {
      ChecksExact(h, p, o, srcLen, dstLen);
    }
    hide Refused, OutputLen;
  }

  // ------------------------------------------------------------ the decoder

  /** A number as the decoder accumulates it, in 32 bits. */
  method PefVarCount(src: seq<byte>, start: nat) returns (ok: bool, v: u32, pos: nat)
    requires start <= |src|
    ensures var r := ReadNumber(src, start, 0);
      ok == r.Some? && (ok ==> v == r.value.v % TWO32 && pos == r.value.next)
  {
    hide ReadNumber;
    v, pos := 0, start;
    ghost var acc: nat := 0;
    while true
      invariant start <= pos <= |src| && v == acc % TWO32
      invariant ReadNumber(src, pos, acc) == ReadNumber(src, start, 0)
      decreases |src| - pos
    {
      NumberStep(src, pos, acc);
      if pos >= |src| {
        return false, v, pos;
      }
      var c := src[pos];
      pos := pos + 1;
      Low7(acc, c % 0x80);
      v := (v * 0x80 + c % 0x80) % TWO32;
      acc := acc * 0x80 + c % 0x80;
      if c < 0x80 {
        return true, v, pos;
      }
    }
  }

  lemma {:induction false} NumberStep(src: seq<byte>, p: nat, acc: nat)
    ensures ReadNumber(src, p, acc) ==
            if p >= |src| then None
            else
              var v := acc * 0x80 + src[p] % 0x80;
              if src[p] >= 0x80 then ReadNumber(src, p + 1, v) else Some(Number(v, p + 1))
  {
  }

  lemma {:induction false} Low7(acc: nat, d: nat)
    ensures (acc % TWO32 * 0x80 + d) % TWO32 == (acc * 0x80 + d) % TWO32
  {
    var q := acc / TWO32;
    assert acc * 0x80 + d == (acc % TWO32 * 0x80 + d) + TWO32 * (q * 0x80);
    AddMultiple(acc % TWO32 * 0x80 + d, q * 0x80);
  }

  /** The destination holds `out` and then what it held before. */
  ghost predicate Built(dst: seq<byte>, was: seq<byte>, out: seq<byte>) {
    |out| <= |dst| == |was| && dst == out + was[|out|..]
  }

  /** Append `piece` at `o`. */
  method Append(dst: array<byte>, o: nat, piece: seq<byte>, ghost was: seq<byte>, ghost out: seq<byte>)
    requires o == |out| && o + |piece| <= dst.Length && Built(dst[..], was, out)
    modifies dst
    ensures Built(dst[..], was, out + piece)
  {
    CopyInto(piece, dst, o);
    assert was[|out|..][|piece|..] == was[|out| + |piece|..];
  }

  /** Append the block `rep` + 1 times. */
  method Repeat(dst: array<byte>, o: nat, block: seq<byte>, rep: nat, ghost was: seq<byte>, ghost out: seq<byte>)
    requires o == |out| && o + |block| * (rep + 1) <= dst.Length && Built(dst[..], was, out)
    modifies dst
    ensures Built(dst[..], was, out + Times(rep + 1, block))
  {
    hide Built;
    var r, at := 0, o;
    assert out + Times(0, block) == out;
    while r <= rep
      invariant r <= rep + 1 && at == o + |block| * r == |out + Times(r, block)|
      invariant Built(dst[..], was, out + Times(r, block))
    {
      Fits(|block|, r, rep);
      Append(dst, at, block, was, out + Times(r, block));
      assert out + Times(r, block) + block == out + Times(r + 1, block);
      at := at + |block|;
      r := r + 1;
    }
  }

  lemma {:induction false} Fits(n: nat, r: nat, rep: nat)
    requires r <= rep
    ensures n * r + n == n * (r + 1) <= n * (rep + 1)
  {
    MulLe(r + 1, rep + 1, n);
  }

  /** Append `times` blocks of source bytes, each after the common block, and the
      common block once more. */
  method AppendWeave(dst: array<byte>, o: nat, common: seq<byte>, src: seq<byte>, p: nat, custom: nat, times: nat,
                     ghost was: seq<byte>, ghost out: seq<byte>)
    requires p + custom * times <= |src|
    requires o == |out| && o + (|common| + custom) * times + |common| <= dst.Length && Built(dst[..], was, out)
    modifies dst
    ensures Built(dst[..], was, out + (Weave(common, src[p..p + custom * times], custom, times) + common))
  {
    hide Built, Weave;
    ghost var data := src[p..p + custom * times];
    ghost var sofar: seq<byte> := [];
    WeaveNone(common, data, custom);
    assert out + [] == out;
    var width := |common| + custom;
    var r, at, q := 0, o, p;
    while r < times
      invariant r <= times && q == p + custom * r && at == |out + sofar| == o + width * r
      invariant custom * r <= custom * times && width * r <= width * times
      invariant sofar == Weave(common, data, custom, r)
      invariant Built(dst[..], was, out + sofar)
    {
      WeaveRoom(custom, r, times);
      WeaveRoom(width, r, times);
      ghost var i := custom * r;
      Window(src, p, |data|, i, custom);
      WeaveNext(common, data, custom, r);
      Append(dst, at, common, was, out + sofar);
      Append(dst, at + |common|, src[q..q + custom], was, out + sofar + common);
      Regroup(out, sofar, common, src[q..q + custom]);
      sofar := sofar + common + src[q..q + custom];
      at := at + width;
      q := q + custom;
      r := r + 1;
    }
    Append(dst, at, common, was, out + sofar);
    assert out + sofar + common == out + (sofar + common);
  }

  lemma {:induction false} WeaveRoom(n: nat, r: nat, times: nat)
    requires r < times
    ensures n * (r + 1) == n * r + n <= n * times
  {
    MulLe(r + 1, times, n);
  }

  lemma {:induction false} Regroup(a: seq<byte>, b: seq<byte>, c: seq<byte>, d: seq<byte>)
    ensures a + b + c + d == a + (b + c + d)
  {
  }

  lemma {:induction false} WeaveNone(common: seq<byte>, data: seq<byte>, custom: nat)
    ensures Weave(common, data, custom, 0) == []
  {
  }

  lemma {:induction false} WeaveNext(common: seq<byte>, data: seq<byte>, custom: nat, r: nat)
    requires |data| >= custom * (r + 1)
    ensures custom * (r + 1) == custom * r + custom
    ensures Weave(common, data, custom, r + 1) ==
            Weave(common, data, custom, r) + common + data[custom * r..custom * (r + 1)]
  {
    assert custom * (r + 1) == custom * r + custom;
  }

  /** Read an instruction and its arguments. */
  method ReadHeader(src: seq<byte>, start: nat) returns (ok: bool, h: Header)
    requires start < |src|
    ensures var r := ParseHeader(src, start);
      ok == r.Some? && (ok ==> h == Low(r.value))
  {
    hide ReadNumber;
    h := Header(0, 0, 0, 0, 0);
    var op, cnt, p := src[start] as int / 32, src[start] as int % 32, start + 1;
    if cnt == 0 {
      ok, cnt, p := PefVarCount(src, p);
      if !ok { return; }
    }
    if op > 4 {
      return false, h;
    }
    if op <= 1 {
      return true, Header(op, cnt, 0, 0, p);
    }
    var extra;
    ok, extra, p := PefVarCount(src, p);
    if !ok { return; }
    if op == 2 {
      return true, Header(op, cnt, extra, 0, p);
    }
    var times;
    ok, times, p := PefVarCount(src, p);
    if !ok { return; }
    h := Header(op, cnt, extra, times, p);
  }

  /** Carry out one instruction that passes its checks. */
  method Execute(src: seq<byte>, h: Header, dst: array<byte>, o: nat, ghost was: seq<byte>, ghost out: seq<byte>)
    requires h.op <= 4 && h.next + PayloadLen(h) <= |src|
    requires o == |out| && o + OutputLen(h) <= dst.Length && Built(dst[..], was, out)
    modifies dst
    ensures Built(dst[..], was, out + Output(h, src[h.next..h.next + PayloadLen(h)]))
  {
    hide Built;
    var p := h.next;
    if h.op == 0 {
      var z := ZeroBlock(h.count);
      Append(dst, o, z, was, out);
    } else if h.op == 1 {
      Append(dst, o, src[p..p + h.count], was, out);
    } else if h.op == 2 {
      Repeat(dst, o, src[p..p + h.count], h.extra, was, out);
    } else if h.op == 3 {
      ghost var payload := src[p..p + PayloadLen(h)];
      assert payload[..h.count] == src[p..p + h.count];
      assert payload[h.count..] == src[p + h.count..p + h.count + h.extra * h.times];
      AppendWeave(dst, o, src[p..p + h.count], src, p + h.count, h.extra, h.times, was, out);
    } else {
      var z := ZeroBlock(h.count);
      AppendWeave(dst, o, z, src, p, h.extra, h.times, was, out);
    }
  }

  /** Expand pattern-initialized data into `dst`; the loop of a repeat that never
      ends is not entered. */
  method PefExpandOne(src: seq<byte>, dst: array<byte>) returns (ok: bool)
    requires |src| + dst.Length < TWO32
    requires RepeatsEnd(src, 0, 0, dst.Length)
    modifies dst
    ensures var r := Expand(src, 0, [], dst.Length);
      !r.Endless? && ok == r.Finished? && Built(dst[..], old(dst[..]), r.out)
  {
    hide Built, Expand, RepeatsEnd, ParseHeader, OutputLen, PayloadLen, Refused, Output;
    ghost var was, out := dst[..], [];
    StartBuilt(was);
    var o, p := 0, 0;
    while p < |src|
      invariant p <= |src| && o == |out| <= dst.Length
      invariant RepeatsEnd(src, p, o, dst.Length)
      invariant Expand(src, p, out, dst.Length) == Expand(src, 0, [], dst.Length)
      invariant Built(dst[..], was, out)
    {
      ExpandStep(src, p, out, dst.Length);
      var h;
      ok, h := ReadHeader(src, p);
      if !ok {
        return;
      }
      ChecksAgree(h, h.next, o, |src|, dst.Length);
      if Refused(h, h.next, o, |src|, dst.Length) {
        return false;
      }
      Execute(src, h, dst, o, was, out);
      out := out + Output(h, src[h.next..h.next + PayloadLen(h)]);
      o := o + OutputLen(h);
      p := h.next + PayloadLen(h);
    }
    ExpandEnd(src, p, out, dst.Length);
    return true;
  }

  lemma {:induction false} StartBuilt(was: seq<byte>)
    ensures Built(was, was, [])
  {
  }

  lemma {:induction false} ExpandEnd(src: seq<byte>, p: nat, out: seq<byte>, cap: nat)
    requires p >= |src|
    ensures Expand(src, p, out, cap) == Finished(out)
  {
  }

  /** One instruction of the expansion. */
  lemma {:induction false} ExpandStep(src: seq<byte>, p: nat, out: seq<byte>, cap: nat)
    requires p < |src| && RepeatsEnd(src, p, |out|, cap)
    ensures match ParseHeader(src, p)
      case None => Expand(src, p, out, cap) == Rejected(out)
      case Some(wide) =>
        var h := Low(wide);
        var end := h.next + PayloadLen(h);
        && Is32(h) && h.op <= 4 && h.next <= |src|
        && (end <= |src| ==> !NeverEnds(h))
        && (NeverEnds(h) ==> end == h.next + h.count)
        && (if end > |src| || |out| + OutputLen(h) > cap then Expand(src, p, out, cap) == Rejected(out)
            else
              && |Output(h, src[h.next..end])| == OutputLen(h)
              && RepeatsEnd(src, end, |out| + OutputLen(h), cap)
              && Expand(src, p, out, cap) == Expand(src, end, out + Output(h, src[h.next..end]), cap))
  {
    if ParseHeader(src, p).Some? {
      var h := Low(ParseHeader(src, p).value);
      var end := h.next + PayloadLen(h);
      if end <= |src| {
        OutputSize(h, src[h.next..end]);
      }
      hide Output, OutputLen, ParseHeader;
    }
  }

  lemma {:induction false} OutputSize(h: Header, payload: seq<byte>)
    requires |payload| == PayloadLen(h)
    ensures |Output(h, payload)| == OutputLen(h)
  {
    if h.op == 2 {
      TimesSize(h.extra + 1, payload);
    } else if h.op == 3 {
      WeaveSize(payload[..h.count], payload[h.count..], h.extra, h.times);
    } else if h.op > 3 {
      WeaveSize(Zeros(h.count), payload, h.extra, h.times);
    }
  }

  lemma {:induction false} TimesSize(n: nat, s: seq<byte>)
    ensures |Times(n, s)| == |s| * n
  {
    if n > 0 {
      TimesSize(n - 1, s);
      Fits(|s|, n - 1, n - 1);
    }
  }

  lemma {:induction false} WeaveSize(common: seq<byte>, data: seq<byte>, custom: nat, times: nat)
    requires |data| >= custom * times
    ensures |Weave(common, data, custom, times)| == (|common| + custom) * times
  {
    if times > 0 {
      assert custom * times == custom * (times - 1) + custom;
      WeaveSize(common, data, custom, times - 1);
      Fits(|common| + custom, times - 1, times - 1);
    }
  }
}
