/**
 The bit copier of the field I/O code (src/uacpi/io.c:28-95): bits are moved eight
 at a time between two buffers at unrelated bit offsets.
 */
module BitCopy {
  import opened Arith
  import opened Bits

  /** A run of bits inside a buffer (`struct bit_span`). */
  class BitSpan {
    const data: array<byte>
    var index: nat
    var length: nat

    constructor (data: array<byte>, index: nat, length: nat)
      ensures this.data == data && this.index == index && this.length == length
    {
      this.data, this.index, this.length := data, index, length;
    }

    ghost predicate InBounds()
      reads this
    {
      index + length <= 8 * data.Length
    }

    /** Drops up to `bits` bits from the front of the span and says how many went. */
    method Offset(bits: nat) returns (delta: nat)
      modifies this
      ensures delta == if old(length) < bits then old(length) else bits
      ensures index == old(index) + delta && length + delta == old(length)
    {
      delta := if length < bits then length else bits;
      index := index + delta;
      length := length - delta;
    }
  }

  // -------------------------------------------------------------------------
  // One step of the copy, byte by byte

  /** Eight source bits starting `shift` bits into `lo`, cut to `count` bits. */
  function Gather(lo: byte, hi: byte, shift: bv8, count: bv8): (bits: byte)
    requires shift < 8 && count <= 8
  {
    var low := lo >> shift;
    var bits := if shift != 0 && count > 8 - shift then low | (hi << (8 - shift)) else low;
    if count < 8 then bits & ((1 << count) - 1) else bits
  }

  lemma GatherBits(lo: byte, hi: byte, shift: bv8, count: bv8, j: bv8)
    requires shift < 8 && count <= 8 && j < 8
    ensures (Gather(lo, hi, shift, count) >> j) & 1
         == if j >= count then 0
            else if j + shift < 8 then (lo >> (j + shift)) & 1 else (hi >> (j + shift - 8)) & 1
  {
  }

  lemma GatherBit(lo: byte, hi: byte, shift: nat, count: nat, j: nat)
    requires shift < 8 && count <= 8 && j < 8
    ensures TestBit(Gather(lo, hi, Small(shift), Small(count)), j)
         == (j < count && if j + shift < 8 then TestBit(lo, j + shift) else TestBit(hi, j + shift - 8))
  {
    SmallAdd(j, shift);
    SmallLess(j, count);
    GatherBits(lo, hi, Small(shift), Small(count), Small(j));
    if j + shift < 8 {
    } else {
    }
  }

  /** The mask of `count` bits moved up by `shift`, over two bytes. */
  function DepositMask(shift: bv8, count: bv8): (mask: bv16)
    requires shift < 8 && count <= 8
  {
    (if count < 8 then (1 << (count as bv16)) - 1 else 0xFF) << (shift as bv16)
  }

  /** Takes the bits of `bits` under `mask` and the others from `d`. */
  function Merge(d: byte, bits: byte, mask: byte): (r: byte) {
    (d & !mask) | (bits & mask)
  }

  /** Puts `count` bits into the byte that holds the first of them. */
  function DepositLow(d: byte, bits: byte, shift: bv8, count: bv8): (r: byte)
    requires shift < 8 && count <= 8
  {
    Merge(d, bits << shift, (DepositMask(shift, count) & 0xFF) as byte)
  }

  /** Puts the bits that do not fit into the following byte. */
  function DepositHigh(d: byte, bits: byte, shift: bv8, count: bv8): (r: byte)
    requires 0 < shift < 8 && count <= 8
  {
    Merge(d, bits >> (8 - shift), (DepositMask(shift, count) >> 8) as byte)
  }

  lemma DepositLowBits(d: byte, bits: byte, shift: bv8, count: bv8, j: bv8)
    requires shift < 8 && count <= 8 && j < 8
    ensures (DepositLow(d, bits, shift, count) >> j) & 1
         == if shift <= j < shift + count then (bits >> (j - shift)) & 1 else (d >> j) & 1
  {
    if shift == 0 {} else if shift == 1 {} else if shift == 2 {} else if shift == 3 {}
    else if shift == 4 {} else if shift == 5 {} else if shift == 6 {} else {}
  }

  lemma DepositHighBits(d: byte, bits: byte, shift: bv8, count: bv8, j: bv8)
    requires 0 < shift < 8 && count <= 8 && j < 8
    ensures (DepositHigh(d, bits, shift, count) >> j) & 1
         == if j + 8 < shift + count then (bits >> (j + 8 - shift)) & 1 else (d >> j) & 1
  {
    if shift == 1 {} else if shift == 2 {} else if shift == 3 {}
    else if shift == 4 {} else if shift == 5 {} else if shift == 6 {} else {}
  }

  lemma DepositLowBit(d: byte, bits: byte, shift: nat, count: nat, j: nat)
    requires shift < 8 && count <= 8 && j < 8
    ensures TestBit(DepositLow(d, bits, Small(shift), Small(count)), j)
         == if shift <= j < shift + count then TestBit(bits, j - shift) else TestBit(d, j)
  {
    DepositLowBits(d, bits, Small(shift), Small(count), Small(j));
    SmallLess(j, shift);
    if shift <= j {
      SmallAdd(j - shift, shift);
      SmallLess(j - shift, count);
    }
  }

  lemma DepositHighBit(d: byte, bits: byte, shift: nat, count: nat, j: nat)
    requires 0 < shift < 8 && count <= 8 && j < 8
    ensures TestBit(DepositHigh(d, bits, Small(shift), Small(count)), j)
         == if j + 8 < shift + count then TestBit(bits, j + 8 - shift) else TestBit(d, j)
  {
    DepositHighBits(d, bits, Small(shift), Small(count), Small(j));
    SmallLess(j, shift);
    if j < shift {
      SmallAdd(j + 8 - shift, shift);
      SmallLess(j + 8 - shift, count);
    }
  }

  // -------------------------------------------------------------------------
  // The copy loop

  /** Bits `at..at + n` of a buffer. */
  function Span(data: seq<byte>, at: nat, n: nat): (r: bits)
    requires at + n <= 8 * |data|
    ensures |r| == n
  {
    BitsOf(data)[at..at + n]
  }

  lemma SpanOfSpan(data: seq<byte>, at: nat, n: nat, from: nat, m: nat)
    requires at + n <= 8 * |data| && from + m <= n
    ensures Span(data, at, n)[from..from + m] == Span(data, at + from, m)
  {
  }

  lemma SpanIndex(data: seq<byte>, ptr: nat, shift: nat, j: nat)
    requires shift < 8 && j < 8 && 8 * ptr + shift + j < 8 * |data|
    ensures shift + j >= 8 ==> ptr + 1 < |data|
    ensures BitsOf(data)[8 * ptr + shift + j]
         == if shift + j < 8 then TestBit(data[ptr], shift + j) else TestBit(data[ptr + 1], shift + j - 8)
  {
    if shift + j < 8 {
      BitsOfIndex(data, ptr, shift + j);
      ByteBitsIndex(data[ptr], shift + j);
    } else {
      BitsOfIndex(data, ptr + 1, shift + j - 8);
      ByteBitsIndex(data[ptr + 1], shift + j - 8);
    }
  }

  /** Reads the next source bits; the second byte is only touched when it is needed. */
  method FetchBits(src: array<byte>, ptr: nat, shift: nat, left: nat) returns (b: byte)
    requires 0 < left && shift < 8 && 8 * ptr + shift + left <= 8 * src.Length
    ensures ByteBits(b) == Fit(Span(src[..], 8 * ptr + shift, if left < 8 then left else 8), 8)
  {
    var count := if left < 8 then left else 8;
    var hi := if shift != 0 && left > 8 - shift then src[ptr + 1] else 0;
    b := Gather(src[ptr], hi, Small(shift), Small(count));
    ghost var span := Span(src[..], 8 * ptr + shift, count);
    forall j | 0 <= j < 8
      ensures ByteBits(b)[j] == (j < |span| && span[j])
    {
      GatherBit(src[ptr], hi, shift, count, j);
      if j < count {
        SpanIndex(src[..], ptr, shift, j);
      }
    }
    FitByIndex(ByteBits(b), span);
  }

  /** Merges the bits that go into the byte holding the first of them. */
  method MergeLow(d: byte, b: byte, shift: nat, count: nat) returns (r: byte)
    requires shift < 8 && count <= 8
    ensures ByteBits(r) == Splice(ByteBits(d), shift, ByteBits(b)[..if shift + count <= 8 then count else 8 - shift])
  {
    r := DepositLow(d, b, Small(shift), Small(count));
    ghost var n := if shift + count <= 8 then count else 8 - shift;
    forall j | 0 <= j < 8
      ensures ByteBits(r)[j] == if shift <= j < shift + n then ByteBits(b)[j - shift] else ByteBits(d)[j]
    {
      DepositedLow(d, b, shift, count, j);
    }
    SpliceByIndex(ByteBits(r), ByteBits(d), shift, ByteBits(b), 0, n);
  }

  lemma DepositedLow(d: byte, b: byte, shift: nat, count: nat, j: nat)
    requires shift < 8 && count <= 8 && j < 8
    ensures ByteBits(DepositLow(d, b, Small(shift), Small(count)))[j]
         == if shift <= j < shift + count then ByteBits(b)[j - shift] else ByteBits(d)[j]
  {
    DepositLowBit(d, b, shift, count, j);
    ByteBitsIndex(DepositLow(d, b, Small(shift), Small(count)), j);
    ByteBitsIndex(d, j);
    if shift <= j {
      ByteBitsIndex(b, j - shift);
    }
  }

  /** Merges the bits that do not fit into the following byte. */
  method MergeHigh(d: byte, b: byte, shift: nat, count: nat) returns (r: byte)
    requires 0 < shift < 8 && count <= 8 < shift + count
    ensures ByteBits(r) == Splice(ByteBits(d), 0, ByteBits(b)[8 - shift..count])
  {
    r := DepositHigh(d, b, Small(shift), Small(count));
    forall j | 0 <= j < 8
      ensures ByteBits(r)[j] == if j + 8 < shift + count then ByteBits(b)[8 - shift + j] else ByteBits(d)[j]
    {
      DepositedHigh(d, b, shift, count, j);
    }
    SpliceByIndex(ByteBits(r), ByteBits(d), 0, ByteBits(b), 8 - shift, count);
  }

  lemma DepositedHigh(d: byte, b: byte, shift: nat, count: nat, j: nat)
    requires 0 < shift < 8 && count <= 8 && j < 8
    ensures ByteBits(DepositHigh(d, b, Small(shift), Small(count)))[j]
         == if j + 8 < shift + count then ByteBits(b)[j + 8 - shift] else ByteBits(d)[j]
  {
    DepositHighBit(d, b, shift, count, j);
    ByteBitsIndex(DepositHigh(d, b, Small(shift), Small(count)), j);
    ByteBitsIndex(d, j);
    if j + 8 < shift + count {
      ByteBitsIndex(b, j + 8 - shift);
    }
  }

  lemma UpdateByte(data: seq<byte>, i: nat, v: byte, shift: nat, piece: bits)
    requires i < |data| && shift + |piece| <= 8
    requires ByteBits(v) == Splice(ByteBits(data[i]), shift, piece)
    ensures BitsOf(data[i := v]) == Splice(BitsOf(data), 8 * i + shift, piece)
  {
    hide ByteBits, BitsOf, Splice;
    BitsOfUpdate(data, i, v);
    SpliceInner(BitsOf(data), 8 * i, 8, shift, piece);
  }

  lemma UpdateTwoBytes(data: seq<byte>, i: nat, low: byte, high: byte, shift: nat, p: bits, q: bits)
    requires i + 1 < |data| && shift + |p| == 8 && |q| <= 8
    requires ByteBits(low) == Splice(ByteBits(data[i]), shift, p)
    requires ByteBits(high) == Splice(ByteBits(data[i + 1]), 0, q)
    ensures BitsOf(data[i := low][i + 1 := high]) == Splice(BitsOf(data), 8 * i + shift, p + q)
  {
    hide ByteBits, BitsOf, Splice;
    var mid := data[i := low];
    assert mid[i + 1] == data[i + 1];
    UpdateByte(data, i, low, shift, p);
    UpdateByte(mid, i + 1, high, 0, q);
    SpliceTwice(BitsOf(data), 8 * i + shift, p, q);
  }

  /** Writes the next destination bits; the second byte is only touched when it is needed. */
  method StoreBits(dst: array<byte>, ptr: nat, shift: nat, b: byte, left: nat)
    requires 0 < left && shift < 8 && 8 * ptr + shift + left <= 8 * dst.Length
    modifies dst
    ensures BitsOf(dst[..])
         == Splice(BitsOf(old(dst[..])), 8 * ptr + shift, ByteBits(b)[..if left < 8 then left else 8])
  {
    var count := if left < 8 then left else 8;
    var low := MergeLow(dst[ptr], b, shift, count);
    dst[ptr] := low;
    if shift != 0 && left > 8 - shift {
      var high := MergeHigh(dst[ptr + 1], b, shift, count);
      dst[ptr + 1] := high;
      assert dst[..] == old(dst[..])[ptr := low][ptr + 1 := high];
      ghost var p, q := ByteBits(b)[..8 - shift], ByteBits(b)[8 - shift..count];
      UpdateTwoBytes(old(dst[..]), ptr, low, high, shift, p, q);
      assert p + q == ByteBits(b)[..count];
    } else {
      assert dst[..] == old(dst[..])[ptr := low];
      UpdateByte(old(dst[..]), ptr, low, shift, ByteBits(b)[..count]);
    }
  }

  lemma ZeroByte()
    ensures ByteBits(0) == Zeroes(8)
  {
  }

  /** The eight bits that follow the first `done` ones, zeroes past the end. */
  function NextBits(s: bits, done: nat): (w: bits)
    ensures |w| == 8
  {
    if done < |s| then Fit(s[done..done + Least(|s| - done, 8)], 8) else Zeroes(8)
  }

  lemma NextBitsIndex(s: bits, done: nat, j: nat)
    requires j < 8
    ensures NextBits(s, done)[j] == (done + j < |s| && s[done + j])
  {
    if done < |s| {
      FitIndex(s[done..done + Least(|s| - done, 8)], 8, j);
    }
  }

  lemma NextBitsOfSpan(data: seq<byte>, at: nat, n: nat, done: nat, left: nat)
    requires at + n <= 8 * |data| && left == if done <= n then n - done else 0
    ensures NextBits(Span(data, at, n), done)
         == if left == 0 then Zeroes(8) else Fit(Span(data, at + done, Least(left, 8)), 8)
  {
    if left != 0 {
      SpanOfSpan(data, at, n, done, Least(left, 8));
    }
  }

  /** The first `done` bits of the copy are in place and nothing else has changed. */
  ghost predicate Progress(now: bits, before: bits, at: nat, s: bits, n: nat, done: nat)
    requires at + n <= |before| && done <= n
  {
    now == Splice(before, at, Fit(s, n)[..done])
  }

  lemma CopyRound(after: bits, mid: bits, before: bits, at: nat, s: bits, n: nat, done: nat, c: nat)
    requires at + n <= |before| && done < n && c == Least(n - done, 8)
    requires Progress(mid, before, at, s, n, done)
    requires after == Splice(mid, at + done, NextBits(s, done)[..c])
    ensures Progress(after, before, at, s, n, done + c)
  {
    var w := NextBits(s, done);
    forall k | 0 <= k < done + c
      ensures (Fit(s, n)[..done] + w[..c])[k] == Fit(s, n)[..done + c][k]
    {
      FitIndex(s, n, k);
      if done <= k {
        NextBitsIndex(s, done, k - done);
      }
    }
    assert Fit(s, n)[..done] + w[..c] == Fit(s, n)[..done + c];
    SpliceTwice(before, at, Fit(s, n)[..done], w[..c]);
  }

  /** The next bits of the source, zeroes once it has run out. */
  method FetchNext(src: BitSpan, ptr: nat, shift: nat, left: nat, ghost s: bits, ghost done: nat) returns (b: byte)
    requires src.InBounds() && shift < 8 && left == if done <= src.length then src.length - done else 0
    requires 0 < left ==> 8 * ptr + shift == src.index + done
    requires s == Span(src.data[..], src.index, src.length)
    ensures ByteBits(b) == NextBits(s, done)
  {
    hide BitsOf, ByteBits, Span, NextBits, Fit;
    NextBitsOfSpan(src.data[..], src.index, src.length, done, left);
    if left == 0 {
      ZeroByte();
      return 0;
    }
    b := FetchBits(src.data, ptr, shift, left);
  }

  /** One round of the loop: up to eight bits, zeroes once the source has run out. */
  method CopyEight(dst: BitSpan, src: BitSpan, dstPtr: nat, dstShift: nat, dstCount: nat,
                   srcPtr: nat, srcShift: nat, srcCount: nat,
                   ghost s: bits, ghost done: nat, ghost before: bits)
    requires dst.data != src.data && dst.InBounds() && src.InBounds()
    requires dstShift < 8 && 0 < dstCount == dst.length - done
    requires 8 * dstPtr + dstShift == dst.index + done
    requires srcShift < 8 && srcCount == if done <= src.length then src.length - done else 0
    requires 0 < srcCount ==> 8 * srcPtr + srcShift == src.index + done
    requires s == Span(src.data[..], src.index, src.length)
    requires |before| == 8 * dst.data.Length
    requires Progress(BitsOf(dst.data[..]), before, dst.index, s, dst.length, done)
    modifies dst.data
    ensures Progress(BitsOf(dst.data[..]), before, dst.index, s, dst.length, done + Least(dstCount, 8))
  {
    hide Splice, Fit, BitsOf, ByteBits, Span, NextBits;
    var b := FetchNext(src, srcPtr, srcShift, srcCount, s, done);
    StoreBits(dst.data, dstPtr, dstShift, b, dstCount);
    CopyRound(BitsOf(dst.data[..]), BitsOf(old(dst.data[..])), before, dst.index, s, dst.length, done,
              Least(dstCount, 8));
  }

  lemma CopyEnds(now: bits, before: bits, at: nat, s: bits, n: nat)
    requires at + n <= |before|
    ensures Progress(before, before, at, s, n, 0)
    ensures Progress(now, before, at, s, n, n) <==> now == Splice(before, at, Fit(s, n))
  {
    assert Fit(s, n)[..n] == Fit(s, n);
  }

  /**
   Copies the source span over the destination span. Destination bits past the end of
   a shorter source become zero; bits outside the destination span do not change.
   */
  method Copy(dst: BitSpan, src: BitSpan)
    requires dst.data != src.data
    requires dst.InBounds() && src.InBounds()
    modifies dst.data
    ensures BitsOf(dst.data[..])
         == Splice(BitsOf(old(dst.data[..])), dst.index, Fit(Span(src.data[..], src.index, src.length), dst.length))
  {
    hide Splice, Fit, BitsOf, Span;
    var dstPtr: nat, srcPtr: nat := dst.index / 8, src.index / 8;
    var dstCount: nat, dstShift := dst.length, dst.index % 8;
    var srcCount: nat, srcShift := src.length, src.index % 8;
    ghost var at, n, from, m := dst.index, dst.length, src.index, src.length;
    ghost var before := BitsOf(dst.data[..]);
    ghost var s := Span(src.data[..], from, m);
    ghost var done := 0;
    CopyEnds(before, before, at, s, n);
    while dstCount != 0
      invariant done <= n && dstCount == n - done
      invariant dstCount != 0 ==> 8 * dstPtr + dstShift == at + done
      invariant dstCount != 0 ==> srcCount == if done <= m then m - done else 0
      invariant srcCount != 0 && dstCount != 0 ==> 8 * srcPtr + srcShift == from + done
      invariant s == Span(src.data[..], from, m)
      invariant Progress(BitsOf(dst.data[..]), before, at, s, n, done)
      decreases dstCount
    {
      CopyEight(dst, src, dstPtr, dstShift, dstCount, srcPtr, srcShift, srcCount, s, done, before);

      if srcCount < 8 {
        srcCount := 0;
      } else {
        srcCount := srcCount - 8;
        srcPtr := srcPtr + 1;
      }
      done := done + Least(dstCount, 8);
      dstCount := if dstCount > 8 then dstCount - 8 else 0;
      dstPtr := dstPtr + 1;
    }
    CopyEnds(BitsOf(dst.data[..]), before, at, s, n);
  }
}
