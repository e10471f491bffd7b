/**
 Fields of a plain buffer (src/uacpi/io.c:97-177). Byte-aligned fields take a path that
 moves whole bytes and repairs the last one; every other field goes through the bit copier.
 */
module BufferField {
  import opened Bits
  import opened BitCopy

  /** A bit range of a buffer (`uacpi_buffer_field`). */
  datatype Field = Field(bitIndex: nat, bitLength: nat) {
    /** What `handle_create_buffer_field` checks before it makes one. */
    predicate Fits(size: nat) {
      0 < bitLength && bitIndex + bitLength <= 8 * size
    }
  }

  function RoundUpBitsToBytes(bitLength: nat): (n: nat)
    ensures 8 * n >= bitLength && 8 * n < bitLength + 8
  {
    (bitLength + 7) / 8
  }

  /** The value of a field: its bits. */
  function Value(backing: seq<byte>, f: Field): (r: bits)
    requires f.Fits(|backing|)
    ensures |r| == f.bitLength
  {
    Span(backing, f.bitIndex, f.bitLength)
  }

  // -------------------------------------------------------------------------
  // Byte moves

  /** `uacpi_memcpy_zerout` into `dst` at `at`. */
  method MemcpyZerout(dst: array<byte>, at: nat, src: array<byte>, from: nat, dstSize: nat, srcSize: nat)
    requires dst != src && at + dstSize <= dst.Length && from + srcSize <= src.Length
    modifies dst
    ensures dst[..] == Splice(old(dst[..]), at, FitBytes(src[from..from + srcSize], dstSize))
  {
    var bytesToCopy := if srcSize < dstSize then srcSize else dstSize;
    for i := 0 to bytesToCopy
      invariant forall k :: 0 <= k < dst.Length ==>
        dst[k] == if at <= k < at + i then src[from + (k - at)] else old(dst[k])
    {
      dst[at + i] := src[from + i];
    }
    for i := bytesToCopy to dstSize
      invariant forall k :: 0 <= k < dst.Length ==>
        dst[k] == if at <= k < at + bytesToCopy then src[from + (k - at)]
                  else if at <= k < at + i then 0 else old(dst[k])
    {
      dst[at + i] := 0;
    }
    SpliceBytesByIndex(dst[..], old(dst[..]), at, FitBytes(src[from..from + srcSize], dstSize));
  }

  /** Drops the bits of a byte above the last `remainder`. */
  function CutByte(b: byte, remainder: bv8): (r: byte)
    requires remainder < 8
  {
    if remainder == 0 then b else b & ((1 << remainder) - 1)
  }

  /** Takes the low `tail` bits of `b` and the others from `last`. */
  function KeepTail(b: byte, last: byte, tail: bv8): (r: byte)
    requires 0 < tail < 8
  {
    ((b << (8 - tail)) >> (8 - tail)) | ((last >> tail) << tail)
  }

  lemma CutByteBits(b: byte, remainder: nat)
    requires 0 < remainder < 8
    ensures ByteBits(CutByte(b, Small(remainder))) == Fit(ByteBits(b)[..remainder], 8)
  {
    forall j | 0 <= j < 8
      ensures ByteBits(CutByte(b, Small(remainder)))[j] == (j < remainder && ByteBits(b)[j])
    {
      GatherBit(b, 0, 0, remainder, j);
      assert CutByte(b, Small(remainder)) == Gather(b, 0, Small(0), Small(remainder));
    }
    FitByIndex(ByteBits(CutByte(b, Small(remainder))), ByteBits(b)[..remainder]);
  }

  lemma KeepTailShifts(b: byte, last: byte, tail: bv8, j: bv8)
    requires 0 < tail < 8 && j < 8
    ensures (KeepTail(b, last, tail) >> j) & 1 == if j < tail then (b >> j) & 1 else (last >> j) & 1
  {
    if tail == 1 {} else if tail == 2 {} else if tail == 3 {} else if tail == 4 {}
    else if tail == 5 {} else if tail == 6 {} else {}
  }

  lemma KeepTailBit(b: byte, last: byte, tail: nat, j: nat)
    requires 0 < tail < 8 && j < 8
    ensures TestBit(KeepTail(b, last, Small(tail)), j) == if j < tail then TestBit(b, j) else TestBit(last, j)
  {
    SmallLess(j, tail);
    KeepTailShifts(b, last, Small(tail), Small(j));
  }

  lemma KeepTailBits(b: byte, last: byte, tail: nat)
    requires 0 < tail < 8
    ensures ByteBits(KeepTail(b, last, Small(tail))) == ByteBits(b)[..tail] + ByteBits(last)[tail..]
  {
    hide KeepTail, Small, TestBit;
    var r := KeepTail(b, last, Small(tail));
    forall j | 0 <= j < 8
      ensures ByteBits(r)[j] == if j < tail then ByteBits(b)[j] else ByteBits(last)[j]
    {
      KeepTailBit(b, last, tail, j);
    }
  }

  /** `cut_misaligned_tail`: clears what lies above bit `bitLength` in the last byte. */
  method CutMisalignedTail(data: array<byte>, offset: int, bitLength: nat)
    requires bitLength % 8 != 0 ==> 0 <= offset < data.Length
    modifies data
    ensures bitLength % 8 == 0 ==> data[..] == old(data[..])
    ensures bitLength % 8 != 0 ==>
      BitsOf(data[..]) == Splice(BitsOf(old(data[..])), 8 * offset,
                                 Fit(BitsOf(old(data[..]))[8 * offset..8 * offset + bitLength % 8], 8))
  {
    hide BitsOf, ByteBits, Splice, Fit;
    var remainder := bitLength % 8;
    if remainder == 0 {
      return;
    }
    ghost var before := data[..];
    var cut := CutByte(data[offset], Small(remainder));
    data[offset] := cut;
    assert data[..] == before[offset := cut];
    CutByteBits(before[offset], remainder);
    BitsOfUpdate(before, offset, cut);
    assert BitsOf(before)[8 * offset..8 * offset + 8][..remainder] ==
        BitsOf(before)[8 * offset..8 * offset + remainder];
  }

  /** Cutting the last of `count` bytes leaves the first `n` bits and zeroes. */
  lemma CutTail(b: bits, count: nat, n: nat)
    requires 8 * count <= |b| && 8 * (count - 1) < n <= 8 * count
    ensures n % 8 == 0 ==> n == 8 * count
    ensures n % 8 != 0 ==>
      0 < count &&
      Splice(b, 8 * (count - 1), Fit(b[8 * (count - 1)..8 * (count - 1) + n % 8], 8)) ==
        Splice(b, 0, Fit(b[..n], 8 * count))
  {
    if n % 8 != 0 {
      assert n == 8 * (count - 1) + n % 8;
      var last := Fit(b[8 * (count - 1)..n], 8);
      assert b[..8 * (count - 1)] + last == Fit(b[..n], 8 * count);
    }
  }

  // -------------------------------------------------------------------------
  // Reading

  /** `do_misaligned_buffer_read`: any field, through the bit copier. */
  method ReadMisaligned(f: Field, backing: array<byte>, dst: array<byte>)
    requires dst != backing && f.Fits(backing.Length) && RoundUpBitsToBytes(f.bitLength) <= dst.Length
    modifies dst
    ensures BitsOf(dst[..])
         == Splice(BitsOf(old(dst[..])), 0, Fit(Value(backing[..], f), 8 * RoundUpBitsToBytes(f.bitLength)))
  {
    var srcSpan := new BitSpan(backing, f.bitIndex, f.bitLength);
    var dstSpan := new BitSpan(dst, 0, 8 * RoundUpBitsToBytes(f.bitLength));
    Copy(dstSpan, srcSpan);
  }

  /** The byte-aligned path of `uacpi_read_buffer_field`. */
  method ReadAligned(f: Field, backing: array<byte>, dst: array<byte>)
    requires dst != backing && f.Fits(backing.Length) && RoundUpBitsToBytes(f.bitLength) <= dst.Length
    requires f.bitIndex % 8 == 0
    modifies dst
    ensures BitsOf(dst[..])
         == Splice(BitsOf(old(dst[..])), 0, Fit(Value(backing[..], f), 8 * RoundUpBitsToBytes(f.bitLength)))
  {
    hide BitsOf, Splice, Fit;
    var count, from := RoundUpBitsToBytes(f.bitLength), f.bitIndex / 8;
    ghost var before, source := dst[..], backing[..];
    MemcpyZerout(dst, 0, backing, from, count, count);
    ghost var piece := source[from..from + count];
    assert FitBytes(piece, count) == piece;
    BitsOfSpliceBytes(before, 0, piece);
    BitsOfSlice(source, from, from + count);
    ghost var copied := BitsOf(dst[..]);
    assert copied == Splice(BitsOf(before), 0, BitsOf(piece));
    CutMisalignedTail(dst, count - 1, f.bitLength);
    CutTail(copied, count, f.bitLength);
    AlignedRead(BitsOf(before), BitsOf(source), f.bitIndex, f.bitLength, count);
  }

  /** Copying `count` whole bytes and cutting the tail is copying `n` bits and padding. */
  lemma AlignedRead(before: bits, source: bits, at: nat, n: nat, count: nat)
    requires n <= 8 * count <= |before| && at + 8 * count <= |source|
    ensures var copied := Splice(before, 0, source[at..at + 8 * count]);
            && copied[..n] == source[at..at + n]
            && Splice(copied, 0, Fit(source[at..at + n], 8 * count)) ==
               Splice(before, 0, Fit(source[at..at + n], 8 * count))
            && (n == 8 * count ==> copied == Splice(before, 0, Fit(source[at..at + n], 8 * count)))
  {
  }

  /** `uacpi_read_buffer_field`: the field's bits, padded with zeroes to whole bytes. */
  method Read(f: Field, backing: array<byte>, dst: array<byte>)
    requires dst != backing && f.Fits(backing.Length) && RoundUpBitsToBytes(f.bitLength) <= dst.Length
    modifies dst
    ensures BitsOf(dst[..])
         == Splice(BitsOf(old(dst[..])), 0, Fit(Value(backing[..], f), 8 * RoundUpBitsToBytes(f.bitLength)))
  {
    if f.bitIndex % 8 == 0 {
      ReadAligned(f, backing, dst);
    } else {
      ReadMisaligned(f, backing, dst);
    }
  }

  // -------------------------------------------------------------------------
  // Writing

  /** `do_write_misaligned_buffer_field`: any field, through the bit copier. */
  method WriteMisaligned(f: Field, backing: array<byte>, src: array<byte>)
    requires src != backing && f.Fits(backing.Length)
    modifies backing
    ensures BitsOf(backing[..]) == Splice(BitsOf(old(backing[..])), f.bitIndex, Fit(BitsOf(src[..]), f.bitLength))
  {
    var srcSpan := new BitSpan(src, 0, 8 * src.Length);
    var dstSpan := new BitSpan(backing, f.bitIndex, f.bitLength);
    Copy(dstSpan, srcSpan);
    assert Span(src[..], 0, 8 * src.Length) == BitsOf(src[..]);
  }

  /** The byte-aligned path of `uacpi_write_buffer_field`. */
  method WriteAligned(f: Field, backing: array<byte>, src: array<byte>)
    requires src != backing && f.Fits(backing.Length)
    requires f.bitIndex % 8 == 0
    modifies backing
    ensures BitsOf(backing[..]) == Splice(BitsOf(old(backing[..])), f.bitIndex, Fit(BitsOf(src[..]), f.bitLength))
  {
    hide BitsOf, Splice, Fit, ByteBits;
    var dst, count := f.bitIndex / 8, RoundUpBitsToBytes(f.bitLength);
    var end := dst + count - 1;
    var lastByte, tailShift := backing[end], f.bitLength % 8;
    ghost var before, source := backing[..], src[..];
    MemcpyZerout(backing, dst, src, 0, count, src.Length);
    assert src[0..src.Length] == source;
    ghost var copied := BitsOf(backing[..]);
    BitsOfSpliceBytes(before, dst, FitBytes(source, count));
    BitsOfFitBytes(source, count);
    assert copied == Splice(BitsOf(before), 8 * dst, Fit(BitsOf(source), 8 * count));
    if tailShift != 0 {
      ghost var mid := backing[..];
      var merged := KeepTail(backing[end], lastByte, Small(tailShift));
      backing[end] := merged;
      assert backing[..] == mid[end := merged];
      KeepTailBits(mid[end], lastByte, tailShift);
      BitsOfUpdate(mid, end, merged);
      BitsOfUpdate(before, end, lastByte);
    }
    AlignedWrite(BitsOf(before), BitsOf(source), dst, f.bitLength, count, tailShift);
  }

  /** Writing whole bytes and putting the old tail back is writing `n` bits. */
  lemma AlignedWrite(before: bits, source: bits, dst: nat, n: nat, count: nat, tail: nat)
    requires 0 < count && 8 * (count - 1) < n <= 8 * count && 8 * (dst + count) <= |before| && tail == n % 8
    ensures var copied := Splice(before, 8 * dst, Fit(source, 8 * count));
            var end := 8 * (dst + count - 1);
            var last := copied[end..end + 8][..tail] + before[end..end + 8][tail..];
            && (tail != 0 ==> Splice(copied, end, last) == Splice(before, 8 * dst, Fit(source, n)))
            && (tail == 0 ==> copied == Splice(before, 8 * dst, Fit(source, n)))
  {
    var copied := Splice(before, 8 * dst, Fit(source, 8 * count));
    var end := 8 * (dst + count - 1);
    if tail == 0 {
      assert n == 8 * count;
    } else {
      hide Splice, Fit;
      assert n == 8 * (count - 1) + tail;
      var last := copied[end..end + 8][..tail] + before[end..end + 8][tail..];
      var expected := Splice(before, 8 * dst, Fit(source, n));
      forall k | 0 <= k < |before|
        ensures Splice(copied, end, last)[k] == expected[k]
      {
        SpliceIndex(copied, end, last, k);
        SpliceIndex(before, 8 * dst, Fit(source, 8 * count), k);
        SpliceIndex(before, 8 * dst, Fit(source, n), k);
        if 8 * dst <= k < 8 * dst + n {
          FitIndex(source, n, k - 8 * dst);
          FitIndex(source, 8 * count, k - 8 * dst);
        }
      }
    }
  }

  /** `uacpi_write_buffer_field`: the field takes the value's bits, cut or padded; nothing else changes. */
  method Write(f: Field, backing: array<byte>, src: array<byte>)
    requires src != backing && f.Fits(backing.Length)
    modifies backing
    ensures BitsOf(backing[..]) == Splice(BitsOf(old(backing[..])), f.bitIndex, Fit(BitsOf(src[..]), f.bitLength))
  {
    if f.bitIndex % 8 == 0 {
      WriteAligned(f, backing, src);
    } else {
      WriteMisaligned(f, backing, src);
    }
  }

  // -------------------------------------------------------------------------
  // The two paths

  /** On a byte-aligned field, the fast read leaves the same bytes as the general one. */
  method ReadsAgree(f: Field, backing: array<byte>, fast: array<byte>, general: array<byte>)
    requires fast != general && fast != backing && general != backing && fast[..] == general[..]
    requires f.Fits(backing.Length) && RoundUpBitsToBytes(f.bitLength) <= fast.Length && f.bitIndex % 8 == 0
    modifies fast, general
    ensures fast[..] == general[..]
  {
    hide BitsOf, Splice, Fit;
    ReadAligned(f, backing, fast);
    ReadMisaligned(f, backing, general);
    BitsOfInjective(fast[..], general[..]);
  }

  /** On a byte-aligned field, the fast write leaves the same bytes as the general one. */
  method WritesAgree(f: Field, src: array<byte>, fast: array<byte>, general: array<byte>)
    requires fast != general && fast != src && general != src && fast[..] == general[..]
    requires f.Fits(fast.Length) && f.bitIndex % 8 == 0
    modifies fast, general
    ensures fast[..] == general[..]
  {
    hide BitsOf, Splice, Fit;
    WriteAligned(f, fast, src);
    WriteMisaligned(f, general, src);
    BitsOfInjective(fast[..], general[..]);
  }
}
