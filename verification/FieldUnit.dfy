/**
 Fields of an operation region (src/uacpi/io.c:408-574): the region is only reachable in
 accesses of one, two, four or eight bytes, a field starts and ends anywhere inside one.
 The offset of the next access is kept in 32 bits, so a field that goes on past 4 GiB goes
 on at the start of the region.
 */
module FieldUnit {
  import opened Arith
  import opened Bits
  import opened BitCopy
  import BufferField

  datatype Status = Ok | OutOfBounds | InvalidArgument

  /** What a write does to the bits of an access that lie outside the field. */
  datatype UpdateRule = Preserve | WriteAsOnes | WriteAsZeroes | InvalidRule

  /** A field (`uacpi_field_unit`) of the plain kind. */
  datatype Field = Field(byteOffset: nat, bitOffset: nat, bitLength: nat, width: nat, rule: UpdateRule) {
    /** The ranges that `handle_create_field` gives the members; it aligns the offset to the access width. */
    predicate Valid() {
      && width in {1, 2, 4, 8}
      && bitOffset < 8 * width
      && byteOffset < WORD32 && Aligned(byteOffset, width)
      && bitLength < 0x1000_0000
    }

    /** The first bit of the field, counted from the start of the region. */
    function Start(): nat {
      8 * byteOffset + bitOffset
    }

    /** How many accesses cover the field. */
    function Units(): nat
      requires Valid()
    {
      CeilDiv(bitOffset + bitLength, 8 * width)
    }

    /** The end of the last access, if offsets did not wrap. */
    function End(): nat
      requires Valid()
    {
      byteOffset + width * Units()
    }

    /** How many accesses a read makes; an empty field is read as well. */
    function ReadUnits(): nat
      requires Valid()
    {
      if Units() == 0 then 1 else Units()
    }
  }

  predicate Aligned(offset: nat, width: nat) {
    width in {1, 2, 4, 8} && offset % width == 0
  }

  function CeilDiv(x: nat, d: nat): (q: nat)
    requires 0 < d
  {
    (x + d - 1) / d
  }

  lemma CeilDivStep(x: nat, d: nat)
    requires d in {8, 16, 32, 64}
    ensures CeilDiv(x + d, d) == CeilDiv(x, d) + 1
    ensures 0 < x <= d ==> CeilDiv(x, d) == 1
    ensures CeilDiv(x, d) == 0 <==> x == 0
    ensures x <= d * CeilDiv(x, d) < x + d
  {
    if d == 8 {} else if d == 16 {} else if d == 32 {} else {}
  }

  // -------------------------------------------------------------------------
  // One access

  /** A read access of `width` bytes, zero-extended into the eight bytes of `io`. */
  method AccessRead(region: array<byte>, offset: nat, width: nat, io: array<byte>) returns (status: Status)
    requires region != io && io.Length == 8 && width <= 8
    modifies io
    ensures status == Ok <==> offset + width <= region.Length
    ensures status == Ok ==> io[..] == FitBytes(region[offset..offset + width], 8)
    ensures status != Ok ==> status == OutOfBounds && io[..] == old(io[..])
  {
    if offset + width > region.Length {
      return OutOfBounds;
    }
    BufferField.MemcpyZerout(io, 0, region, offset, 8, width);
    assert io[..] == FitBytes(region[offset..offset + width], 8);
    return Ok;
  }

  /** A write access of the low `width` bytes of `io`. */
  method AccessWrite(region: array<byte>, offset: nat, width: nat, io: array<byte>) returns (status: Status)
    requires region != io && io.Length == 8 && width <= 8
    modifies region
    ensures status == Ok <==> offset + width <= region.Length
    ensures status == Ok ==> region[..] == Splice(old(region[..]), offset, io[..width])
    ensures status != Ok ==> status == OutOfBounds && region[..] == old(region[..])
  {
    if offset + width > region.Length {
      return OutOfBounds;
    }
    BufferField.MemcpyZerout(region, offset, io, 0, width, width);
    assert io[0..width] == io[..width];
    return Ok;
  }

  lemma AccessSpan(region: seq<byte>, offset: nat, width: nat, index: nat, n: nat)
    requires width <= 8 && offset + width <= |region| && index + n <= 8 * width
    ensures Span(FitBytes(region[offset..offset + width], 8), index, n) == Span(region, 8 * offset + index, n)
  {
    hide BitsOf, FitBytes;
    var unit := region[offset..offset + width];
    BitsOfFitBytes(unit, 8);
    BitsOfSlice(region, offset, offset + width);
    SliceOfFit(BitsOf(region), 8 * offset, 8 * width, index, n);
  }

  lemma SliceOfFit(b: bits, at: nat, m: nat, index: nat, n: nat)
    requires at + m <= |b| && m <= 64 && index + n <= m
    ensures Fit(b[at..at + m], 64)[index..index + n] == b[at + index..at + index + n]
  {
    hide Fit;
    var left, right := Fit(b[at..at + m], 64)[index..index + n], b[at + index..at + index + n];
    forall k | 0 <= k < n
      ensures left[k] == right[k]
    {
      FitIndex(b[at..at + m], 64, index + k);
    }
  }

  // -------------------------------------------------------------------------
  // Walking over the accesses of a field

  /** As many bits as there are below a byte offset of 2^32. */
  const REACH: nat := 8 * WORD32

  /** The next access is at `byteOffset`, but for wrapping, and the field goes on at bit `index` of it. */
  ghost predicate Walking(f: Field, byteOffset: nat, index: nat, bitsLeft: nat, unitsLeft: nat)
    requires f.Valid()
  {
    && index < 8 * f.width && Aligned(byteOffset, f.width)
    && bitsLeft <= f.bitLength
    && unitsLeft == CeilDiv(index + bitsLeft, 8 * f.width)
    && byteOffset + f.width * unitsLeft == f.End()
    && (0 < unitsLeft ==> 8 * byteOffset + index == f.Start() + (f.bitLength - bitsLeft))
  }

  lemma WalkEnds(f: Field, byteOffset: nat, index: nat, bitsLeft: nat, unitsLeft: nat)
    requires f.Valid()
    ensures Walking(f, f.byteOffset, f.bitOffset, f.bitLength, f.Units())
    ensures Walking(f, byteOffset, index, bitsLeft, unitsLeft) && unitsLeft == 0 ==>
      bitsLeft == 0 && byteOffset == f.End()
    ensures f.Start() + f.bitLength <= 8 * f.End() < REACH + 0x1000_0100
    ensures f.byteOffset <= f.End() && (0 < f.Units() ==> f.byteOffset + f.width <= f.End())
    ensures 0 < f.width <= 8
  {
    hide Aligned;
    CeilDivStep(index + bitsLeft, 8 * f.width);
    CeilDivStep(f.bitOffset + f.bitLength, 8 * f.width);
    hide CeilDiv;
    MulStep(f.width, f.Units());
    assert 8 * f.width * f.Units() == 8 * (f.width * f.Units());
  }

  /** How many bits of the field the next access holds. */
  function UnitBits(f: Field, index: nat, bitsLeft: nat): (n: nat)
    ensures index < 8 * f.width ==> index + n <= 8 * f.width && n <= bitsLeft
  {
    if index >= 8 * f.width then 0 else if bitsLeft < 8 * f.width - index then bitsLeft else 8 * f.width - index
  }

  lemma WalkStep(f: Field, byteOffset: nat, index: nat, bitsLeft: nat, unitsLeft: nat, n: nat)
    requires f.Valid() && Walking(f, byteOffset, index, bitsLeft, unitsLeft) && 0 < unitsLeft
    requires n == UnitBits(f, index, bitsLeft)
    ensures Walking(f, byteOffset + f.width, 0, bitsLeft - n, unitsLeft - 1)
    ensures byteOffset + f.width <= f.End()
    ensures index < 8 * f.width && 8 * byteOffset + index == f.Start() + (f.bitLength - bitsLeft)
  {
    hide Aligned;
    AlignedNext(byteOffset, f.width);
    var d := 8 * f.width;
    CeilDivStep(bitsLeft - n, d);
    CeilDivStep(index + bitsLeft, d);
    if n < bitsLeft {
      assert index + bitsLeft == (bitsLeft - n) + d;
    }
    MulStep(f.width, unitsLeft);
    MulStep(f.width, unitsLeft - 1);
  }

  lemma MulStep(w: nat, r: nat)
    ensures 0 < r ==> w * r == w * (r - 1) + w && 0 <= w * (r - 1)
  {
  }

  /**
   Where the accesses of a walk really are: no access straddles the wrap, and what has wrapped lies below the
   field, with room to spare.
   */
  lemma WalkWraps(f: Field, byteOffset: nat, index: nat, bitsLeft: nat, unitsLeft: nat)
    requires f.Valid() && Walking(f, byteOffset, index, bitsLeft, unitsLeft) && 0 < unitsLeft
    ensures byteOffset % WORD32 == if byteOffset < WORD32 then byteOffset else byteOffset - WORD32
    ensures (byteOffset % WORD32 + f.width) % WORD32 == (byteOffset + f.width) % WORD32
    ensures byteOffset < WORD32 ==> byteOffset + f.width <= WORD32
    ensures byteOffset >= WORD32 ==> byteOffset - WORD32 + f.width <= 0x400_0000 <= f.byteOffset
  {
    WalkStep(f, byteOffset, index, bitsLeft, unitsLeft, UnitBits(f, index, bitsLeft));
    WalkEnds(f, 0, 0, 0, 0);
    var w, o := f.width, byteOffset;
    assert Aligned(o, w);
    hide Walking, UnitBits, CeilDiv, Field.Units, Field.End, Aligned;
    if o < WORD32 {
      AlignedBelow(o, w);
    }
    ModWord(o, w);
  }

  lemma AlignedBelow(offset: nat, width: nat)
    requires width in {1, 2, 4, 8} && Aligned(offset, width) && offset < WORD32
    ensures offset + width <= WORD32
  {
  }

  lemma ModWord(offset: nat, w: nat)
    requires offset < 2 * WORD32 && w <= 8
    ensures offset % WORD32 == if offset < WORD32 then offset else offset - WORD32
    ensures (offset % WORD32 + w) % WORD32 == (offset + w) % WORD32
  {
  }

  lemma AlignedNext(offset: nat, width: nat)
    requires width in {1, 2, 4, 8} && Aligned(offset, width)
    ensures Aligned(offset + width, width)
  {
  }

  // -------------------------------------------------------------------------
  // Reading

  /** The value of a field: its bits. */
  function Value(region: seq<byte>, f: Field): (r: bits)
    requires f.Start() + f.bitLength <= 8 * |region|
    ensures |r| == f.bitLength
  {
    Span(region, f.Start(), f.bitLength)
  }

  /** The bits of a region from `at` on, which come back to its start after 2^32 bytes, are there. */
  predicate Reaches(size: nat, at: nat, n: nat) {
    Least(at + n, REACH) <= 8 * size
  }

  /** Those bits. */
  function Around(region: seq<byte>, at: nat, n: nat): (r: bits)
    requires Reaches(|region|, at, n)
    ensures |r| == n
  {
    seq(n, (j: nat) requires j < n => BitsOf(region)[(at + j) % REACH])
  }

  lemma AroundAt(region: seq<byte>, at: nat, n: nat, j: nat)
    requires Reaches(|region|, at, n) && j < n
    ensures (at + j) % REACH < 8 * |region| && Around(region, at, n)[j] == BitsOf(region)[(at + j) % REACH]
  {
  }

  lemma AroundConcat(region: seq<byte>, at: nat, n: nat, m: nat)
    requires Reaches(|region|, at, n) && Reaches(|region|, at + n, m) && Reaches(|region|, at, n + m)
    ensures Around(region, at, n) + Around(region, at + n, m) == Around(region, at, n + m)
  {
    hide BitsOf;
    var x, y, z := Around(region, at, n), Around(region, at + n, m), Around(region, at, n + m);
    forall j | 0 <= j < n + m
      ensures (x + y)[j] == z[j]
    {
      AroundAt(region, at, n + m, j);
      if j < n {
        AroundAt(region, at, n, j);
      } else {
        AroundAt(region, at + n, m, j - n);
      }
    }
  }

  lemma ModReach(k: nat)
    requires k < REACH
    ensures k % REACH == k && (k + REACH) % REACH == k
  {
  }

  /** The bits of one access, wherever it really is. */
  lemma AroundSpan(region: seq<byte>, at: nat, place: nat, n: nat)
    requires place + n <= 8 * |region| && place + n <= REACH && (at == place || at == place + REACH)
    requires Reaches(|region|, at, n)
    ensures Around(region, at, n) == Span(region, place, n)
  {
    hide BitsOf, Around;
    var x, y := Around(region, at, n), Span(region, place, n);
    forall j | 0 <= j < n
      ensures x[j] == y[j]
    {
      AroundAt(region, at, n, j);
      ModReach(place + j);
    }
  }

  /** The destination after some reads: what has been read so far, cut or padded. */
  lemma ReadRound(now: bits, before: bits, x: bits, y: bits, first: bool)
    requires first ==> x == []
    requires !first ==> before == Fit(x, |before|)
    requires var m := if |x| < |before| then |x| else |before|;
             now == Splice(before, m, Fit(y, |before| - m))
    ensures now == Fit(x + y, |before|)
  {
    forall k | 0 <= k < |before|
      ensures now[k] == Fit(x + y, |before|)[k]
    {
      FitIndex(x + y, |before|, k);
      FitIndex(x, |before|, k);
      var m := if |x| < |before| then |x| else |before|;
      SpliceIndex(before, m, Fit(y, |before| - m), k);
      if m <= k {
        FitIndex(y, |before| - m, k - m);
      }
    }
  }

  /** The destination span is what is left of the destination after `n` bits. */
  ghost predicate Advanced(span: BitSpan, n: nat)
    reads span
  {
    && span.index == (if n < 8 * span.data.Length then n else 8 * span.data.Length)
    && span.length == 8 * span.data.Length - span.index
  }

  /** The bits read so far are the first bits of the field and are in the destination. */
  ghost predicate ReadSoFar(f: Field, region: seq<byte>, dst: seq<byte>, x: bits) {
    && Reaches(|region|, f.Start(), |x|)
    && x == Around(region, f.Start(), |x|)
    && BitsOf(dst) == Fit(x, 8 * |dst|)
  }

  lemma ReadDone(f: Field, region: seq<byte>, dst: seq<byte>, x: bits)
    requires ReadSoFar(f, region, dst, x) && |x| == f.bitLength
    ensures Reaches(|region|, f.Start(), f.bitLength) &&
            BitsOf(dst) == Fit(Around(region, f.Start(), f.bitLength), 8 * |dst|)
  {
  }

  /** The next access reads the next bits of the field. */
  lemma ReadNext(f: Field, region: seq<byte>, byteOffset: nat, index: nat, bitsLeft: nat, unitsLeft: nat, x: bits,
                 n: nat)
    requires f.Valid() && Walking(f, byteOffset, index, bitsLeft, unitsLeft) && 0 < unitsLeft &&
             n == UnitBits(f, index, bitsLeft)
    requires |x| + bitsLeft == f.bitLength && byteOffset % WORD32 + f.width <= |region|
    requires x == [] || (Reaches(|region|, f.Start(), |x|) && x == Around(region, f.Start(), |x|))
    requires byteOffset >= WORD32 ==> WORD32 <= |region|
    ensures index + n <= 8 * f.width && Reaches(|region|, f.Start(), |x| + n)
    ensures x + Span(region, 8 * (byteOffset % WORD32) + index, n) == Around(region, f.Start(), |x| + n)
  {
    WalkStep(f, byteOffset, index, bitsLeft, unitsLeft, n);
    WalkWraps(f, byteOffset, index, bitsLeft, unitsLeft);
    var place := byteOffset % WORD32;
    hide Walking, CeilDiv, Field.Units, BitsOf, Around, Span, Field.Valid, Field.End, UnitBits, Aligned, Reaches;
    ReadJoin(region, f.Start(), x, 8 * place + index, n);
  }

  lemma ReadJoin(region: seq<byte>, start: nat, x: bits, place: nat, n: nat)
    requires place + n <= 8 * |region| && place + n <= REACH
    requires start + |x| == place || (start + |x| == place + REACH && REACH <= 8 * |region|)
    requires x == [] || (Reaches(|region|, start, |x|) && x == Around(region, start, |x|))
    ensures Reaches(|region|, start, |x| + n) && x + Span(region, place, n) == Around(region, start, |x| + n)
  {
    hide BitsOf, Around, Span;
    AroundSpan(region, start + |x|, place, n);
    if x == [] {
      assert x + Span(region, place, n) == Span(region, place, n);
    } else {
      AroundConcat(region, start, |x|, n);
    }
  }

  /** One turn of the read loop: an access, and its bits appended to the destination. */
  method ReadUnit(f: Field, region: array<byte>, srcSpan: BitSpan, dstSpan: BitSpan,
                  byteOffset: nat, bitsLeft: nat, ghost offset: nat, ghost unitsLeft: nat, ghost x: bits)
    returns (status: Status, ghost y: bits)
    requires f.Valid() && Walking(f, offset, srcSpan.index, bitsLeft, unitsLeft) && 0 < unitsLeft
    requires byteOffset == offset % WORD32 && (offset >= WORD32 ==> WORD32 <= region.Length)
    requires srcSpan.data.Length == 8 && srcSpan != dstSpan
    requires region != srcSpan.data && region != dstSpan.data && srcSpan.data != dstSpan.data
    requires Advanced(dstSpan, |x|) && |x| + bitsLeft == f.bitLength
    requires x == [] || ReadSoFar(f, region[..], dstSpan.data[..], x)
    modifies srcSpan, dstSpan, srcSpan.data, dstSpan.data
    ensures status == Ok <==> byteOffset + f.width <= region.Length
    ensures status != Ok ==> status == OutOfBounds
    ensures srcSpan.index == old(srcSpan.index) && srcSpan.length == UnitBits(f, srcSpan.index, bitsLeft)
    ensures status == Ok ==> |y| == |x| + srcSpan.length && Advanced(dstSpan, |y|)
    ensures status == Ok ==> ReadSoFar(f, region[..], dstSpan.data[..], y)
  {
    hide BitsOf, Splice, Fit, Span, Walking, CeilDiv, UnitBits, Field.Units, Field.Valid, Field.Start, Around, Reaches;
    WalkEnds(f, 0, 0, 0, 0);
    y := x;
    ghost var source, before := region[..], BitsOf(dstSpan.data[..]);
    srcSpan.length := UnitBits(f, srcSpan.index, bitsLeft);
    status := AccessRead(region, byteOffset, f.width, srcSpan.data);
    WalkStep(f, offset, srcSpan.index, bitsLeft, unitsLeft, srcSpan.length);
    if status == Ok {
      ReadNext(f, source, offset, srcSpan.index, bitsLeft, unitsLeft, x, srcSpan.length);
      ghost var piece := Span(source, 8 * byteOffset + srcSpan.index, srcSpan.length);
      AccessSpan(source, byteOffset, f.width, srcSpan.index, srcSpan.length);
      Copy(dstSpan, srcSpan);
      y := x + piece;
      ReadRound(BitsOf(dstSpan.data[..]), before, x, piece, x == []);
      var _ := dstSpan.Offset(srcSpan.length);
    }
  }

  /** `do_read_misaligned_field_unit`: any field, access by access through the bit copier. */
  method ReadMisaligned(f: Field, region: array<byte>, dst: array<byte>) returns (status: Status)
    requires f.Valid() && region != dst
    requires 0 < f.Units()
    modifies dst
    ensures status == Ok <==> Least(f.End(), WORD32) <= region.Length
    ensures status == Ok ==>
      && Reaches(region.Length, f.Start(), f.bitLength)
      && BitsOf(dst[..]) == Fit(Around(region[..], f.Start(), f.bitLength), 8 * dst.Length)
    ensures status != Ok ==> status == OutOfBounds
  {
    hide BitsOf, Splice, Fit, Span, Walking, CeilDiv, UnitBits, Field.Units, Field.Valid, Field.Start, ReadSoFar,
      Around, Reaches, Field.End;
    var byteOffset: nat, bitsLeft: nat := f.byteOffset, f.bitLength;
    var out := new byte[8];
    var srcSpan := new BitSpan(out, f.bitOffset, 0);
    var dstSpan := new BitSpan(dst, 0, 8 * dst.Length);
    var readsToDo: nat := f.Units();
    ghost var source, x: bits, offset: nat := region[..], [], f.byteOffset;
    WalkEnds(f, 0, 0, 0, 0);
    OffsetFits(f);
    while readsToDo > 0
      invariant Walking(f, offset, srcSpan.index, bitsLeft, readsToDo) && byteOffset == offset % WORD32
      invariant |x| + bitsLeft == f.bitLength
      invariant readsToDo < f.Units() ==> Least(offset, WORD32) <= region.Length
      invariant readsToDo == f.Units() ==> x == [] && offset == f.byteOffset < WORD32
      invariant readsToDo < f.Units() ==> ReadSoFar(f, source, dst[..], x)
      invariant Advanced(dstSpan, |x|)
      invariant region[..] == source
    {
      WalkWraps(f, offset, srcSpan.index, bitsLeft, readsToDo);
      status, x := ReadUnit(f, region, srcSpan, dstSpan, byteOffset, bitsLeft, offset, readsToDo, x);
      WalkStep(f, offset, srcSpan.index, bitsLeft, readsToDo, srcSpan.length);
      if status != Ok {
        return;
      }
      bitsLeft := bitsLeft - srcSpan.length;
      srcSpan.index := 0;
      byteOffset := (byteOffset + f.width) % WORD32;
      offset := offset + f.width;
      readsToDo := readsToDo - 1;
    }
    WalkEnds(f, offset, srcSpan.index, bitsLeft, readsToDo);
    ReadDone(f, source, dst[..], x);
    return Ok;
  }

  lemma OffsetFits(f: Field)
    requires f.Valid()
    ensures f.byteOffset < WORD32 && f.byteOffset == f.byteOffset % WORD32
  {
  }

  /** Whole bytes of one access, cut after the field, are the field's bits and zeroes. */
  lemma FastRead(unit: bits, n: nat, count: nat, size: nat)
    requires n <= 8 * count <= |unit| && 8 * count < n + 8
    ensures var copied := Fit(unit[..8 * count], 8 * size);
            && (size < count || n % 8 == 0 ==> copied == Fit(unit[..n], 8 * size))
            && (count <= size && n % 8 != 0 ==>
                  0 < count
                  && Splice(copied, 8 * (count - 1), Fit(copied[8 * (count - 1)..8 * (count - 1) + n % 8], 8))
                     == Fit(unit[..n], 8 * size))
  {
    var copied := Fit(unit[..8 * count], 8 * size);
    if n % 8 == 0 {
      assert n == 8 * count;
    } else if count <= size {
      BufferField.CutTail(copied, count, n);
      hide Fit, Splice;
      assert copied[..n] == unit[..n] by {
        forall k | 0 <= k < n
          ensures copied[..n][k] == unit[..n][k]
        {
          FitIndex(unit[..8 * count], 8 * size, k);
        }
      }
      var result := Splice(copied, 0, Fit(unit[..n], 8 * count));
      forall k | 0 <= k < 8 * size
        ensures result[k] == Fit(unit[..n], 8 * size)[k]
      {
        SpliceIndex(copied, 0, Fit(unit[..n], 8 * count), k);
        FitIndex(unit[..n], 8 * size, k);
        FitIndex(unit[..8 * count], 8 * size, k);
        if k < 8 * count {
          FitIndex(unit[..n], 8 * count, k);
        }
      }
    } else {
      hide Fit;
      forall k | 0 <= k < 8 * size
        ensures copied[k] == Fit(unit[..n], 8 * size)[k]
      {
        FitIndex(unit[..n], 8 * size, k);
        FitIndex(unit[..8 * count], 8 * size, k);
      }
    }
  }

  lemma AlignedValue(region: seq<byte>, f: Field)
    requires f.bitOffset == 0 && f.bitLength <= 8 * f.width && f.byteOffset + f.width <= |region|
    ensures BitsOf(region[f.byteOffset..f.byteOffset + f.width])[..f.bitLength] == Value(region, f)
  {
    hide BitsOf;
    BitsOfSlice(region, f.byteOffset, f.byteOffset + f.width);
  }

  lemma WholeBuffer(data: seq<byte>, piece: seq<byte>, unit: seq<byte>, count: nat)
    requires |piece| == |data| && count <= |unit| <= 8
    ensures Splice(data, 0, piece) == piece
    ensures FitBytes(unit, 8)[0..count] == unit[..count]
  {
  }

  /** The single-access path of `uacpi_read_field_unit`. */
  method ReadSingle(f: Field, region: array<byte>, dst: array<byte>) returns (status: Status)
    requires f.Valid() && region != dst
    requires f.bitOffset == 0 && BufferField.RoundUpBitsToBytes(f.bitLength) <= f.width
    modifies dst
    ensures status == Ok <==> f.byteOffset + f.width <= region.Length
    ensures status == Ok ==> BitsOf(dst[..]) == Fit(Value(region[..], f), 8 * dst.Length)
    ensures status != Ok ==> status == OutOfBounds
  {
    hide BitsOf, Splice, Fit, Span, FitBytes;
    var count := BufferField.RoundUpBitsToBytes(f.bitLength);
    var out := new byte[8];
    status := AccessRead(region, f.byteOffset, f.width, out);
    if status != Ok {
      return;
    }
    ghost var source, unit := region[..], region[f.byteOffset..f.byteOffset + f.width];
    BufferField.MemcpyZerout(dst, 0, out, 0, dst.Length, count);
    WholeBuffer(old(dst[..]), FitBytes(unit[..count], dst.Length), unit, count);
    BitsOfFitBytes(unit[..count], dst.Length);
    BitsOfTakeDrop(unit, count);
    AlignedValue(source, f);
    FastRead(BitsOf(unit), f.bitLength, count, dst.Length);
    if dst.Length >= count {
      var last: int := count as int - 1;
      BufferField.CutMisalignedTail(dst, last, f.bitLength);
    }
  }

  /**
   `uacpi_read_field_unit`: reads the field into the whole destination, cut if the destination
   is short and padded with zeroes if it is long.
   */
  method Read(f: Field, region: array<byte>, dst: array<byte>) returns (status: Status)
    requires f.Valid() && region != dst
    modifies dst
    ensures status == Ok <==> Least(f.byteOffset + f.width * f.ReadUnits(), WORD32) <= region.Length
    ensures status == Ok ==>
      && Reaches(region.Length, f.Start(), f.bitLength)
      && BitsOf(dst[..]) == Fit(Around(region[..], f.Start(), f.bitLength), 8 * dst.Length)
    ensures status != Ok ==> status == OutOfBounds
  {
    hide BitsOf, Fit, Span, Value, CeilDiv, Around, Reaches;
    CeilDivStep(f.bitOffset + f.bitLength, 8 * f.width);
    if f.bitOffset == 0 && BufferField.RoundUpBitsToBytes(f.bitLength) <= f.width {
      status := ReadSingle(f, region, dst);
      AlignedBelow(f.byteOffset, f.width);
      if status == Ok {
        SingleAround(region[..], f);
      }
    } else {
      status := ReadMisaligned(f, region, dst);
    }
  }

  /** A field that does not go past 2^32 bytes is read where it is. */
  lemma ValueAround(region: seq<byte>, f: Field)
    requires f.Valid() && f.Start() + f.bitLength <= 8 * |region|
    requires f.Start() + f.bitLength <= REACH
    ensures Reaches(|region|, f.Start(), f.bitLength) && Around(region, f.Start(), f.bitLength) == Value(region, f)
  {
    AroundSpan(region, f.Start(), f.Start(), f.bitLength);
  }

  lemma SingleAround(region: seq<byte>, f: Field)
    requires f.Valid() && f.bitOffset == 0 && BufferField.RoundUpBitsToBytes(f.bitLength) <= f.width &&
             f.byteOffset + f.width <= |region|
    ensures Reaches(|region|, f.Start(), f.bitLength) && f.Start() + f.bitLength <= 8 * |region|
    ensures Around(region, f.Start(), f.bitLength) == Value(region, f)
  {
    AlignedBelow(f.byteOffset, f.width);
    ValueAround(region, f);
  }

  /** Where both apply, a single access reads the same bytes as the general path, or both fail. */
  method ReadsAgree(f: Field, region: array<byte>, fast: array<byte>, general: array<byte>) returns (status: Status)
    requires f.Valid() && region != fast && region != general && fast != general
    requires fast.Length == general.Length && f.bitOffset == 0 && 0 < f.bitLength &&
             BufferField.RoundUpBitsToBytes(f.bitLength) <= f.width
    modifies fast, general
    ensures status == Ok <==> f.byteOffset + f.width <= region.Length
    ensures status == Ok ==> fast[..] == general[..]
  {
    hide BitsOf, Fit, Span, Value, CeilDiv, Around, Reaches;
    CeilDivStep(f.bitOffset + f.bitLength, 8 * f.width);
    AlignedBelow(f.byteOffset, f.width);
    status := ReadSingle(f, region, fast);
    var other := ReadMisaligned(f, region, general);
    assert other == status;
    if status == Ok {
      SingleAround(region[..], f);
      BitsOfInjective(fast[..], general[..]);
    }
  }

  // -------------------------------------------------------------------------
  // Writing

  /** What an update rule makes of a bit that shares an access with the field. */
  function Outside(rule: UpdateRule, b: bool): bool {
    match rule
    case Preserve => b
    case WriteAsOnes => true
    case WriteAsZeroes => false
    case InvalidRule => b
  }

  /**
   The region after the accesses below bit `end` have been written, `done` bits of the value with
   them: the field's bits are the value's, the other bits of those accesses follow the update
   rule, and nothing else has changed.
   */
  ghost predicate Written(before: bits, after: bits, f: Field, value: bits, end: nat, done: nat) {
    && |after| == |before| && done <= |value|
    && forall k :: 0 <= k < |before| ==>
         after[k] == if f.Start() <= k < f.Start() + done then value[k - f.Start()]
                     else if 8 * f.byteOffset <= k < end then Outside(f.rule, before[k])
                     else before[k]
  }

  /** The bit of the field's accesses, were they not to wrap, that is really bit `k` of the region. */
  function Turn(f: Field, k: nat): (r: nat) {
    if k >= REACH then k + 2 * REACH else if k < 8 * f.byteOffset then k + REACH else k
  }

  /** The same with accesses that wrap. */
  ghost predicate Stored(before: bits, after: bits, f: Field, value: bits, end: nat, done: nat) {
    && |after| == |before| && done <= |value|
    && forall k {:trigger after[k]} :: 0 <= k < |before| ==>
         after[k] == if f.Start() <= Turn(f, k) < f.Start() + done then value[Turn(f, k) - f.Start()]
                     else if Turn(f, k) < end then Outside(f.rule, before[k])
                     else before[k]
  }

  lemma StoredSize(before: bits, after: bits, f: Field, value: bits, end: nat, done: nat)
    requires Stored(before, after, f, value, end, done)
    ensures |after| == |before|
  {
  }

  /** Below 2^32 bytes it is the same. */
  lemma StoredWritten(before: bits, after: bits, f: Field, value: bits, end: nat, done: nat)
    requires f.byteOffset < WORD32 && end <= REACH && (done == 0 || f.Start() + done <= REACH)
    requires Stored(before, after, f, value, end, done)
    ensures Written(before, after, f, value, end, done)
  {
    hide Outside;
  }

  /** The bits of one access as they are about to be written. */
  ghost predicate UnitReady(unit: bits, before: bits, f: Field, at: nat, index: nat, piece: bits) {
    && |unit| == 64
    && at + 8 * f.width <= |before|
    && forall j :: 0 <= j < 8 * f.width && j < 64 ==>
         unit[j] == if index <= j < index + |piece| then piece[j - index] else Outside(f.rule, before[at + j])
  }

  /** An access at bit `at` of an unwrapped walk, which is really at bit `place`. */
  ghost predicate Placed(f: Field, at: nat, place: nat) {
    && 8 * f.byteOffset <= at && f.width <= 8 && f.byteOffset < WORD32
    && if at < REACH then at == place && at + 8 * f.width <= REACH
       else at == place + REACH && place + 8 * f.width <= 8 * f.byteOffset
  }

  lemma PlacedTurn(f: Field, at: nat, place: nat, k: nat)
    requires Placed(f, at, place)
    ensures place <= k < place + 8 * f.width <==> at <= Turn(f, k) < at + 8 * f.width
    ensures place <= k < place + 8 * f.width ==> Turn(f, k) - at == k - place
    ensures Turn(f, k) >= 8 * f.byteOffset
  {
  }

  lemma WriteRound(before: bits, mid: bits, after: bits, f: Field, value: bits, at: nat, place: nat, index: nat,
                   done: nat, n: nat, unit: bits)
    requires Stored(before, mid, f, value, at, done) && done + n <= |value| && Placed(f, at, place)
    requires f.width <= 8 && index + n <= 8 * f.width && at + index == f.Start() + done
    requires index > 0 ==> done == 0 && at == 8 * f.byteOffset
    requires UnitReady(unit, before, f, place, index, value[done..done + n])
    requires after == Splice(mid, place, unit[..8 * f.width])
    ensures Stored(before, after, f, value, at + 8 * f.width, done + n)
  {
    hide Splice, Outside, Turn, Placed;
    forall k {:trigger after[k]} | 0 <= k < |before|
      ensures after[k] == if f.Start() <= Turn(f, k) < f.Start() + done + n then value[Turn(f, k) - f.Start()]
                          else if Turn(f, k) < at + 8 * f.width then Outside(f.rule, before[k])
                          else before[k]
    {
      SpliceIndex(mid, place, unit[..8 * f.width], k);
      PlacedTurn(f, at, place, k);
      if place <= k < place + 8 * f.width {
        var j := k - place;
        assert unit[j] == if index <= j < index + n then value[done..done + n][j - index]
            else Outside(f.rule, before[place + j]);
      } else {
        assert mid[k] == if f.Start() <= Turn(f, k) < f.Start() + done then value[Turn(f, k) - f.Start()]
                         else if Turn(f, k) < at then Outside(f.rule, before[k]) else before[k];
      }
    }
  }

  /** `unit` holds what the rule wants outside the `n` bits at `index`. */
  ghost predicate RestReady(unit: bits, now: bits, f: Field, at: nat, index: nat, n: nat) {
    && |unit| == 64
    && forall j :: 0 <= j < 8 * f.width && j < 64 && at + 8 * f.width <= |now| && !(index <= j < index + n) ==>
         unit[j] == Outside(f.rule, now[at + j])
  }

  lemma ConstantBytes(data: seq<byte>, v: byte, b: bool)
    requires v == if b then 0xFF else 0
    requires forall i :: 0 <= i < |data| ==> data[i] == v
    ensures forall k :: 0 <= k < 8 * |data| ==> BitsOf(data)[k] == b
  {
    forall k | 0 <= k < 8 * |data|
      ensures BitsOf(data)[k] == b
    {
      BitsOfIndex(data, k / 8, k % 8);
      assert data[k / 8] == v;
    }
  }

  lemma PreservedUnit(region: seq<byte>, f: Field, byteOffset: nat, index: nat, n: nat)
    requires f.rule == Preserve && f.width <= 8 && byteOffset + f.width <= |region|
    ensures RestReady(BitsOf(FitBytes(region[byteOffset..byteOffset + f.width], 8)), BitsOf(region), f, 8 * byteOffset,
                      index, n)
  {
    hide BitsOf, FitBytes;
    var unit := FitBytes(region[byteOffset..byteOffset + f.width], 8);
    AccessSpan(region, byteOffset, f.width, 0, 8 * f.width);
    assert BitsOf(unit)[..8 * f.width] == BitsOf(region)[8 * byteOffset..8 * byteOffset + 8 * f.width];
    forall j | 0 <= j < 8 * f.width
      ensures BitsOf(unit)[j] == BitsOf(region)[8 * byteOffset + j]
    {
      assert BitsOf(unit)[..8 * f.width][j] == BitsOf(region)[8 * byteOffset..8 * byteOffset + 8 * f.width][j];
    }
  }

  /** Fills the eight bytes of an access before the field's bits go in. */
  method PrepareUnit(f: Field, region: array<byte>, unit: array<byte>, byteOffset: nat, index: nat, n: nat)
    returns (status: Status)
    requires f.Valid() && unit.Length == 8 && unit != region && index + n <= 8 * f.width
    modifies unit
    ensures status == Ok ==> RestReady(BitsOf(unit[..]), BitsOf(region[..]), f, 8 * byteOffset, index, n)
    ensures status == InvalidArgument <==> f.rule == InvalidRule && (index != 0 || n < 8 * f.width)
    ensures status == OutOfBounds ==> byteOffset + f.width > region.Length
  {
    hide BitsOf, FitBytes;
    forall i | 0 <= i < 8 {
      unit[i] := 0;
    }
    ConstantBytes(unit[..], 0, false);
    if index != 0 || n < 8 * f.width {
      match f.rule
      case Preserve =>
        status := AccessRead(region, byteOffset, f.width, unit);
        if status != Ok {
          return;
        }
        PreservedUnit(region[..], f, byteOffset, index, n);
      case WriteAsOnes =>
        forall i | 0 <= i < 8 {
          unit[i] := !unit[i];
        }
        ConstantBytes(unit[..], 0xFF, true);
      case WriteAsZeroes =>
      case InvalidRule =>
        return InvalidArgument;
    }
    return Ok;
  }

  /** The bits the source span yields next are the next bits of the padded value. */
  lemma ValuePiece(s: bits, length: nat, done: nat, n: nat, m: nat)
    requires done + n <= length && m == (if done < |s| then done else |s|)
    ensures Fit(s[m..], n) == Fit(s, length)[done..done + n]
  {
    hide Fit;
    forall k | 0 <= k < n
      ensures Fit(s[m..], n)[k] == Fit(s, length)[done..done + n][k]
    {
      FitIndex(s[m..], n, k);
      FitIndex(s, length, done + k);
    }
  }

  lemma UnitComplete(unit: bits, full: bits, before: bits, mid: bits, f: Field, value: bits, at: nat, place: nat,
                     index: nat, done: nat, n: nat)
    requires Stored(before, mid, f, value, at, done) && done + n <= |value| && Placed(f, at, place)
    requires f.width <= 8 && index + n <= 8 * f.width && at + index == f.Start() + done
    requires index > 0 ==> done == 0
    requires place + 8 * f.width <= |before|
    requires RestReady(unit, mid, f, place, index, n)
    requires full == Splice(unit, index, value[done..done + n])
    ensures UnitReady(full, before, f, place, index, value[done..done + n])
  {
    hide Splice, Outside, Turn, Placed;
    forall j | 0 <= j < 8 * f.width
      ensures full[j] == if index <= j < index + n then value[done..done + n][j - index]
              else Outside(f.rule, before[place + j])
    {
      SpliceIndex(unit, index, value[done..done + n], j);
      PlacedTurn(f, at, place, place + j);
      assert mid[place + j] == before[place + j];
    }
  }

  lemma WalkPlaced(f: Field, byteOffset: nat, index: nat, bitsLeft: nat, unitsLeft: nat)
    requires f.Valid() && Walking(f, byteOffset, index, bitsLeft, unitsLeft) && 0 < unitsLeft &&
             byteOffset >= f.byteOffset
    ensures Placed(f, 8 * byteOffset, 8 * (byteOffset % WORD32))
  {
    WalkWraps(f, byteOffset, index, bitsLeft, unitsLeft);
  }

  /** One turn of the write loop: prepare the access, put the field's bits in, write it. */
  method WriteUnit(f: Field, region: array<byte>, dstSpan: BitSpan, srcSpan: BitSpan, byteOffset: nat, bitsLeft: nat,
                   ghost offset: nat, ghost unitsLeft: nat, ghost before: bits, ghost value: bits)
    returns (status: Status)
    requires f.Valid() && Walking(f, offset, dstSpan.index, bitsLeft, unitsLeft) && 0 < unitsLeft
    requires byteOffset == offset % WORD32
    requires dstSpan.data.Length == 8 && srcSpan != dstSpan
    requires region != srcSpan.data && region != dstSpan.data && srcSpan.data != dstSpan.data
    requires Advanced(srcSpan, f.bitLength - bitsLeft)
    requires value == Fit(BitsOf(srcSpan.data[..]), f.bitLength)
    requires dstSpan.index > 0 ==> bitsLeft == f.bitLength && offset == f.byteOffset
    requires offset >= f.byteOffset
    requires Stored(before, BitsOf(region[..]), f, value, 8 * offset, f.bitLength - bitsLeft)
    modifies dstSpan, srcSpan, dstSpan.data, region
    ensures dstSpan.index == old(dstSpan.index) && dstSpan.length == UnitBits(f, dstSpan.index, bitsLeft)
    ensures status == Ok ==> Advanced(srcSpan, f.bitLength - bitsLeft + dstSpan.length)
    ensures status == Ok ==> byteOffset + f.width <= region.Length
    ensures status == Ok ==>
      Stored(before, BitsOf(region[..]), f, value, 8 * (offset + f.width), f.bitLength - bitsLeft + dstSpan.length)
    ensures status != Ok ==> region[..] == old(region[..])
    ensures status == InvalidArgument ==> f.rule == InvalidRule
    ensures status == OutOfBounds ==> byteOffset + f.width > region.Length
  {
    hide BitsOf, Splice, Fit, Walking, CeilDiv, UnitBits, Field.Units, Field.Start, Field.Valid, Stored, RestReady,
      UnitReady, Placed;
    WalkEnds(f, 0, 0, 0, 0);
    dstSpan.length := UnitBits(f, dstSpan.index, bitsLeft);
    WalkStep(f, offset, dstSpan.index, bitsLeft, unitsLeft, dstSpan.length);
    WalkPlaced(f, offset, dstSpan.index, bitsLeft, unitsLeft);
    status := PrepareUnit(f, region, dstSpan.data, byteOffset, dstSpan.index, dstSpan.length);
    if status != Ok {
      return;
    }
    ghost var mid, unit, done, n := region[..], BitsOf(dstSpan.data[..]), f.bitLength - bitsLeft, dstSpan.length;
    ghost var source := srcSpan.data[..];
    ValuePiece(BitsOf(source), f.bitLength, done, n, srcSpan.index);
    assert Span(source, srcSpan.index, srcSpan.length) == BitsOf(source)[srcSpan.index..];
    Copy(dstSpan, srcSpan);
    ghost var full := dstSpan.data[..];
    assert BitsOf(full) == Splice(unit, dstSpan.index, value[done..done + n]);
    var _ := srcSpan.Offset(dstSpan.length);
    status := AccessWrite(region, byteOffset, f.width, dstSpan.data);
    if status == Ok {
      StoredSize(before, BitsOf(mid), f, value, 8 * offset, done);
      UnitComplete(unit, BitsOf(full), before, BitsOf(mid), f, value, 8 * offset, 8 * byteOffset, dstSpan.index, done,
                   n);
      BitsOfSpliceBytes(mid, byteOffset, full[..f.width]);
      BitsOfTakeDrop(full, f.width);
      WriteRound(before, BitsOf(mid), BitsOf(region[..]), f, value, 8 * offset, 8 * byteOffset, dstSpan.index, done, n,
                 BitsOf(full));
    }
  }

  /**
   `write_generic_field_unit`. The value is cut or padded to the field. Success means every access
   of the field was in bounds; after a failure the accesses before the failing one have been written.
   */
  method Write(f: Field, region: array<byte>, src: array<byte>)
    returns (status: Status, ghost end: nat, ghost done: nat)
    requires f.Valid() && region != src
    modifies region
    ensures Stored(BitsOf(old(region[..])), BitsOf(region[..]), f, Fit(BitsOf(src[..]), f.bitLength), end, done)
    ensures done <= f.bitLength && end <= 8 * f.End() && (done == 0 || f.Start() + done <= end)
    ensures status == Ok ==> done == f.bitLength
    ensures status == Ok && 0 < f.bitLength ==> end == 8 * f.End() && Least(f.End(), WORD32) <= region.Length
    ensures f.rule != InvalidRule && (f.bitLength == 0 || Least(f.End(), WORD32) <= region.Length) ==> status == Ok
    ensures status == OutOfBounds ==> Least(f.End(), WORD32) > region.Length && end <= REACH
    ensures status == InvalidArgument ==> f.rule == InvalidRule
  {
    hide BitsOf, Splice, Fit, Walking, CeilDiv, UnitBits, Field.Units, Field.Valid, Field.Start, Field.End, Stored;
    var byteOffset: nat, bitsLeft: nat := f.byteOffset, f.bitLength;
    var unit := new byte[8];
    var srcSpan := new BitSpan(src, 0, 8 * src.Length);
    var dstSpan := new BitSpan(unit, f.bitOffset, 0);
    ghost var before, value := BitsOf(region[..]), Fit(BitsOf(src[..]), f.bitLength);
    ghost var unitsLeft: nat, offset: nat := f.Units(), f.byteOffset;
    WalkEnds(f, 0, 0, 0, 0);
    OffsetFits(f);
    StoredNothing(before, f, value);
    while bitsLeft > 0
      invariant Walking(f, offset, dstSpan.index, bitsLeft, unitsLeft) && byteOffset == offset % WORD32
      invariant bitsLeft <= f.bitLength && offset >= f.byteOffset
      invariant dstSpan.index > 0 ==> bitsLeft == f.bitLength && offset == f.byteOffset
      invariant (offset == f.byteOffset || Least(offset, WORD32) <= region.Length) &&
                (bitsLeft < f.bitLength ==> offset > f.byteOffset)
      invariant offset <= f.End() && (bitsLeft == f.bitLength || f.Start() + (f.bitLength - bitsLeft) <= 8 * offset)
      invariant Advanced(srcSpan, f.bitLength - bitsLeft)
      invariant value == Fit(BitsOf(src[..]), f.bitLength)
      invariant Stored(before, BitsOf(region[..]), f, value, 8 * offset, f.bitLength - bitsLeft)
      decreases unitsLeft
    {
      WalkMore(f, offset, dstSpan.index, bitsLeft, unitsLeft);
      WalkWraps(f, offset, dstSpan.index, bitsLeft, unitsLeft);
      status := WriteUnit(f, region, dstSpan, srcSpan, byteOffset, bitsLeft, offset, unitsLeft, before, value);
      WalkStep(f, offset, dstSpan.index, bitsLeft, unitsLeft, dstSpan.length);
      if status != Ok {
        return status, 8 * offset, f.bitLength - bitsLeft;
      }
      bitsLeft := bitsLeft - dstSpan.length;
      dstSpan.index := 0;
      byteOffset := (byteOffset + f.width) % WORD32;
      offset := offset + f.width;
      unitsLeft := unitsLeft - 1;
    }
    WalkMore(f, offset, dstSpan.index, bitsLeft, unitsLeft);
    WalkEnds(f, offset, dstSpan.index, bitsLeft, unitsLeft);
    return Ok, 8 * offset, f.bitLength;
  }

  lemma StoredNothing(before: bits, f: Field, value: bits)
    requires f.byteOffset < WORD32
    ensures Stored(before, before, f, value, 8 * f.byteOffset, 0)
  {
  }

  /** While bits are left there is an access left; with none left only an unstarted walk has one. */
  lemma WalkMore(f: Field, byteOffset: nat, index: nat, bitsLeft: nat, unitsLeft: nat)
    requires f.Valid() && Walking(f, byteOffset, index, bitsLeft, unitsLeft)
    ensures 0 < bitsLeft ==> 0 < unitsLeft
    ensures index == 0 && bitsLeft == 0 ==> unitsLeft == 0
  {
    CeilDivStep(index + bitsLeft, 8 * f.width);
  }

  // -------------------------------------------------------------------------
  // When reads and writes mean what they say

  /** The accesses stay below 2^32 bytes if and only if the field does. */
  lemma EndsBelow(f: Field)
    requires f.Valid()
    ensures f.End() <= WORD32 <==> f.Start() + f.bitLength <= REACH
  {
    CeilDivStep(f.bitOffset + f.bitLength, 8 * f.width);
    var w, u, o := f.width, f.Units(), f.byteOffset;
    var m := w * u;
    assert f.End() == o + m && 8 * w * u == 8 * m;
    hide CeilDiv, Aligned;
    if 0 < u && f.End() > WORD32 {
      MulStep(w, u);
      LastAccess(o, w, u - 1);
    }
  }

  /** An access that ends after 2^32 bytes starts there or later. */
  lemma {:induction false} LastAccess(offset: nat, width: nat, n: nat)
    requires width in {1, 2, 4, 8} && Aligned(offset, width) && offset < WORD32 && offset + width * n + width > WORD32
    ensures offset + width * n >= WORD32
    decreases n
  {
    hide Aligned;
    if n == 0 {
      AlignedBelow(offset, width);
    } else {
      MulStep(width, n);
      AlignedNext(offset, width);
      if offset + width < WORD32 {
        LastAccess(offset + width, width, n - 1);
      }
    }
  }

  /** A read succeeds exactly if all accesses are in bounds, and then gives the field's bits. */
  ghost predicate ReadsRight(region: seq<byte>, f: Field)
    requires f.Valid()
  {
    && (Least(f.End(), WORD32) <= |region| <==> f.End() <= |region|)
    && (f.End() <= |region| ==>
          && f.Start() + f.bitLength <= 8 * |region| && Reaches(|region|, f.Start(), f.bitLength)
          && Around(region, f.Start(), f.bitLength) == Value(region, f))
  }

  /** That is so if and only if the field stays below 2^32 bytes, or the region ends before them. */
  lemma ReadRight(region: seq<byte>, f: Field)
    requires f.Valid()
    ensures f.End() <= WORD32 || |region| < WORD32 ==> ReadsRight(region, f)
    ensures (8 * |region| > REACH ==> BitsOf(region)[0] != BitsOf(region)[REACH]) ==>
              (ReadsRight(region, f) <==> f.End() <= WORD32 || |region| < WORD32)
  {
    hide BitsOf, Around, Value;
    EndsBelow(f);
    WalkEnds(f, 0, 0, 0, 0);
    if f.End() <= |region| && f.End() <= WORD32 {
      ValueAround(region, f);
    } else if f.End() <= |region| && f.End() > WORD32 {
      OffsetFits(f);
      assert f.Start() < REACH;
      AroundAt(region, f.Start(), f.bitLength, REACH - f.Start());
      ValueAt(region, f, REACH - f.Start());
    }
  }

  lemma ValueAt(region: seq<byte>, f: Field, j: nat)
    requires f.Start() + f.bitLength <= 8 * |region| && j < f.bitLength
    ensures Value(region, f)[j] == BitsOf(region)[f.Start() + j]
  {
  }

  /**
   A complete write is one of the field's own accesses if the field stays below 2^32 bytes; if it does not, and the
   region is that long, the write goes on at the start of the region, so it is none as soon as that changes a bit.
   */
  lemma WriteRight(before: bits, after: bits, f: Field, value: bits)
    requires f.Valid() && |value| == f.bitLength && Stored(before, after, f, value, 8 * f.End(), f.bitLength)
    ensures f.End() <= WORD32 ==> Written(before, after, f, value, 8 * f.End(), f.bitLength)
    ensures f.End() > WORD32 ==> f.Start() < REACH < f.Start() + f.bitLength
    ensures f.End() > WORD32 && 0 < |before| ==> after[0] == value[REACH - f.Start()]
    ensures f.End() > WORD32 && 0 < |before| && before[0] != value[REACH - f.Start()] ==>
              !Written(before, after, f, value, 8 * f.End(), f.bitLength)
  {
    EndsBelow(f);
    WalkEnds(f, 0, 0, 0, 0);
    OffsetFits(f);
    if f.End() <= WORD32 {
      StoredWritten(before, after, f, value, 8 * f.End(), f.bitLength);
    } else {
      AboveZero(f);
      hide Outside, Field.Valid, Field.End;
      assert Turn(f, 0) == REACH;
    }
  }

  /** A field that goes on past 2^32 bytes starts well after the start of the region. */
  lemma AboveZero(f: Field)
    requires f.Valid() && f.End() > WORD32
    ensures 0 < f.byteOffset && f.Start() < REACH < f.Start() + f.bitLength
  {
    EndsBelow(f);
    AlignedBelow(f.byteOffset, f.width);
  }

  // -------------------------------------------------------------------------
  // What a write means for reads

  /** A complete write makes the field read back the value, whatever the update rule. */
  lemma ReadBack(before: seq<byte>, after: seq<byte>, f: Field, value: bits, end: nat)
    requires Written(BitsOf(before), BitsOf(after), f, value, end, f.bitLength) && |value| == f.bitLength
    requires f.Start() + f.bitLength <= 8 * |before|
    ensures |after| == |before| && Value(after, f) == value
  {
    hide BitsOf;
  }

  /** Under the Preserve rule a write changes no bit outside the field. */
  lemma OtherBitsKept(before: bits, after: bits, f: Field, value: bits, end: nat, done: nat, k: nat)
    requires Written(before, after, f, value, end, done) && f.rule == Preserve && done <= f.bitLength
    requires k < |before| && !(f.Start() <= k < f.Start() + f.bitLength)
    ensures after[k] == before[k]
  {
  }

  /** The fields share no bit; an empty field shares none with any other. */
  predicate Disjoint(f: Field, g: Field) {
    f.bitLength == 0 || g.bitLength == 0 || f.Start() + f.bitLength <= g.Start() || g.Start() + g.bitLength <= f.Start()
  }

  /** Under the Preserve rule a write, complete or not, leaves every disjoint field alone. */
  lemma OtherFieldsKept(before: seq<byte>, after: seq<byte>, f: Field, value: bits, end: nat, done: nat, g: Field)
    requires Written(BitsOf(before), BitsOf(after), f, value, end, done) && f.rule == Preserve && done <= f.bitLength
    requires Disjoint(f, g) && g.Start() + g.bitLength <= 8 * |before|
    ensures |after| == |before| && Value(after, g) == Value(before, g)
  {
    hide BitsOf;
  }
}
