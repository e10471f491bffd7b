/**
 Bytes, and the bits of a buffer as a sequence: least significant bit of the first
 byte first.
 */
module Bits {

  type byte = bv8
  type bits = seq<bool>

  // -------------------------------------------------------------------------
  // Single bytes

  /** A shift count or bit number, as the 8-bit value the source keeps it in. */
  function Small(j: nat): (r: bv8)
    requires j <= 8
    ensures r <= 8
    ensures (j < 8 <==> r < 8) && (0 < j <==> 0 < r)
  {
    if j == 0 then 0 else if j == 1 then 1 else if j == 2 then 2 else if j == 3 then 3
    else if j == 4 then 4 else if j == 5 then 5 else if j == 6 then 6 else if j == 7 then 7 else 8
  }

  lemma SmallAdd(a: nat, b: nat)
    requires a <= 8 && b <= 8
    ensures a + b <= 8 ==> Small(a + b) == Small(a) + Small(b)
    ensures a + b >= 8 ==> Small(a + b - 8) == Small(a) + Small(b) - 8
  {
  }

  lemma SmallLess(a: nat, b: nat)
    requires a <= 8 && b <= 8
    ensures (a < b) == (Small(a) < Small(b))
  {
  }

  /** Bit `j` of one byte. */
  predicate TestBit(b: byte, j: nat)
    requires j < 8
  {
    (b >> Small(j)) & 1 == 1
  }

  /** The eight bits of a byte. */
  function ByteBits(b: byte): (r: bits)
    ensures |r| == 8
  {
    seq(8, (j: nat) requires j < 8 => TestBit(b, j))
  }

  lemma ByteBitsIndex(b: byte, j: nat)
    requires j < 8
    ensures ByteBits(b)[j] == TestBit(b, j)
  {
  }

  lemma ByteBitsInjective(a: byte, b: byte)
    requires ByteBits(a) == ByteBits(b)
    ensures a == b
  {
    var x, y := ByteBits(a), ByteBits(b);
    assert x[0] == y[0] && x[1] == y[1] && x[2] == y[2] && x[3] == y[3];
    assert x[4] == y[4] && x[5] == y[5] && x[6] == y[6] && x[7] == y[7];
  }

  // -------------------------------------------------------------------------
  // Buffers

  /** All bits of a buffer. */
  function BitsOf(data: seq<byte>): (r: bits)
    ensures |r| == 8 * |data|
  {
    seq(8 * |data|, (k: nat) requires k < 8 * |data| => TestBit(data[k / 8], k % 8))
  }

  lemma BitsOfIndex(data: seq<byte>, i: nat, j: nat)
    requires i < |data| && j < 8
    ensures BitsOf(data)[8 * i + j] == ByteBits(data[i])[j]
  {
  }

  lemma BitsOfInjective(a: seq<byte>, b: seq<byte>)
    requires BitsOf(a) == BitsOf(b)
    ensures a == b
  {
    forall i | 0 <= i < |a|
      ensures a[i] == b[i]
    {
      forall j | 0 <= j < 8
        ensures ByteBits(a[i])[j] == ByteBits(b[i])[j]
      {
        BitsOfIndex(a, i, j);
        BitsOfIndex(b, i, j);
      }
      ByteBitsInjective(a[i], b[i]);
    }
  }

  lemma BitsOfTakeDrop(data: seq<byte>, i: nat)
    requires i <= |data|
    ensures BitsOf(data[..i]) == BitsOf(data)[..8 * i]
    ensures BitsOf(data[i..]) == BitsOf(data)[8 * i..]
  {
    forall k | 0 <= k < 8 * (|data| - i)
      ensures BitsOf(data[i..])[k] == BitsOf(data)[8 * i..][k]
    {
      assert (8 * i + k) / 8 == i + k / 8 && (8 * i + k) % 8 == k % 8;
    }
  }

  lemma BitsOfSlice(data: seq<byte>, lo: nat, hi: nat)
    requires lo <= hi <= |data|
    ensures BitsOf(data[lo..hi]) == BitsOf(data)[8 * lo..8 * hi]
  {
    BitsOfTakeDrop(data, hi);
    BitsOfTakeDrop(data[..hi], lo);
    assert data[..hi][lo..] == data[lo..hi];
  }

  /** `n` clear bits. */
  function Zeroes(n: nat): (r: bits)
    ensures |r| == n
  {
    seq(n, _ => false)
  }

  lemma BitsOfZeroes(n: nat)
    ensures BitsOf(seq(n, _ => 0 as byte)) == Zeroes(8 * n)
  {
    var data := seq(n, _ => 0 as byte);
    forall k | 0 <= k < 8 * n
      ensures BitsOf(data)[k] == false
    {
      BitsOfIndex(data, k / 8, k % 8);
      assert 8 * (k / 8) + k % 8 == k;
    }
  }

  /** The bits cut, or padded with zeroes, to length `n`. */
  function Fit(b: bits, n: nat): (r: bits)
    ensures |r| == n
  {
    if n <= |b| then b[..n] else b + Zeroes(n - |b|)
  }

  lemma FitIndex(b: bits, n: nat, k: nat)
    requires k < n
    ensures Fit(b, n)[k] == (k < |b| && b[k])
  {
  }

  /** A sequence with a piece of it replaced. */
  function Splice<T>(b: seq<T>, at: nat, piece: seq<T>): (r: seq<T>)
    requires at + |piece| <= |b|
    ensures |r| == |b|
  {
    b[..at] + piece + b[at + |piece|..]
  }

  lemma SpliceIndex(b: bits, at: nat, piece: bits, k: nat)
    requires at + |piece| <= |b| && k < |b|
    ensures Splice(b, at, piece)[k] == if at <= k < at + |piece| then piece[k - at] else b[k]
  {
  }

  /** A splice read off index by index. */
  lemma SpliceByIndex(r: bits, d: bits, at: nat, w: bits, lo: nat, hi: nat)
    requires lo <= hi <= |w| && at + (hi - lo) <= |d| == |r|
    requires forall j :: 0 <= j < |d| ==> r[j] == if at <= j < at + (hi - lo) then w[lo + (j - at)] else d[j]
    ensures r == Splice(d, at, w[lo..hi])
  {
  }

  /** Bits cut or padded to length, read off index by index. */
  lemma FitByIndex(r: bits, b: bits)
    requires forall j :: 0 <= j < |r| ==> r[j] == (j < |b| && b[j])
    ensures r == Fit(b, |r|)
  {
  }

  lemma SpliceInner(b: bits, at: nat, n: nat, shift: nat, piece: bits)
    requires at + n <= |b| && shift + |piece| <= n
    ensures Splice(b, at, Splice(b[at..at + n], shift, piece)) == Splice(b, at + shift, piece)
  {
  }

  lemma BitsOfUpdate(data: seq<byte>, i: nat, v: byte)
    requires i < |data|
    ensures BitsOf(data)[8 * i..8 * i + 8] == ByteBits(data[i])
    ensures BitsOf(data[i := v]) == Splice(BitsOf(data), 8 * i, ByteBits(v))
  {
    hide Splice, ByteBits, TestBit;
    forall j | 0 <= j < 8
      ensures BitsOf(data)[8 * i + j] == ByteBits(data[i])[j]
      ensures BitsOf(data[i := v])[8 * i + j] == ByteBits(v)[j]
    {
      BitsOfIndex(data, i, j);
      BitsOfIndex(data[i := v], i, j);
    }
    assert ByteBits(v)[0..8] == ByteBits(v);
    SpliceByIndex(BitsOf(data[i := v]), BitsOf(data), 8 * i, ByteBits(v), 0, 8);
  }

  lemma SpliceTwice(b: bits, at: nat, x: bits, y: bits)
    requires at + |x| + |y| <= |b|
    ensures Splice(Splice(b, at, x), at + |x|, y) == Splice(b, at, x + y)
  {
  }

  lemma BitsOfConcat(a: seq<byte>, b: seq<byte>)
    ensures BitsOf(a + b) == BitsOf(a) + BitsOf(b)
  {
    hide BitsOf;
    BitsOfTakeDrop(a + b, |a|);
    assert (a + b)[..|a|] == a && (a + b)[|a|..] == b;
    assert BitsOf(a + b) == BitsOf(a + b)[..8 * |a|] + BitsOf(a + b)[8 * |a|..];
  }

  /** The bytes cut, or padded with zero bytes, to length `n`. */
  function FitBytes(data: seq<byte>, n: nat): (r: seq<byte>)
    ensures |r| == n
  {
    if n <= |data| then data[..n] else data + seq(n - |data|, _ => 0 as byte)
  }

  lemma BitsOfFitBytes(data: seq<byte>, n: nat)
    ensures BitsOf(FitBytes(data, n)) == Fit(BitsOf(data), 8 * n)
  {
    if n <= |data| {
      BitsOfTakeDrop(data, n);
    } else {
      BitsOfConcat(data, seq(n - |data|, _ => 0 as byte));
      BitsOfZeroes(n - |data|);
    }
  }

  lemma SpliceBytesByIndex(r: seq<byte>, data: seq<byte>, at: nat, piece: seq<byte>)
    requires at + |piece| <= |data| == |r|
    requires forall i :: 0 <= i < |data| ==> r[i] == if at <= i < at + |piece| then piece[i - at] else data[i]
    ensures r == Splice(data, at, piece)
  {
  }

  lemma BitsOfSpliceBytes(data: seq<byte>, at: nat, piece: seq<byte>)
    requires at + |piece| <= |data|
    ensures BitsOf(Splice(data, at, piece)) == Splice(BitsOf(data), 8 * at, BitsOf(piece))
  {
    hide BitsOf;
    BitsOfTakeDrop(data, at);
    BitsOfTakeDrop(data, at + |piece|);
    BitsOfConcat(data[..at] + piece, data[at + |piece|..]);
    BitsOfConcat(data[..at], piece);
  }

  // -------------------------------------------------------------------------
  // Setting, clearing and testing one bit of a byte

  lemma SetBits(b: byte, j: bv8, k: bv8)
    requires j < 8 && k < 8
    ensures ((b | (1 << j)) >> k) & 1 == if k == j then 1 else (b >> k) & 1
    ensures ((b & !(1 << j)) >> k) & 1 == if k == j then 0 else (b >> k) & 1
  {
    if j == 0 {} else if j == 1 {} else if j == 2 {} else if j == 3 {}
    else if j == 4 {} else if j == 5 {} else if j == 6 {} else {}
  }

  /** The byte with bit `j` set or cleared by a mask. */
  function WithBit(v: byte, j: nat, b: bool): (r: byte)
    requires j < 8
  {
    if b then v | (1 << Small(j)) else v & !(1 << Small(j))
  }

  lemma WithBitAt(v: byte, j: nat, b: bool, k: nat)
    requires j < 8 && k < 8
    ensures TestBit(WithBit(v, j, b), k) == if k == j then b else TestBit(v, k)
  {
    SetBits(v, Small(j), Small(k));
    SmallLess(j, k);
    SmallLess(k, j);
  }

  lemma WithBitBits(v: byte, j: nat, b: bool)
    requires j < 8
    ensures ByteBits(WithBit(v, j, b)) == ByteBits(v)[j := b]
  {
    hide WithBit, TestBit;
    var r, e := ByteBits(WithBit(v, j, b)), ByteBits(v)[j := b];
    forall k | 0 <= k < 8
      ensures r[k] == e[k]
    {
      WithBitAt(v, j, b, k);
    }
  }

  lemma MaskTest(b: byte, j: bv8)
    requires j < 8
    ensures (b & (1 << j) != 0) == ((b >> j) & 1 == 1)
  {
    if j == 0 {} else if j == 1 {} else if j == 2 {} else if j == 3 {}
    else if j == 4 {} else if j == 5 {} else if j == 6 {} else {}
  }
}
