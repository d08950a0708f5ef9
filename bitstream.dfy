/**
 * The bit stream of lib/BitStream.h: a growable byte buffer, a bit cursor
 * and a high-water mark. Unsigned values of 1 to 64 bits are packed into
 * the buffer and read back, most significant bit first. Bit i of the
 * stream lives in byte i / 8, at position i % 8 counted from the top of
 * that byte.
 */
module BitStream {
  import opened Bits

  // -----------------------------------------------------------------------
  // The buffer seen as bits

  /** Bit i of the buffer. */
  function StreamBit(data: seq<uint8>, i: nat): bool
    requires i < 8 * |data|
  {
    BitOf(data[i / 8], 7 - i % 8)
  }

  /** Bit i of the buffer, reading as zero past its end (where a resize adds zero bytes). */
  function PaddedBit(data: seq<uint8>, i: nat): bool {
    i < 8 * |data| && StreamBit(data, i)
  }

  /** Byte j of the buffer, or zero past its end. */
  function ByteOrZero(data: seq<uint8>, j: nat): uint8 {
    if j < |data| then data[j] else 0
  }

  /** The low n bits of value, most significant first: the bits a put of n bits writes. */
  function FieldBits(value: nat, n: nat): seq<bool> {
    seq(n, j requires 0 <= j < n => BitOf(value, n - 1 - j))
  }

  /** The number of bits a put or get moves over: a size of 0 stands for the width of the type. */
  function EffectiveSize(width: nat, count: nat): nat {
    if count == 0 then width else count
  }

  /** `std::vector::resize`: cut to n bytes, or extend with zero bytes. */
  function Resize(s: seq<uint8>, n: nat): (r: seq<uint8>)
    ensures |r| == n
    ensures forall i :: 0 <= i < n ==> r[i] == if i < |s| then s[i] else 0
  {
    if n <= |s| then s[..n] else s + seq(n - |s|, _ => 0)
  }

  /**
   * `after` holds `before` (cut or zero-extended to the length of `after`)
   * with the first upTo - at of `bits` ORed in from bit position at.
   */
  ghost predicate WrittenUpTo(before: seq<uint8>, after: seq<uint8>, at: nat, bits: seq<bool>, upTo: nat) {
    && at <= upTo <= at + |bits|
    && forall i {:trigger StreamBit(after, i)} :: 0 <= i < 8 * |after| ==>
         StreamBit(after, i) == (PaddedBit(before, i) || (at <= i < upTo && bits[i - at]))
  }

  /**
   * The effect of a put of `bits` at bit position at on the buffer: it is
   * resized to exactly the bytes that reach the last written bit, and the
   * bits are ORed in.
   */
  ghost predicate Written(before: seq<uint8>, after: seq<uint8>, at: nat, bits: seq<bool>) {
    && |after| == (at + |bits| + 7) / 8
    && WrittenUpTo(before, after, at, bits, at + |bits|)
  }

  /** The n bits of the buffer from position at, as a right-aligned unsigned value. */
  function ReadBits(data: seq<uint8>, at: nat, n: nat): (r: nat)
    requires at + n <= 8 * |data|
    ensures r < Pow2(n)
  {
    if n == 0 then 0
    else 2 * ReadBits(data, at, n - 1) + (if StreamBit(data, at + n - 1) then 1 else 0)
  }

  /** `res` holds the bits of the buffer from at up to upTo, right-aligned. */
  ghost predicate ReadUpTo(data: seq<uint8>, at: nat, upTo: nat, res: nat) {
    && at <= upTo <= 8 * |data|
    && res < Pow2(upTo - at)
    && forall k :: 0 <= k < upTo - at ==> (BitOf(res, k) <==> StreamBit(data, upTo - 1 - k))
  }

  // -----------------------------------------------------------------------
  // Lemmas about the bit view

  lemma {:induction false} ReadBitsBit(data: seq<uint8>, at: nat, n: nat, k: nat)
    requires at + n <= 8 * |data|
    ensures BitOf(ReadBits(data, at, n), k) <==> k < n && StreamBit(data, at + n - 1 - k)
    decreases n
  {
    if n == 0 {
      ZeroBit(k);
    } else if k > 0 {
      ReadBitsBit(data, at, n - 1, k - 1);
    }
  }

  /** Reading a + b bits is reading a bits, then b more, and putting the second reading below the first. */
  lemma {:induction false} ReadBitsConcat(data: seq<uint8>, at: nat, a: nat, b: nat)
    requires at + a + b <= 8 * |data|
    ensures ReadBits(data, at, a + b) == ReadBits(data, at, a) * Pow2(b) + ReadBits(data, at + a, b)
    decreases b
  {
    var x := ReadBits(data, at, a);
    if b == 0 {
      assert x * Pow2(b) == x;
    } else {
      ReadBitsConcat(data, at, a, b - 1);
      var p, y := Pow2(b - 1), ReadBits(data, at + a, b - 1);
      var c := if StreamBit(data, at + a + b - 1) then 1 else 0;
      assert ReadBits(data, at, a + b) == 2 * (x * p + y) + c;
      assert ReadBits(data, at + a, b) == 2 * y + c;
      Regroup(x, p, y, c);
    }
  }

  lemma Regroup(x: int, p: int, y: int, c: int)
    ensures 2 * (x * p + y) + c == x * (2 * p) + (2 * y + c)
  {
  }

  /** Eight bits read from a byte boundary are the byte there. */
  lemma ReadBitsByte(data: seq<uint8>, j: nat)
    requires j < |data|
    ensures ReadBits(data, 8 * j, 8) == data[j]
  {
    var v := ReadBits(data, 8 * j, 8);
    forall k | 0 <= k < 8
      ensures BitOf(v, k) == BitOf(data[j], k)
    {
      ByteBit(data, j, 8 * j, k);
    }
    Pow2At8();
    BitsEqual(v, data[j], 8);
  }

  lemma ByteBit(data: seq<uint8>, j: nat, at: nat, k: nat)
    requires j < |data| && at == 8 * j && k < 8
    ensures BitOf(ReadBits(data, at, 8), k) == BitOf(data[j], k)
  {
    ReadBitsBit(data, at, 8, k);
    DivModUnique(at + 8 - 1 - k, 8, j, 7 - k);
  }

  /** A value that holds the bits from at to upTo is the reference reading of them. */
  lemma ReadUpToIsReadBits(data: seq<uint8>, at: nat, upTo: nat, res: nat)
    requires ReadUpTo(data, at, upTo, res)
    ensures res == ReadBits(data, at, upTo - at)
  {
    forall k | 0 <= k < upTo - at
      ensures BitOf(res, k) == BitOf(ReadBits(data, at, upTo - at), k)
    {
      ReadBitsBit(data, at, upTo - at, k);
    }
    BitsEqual(res, ReadBits(data, at, upTo - at), upTo - at);
  }

  /** Reading n bits that hold the low n bits of value, most significant first, gives value mod 2^n. */
  lemma ReadField(data: seq<uint8>, at: nat, value: nat, n: nat)
    requires at + n <= 8 * |data|
    requires forall t :: 0 <= t < n ==> StreamBit(data, at + t) == FieldBits(value, n)[t]
    ensures ReadBits(data, at, n) == Low(value, n) == value % Pow2(n)
  {
    forall k | 0 <= k < n
      ensures BitOf(ReadBits(data, at, n), k) == BitOf(Low(value, n), k)
    {
      ReadBitsBit(data, at, n, k);
      LowBit(value, n, k);
      assert StreamBit(data, at + (n - 1 - k)) == FieldBits(value, n)[n - 1 - k];
    }
    BitsEqual(ReadBits(data, at, n), Low(value, n), n);
    LowIsMod(value, n);
  }

  /**
   * A put into bits that were clear: afterwards those bits read back as the
   * value cut to n bits, and every other bit of the resized buffer is the
   * old buffer's bit (zero where the buffer grew).
   */
  lemma CleanPut(before: seq<uint8>, after: seq<uint8>, at: nat, value: nat, n: nat)
    requires Written(before, after, at, FieldBits(value, n))
    requires forall i :: at <= i < at + n ==> !PaddedBit(before, i)
    ensures at + n <= 8 * |after|
    ensures ReadBits(after, at, n) == value % Pow2(n)
    ensures forall i :: 0 <= i < 8 * |after| && !(at <= i < at + n) ==> StreamBit(after, i) == PaddedBit(before, i)
  {
    forall t | 0 <= t < n
      ensures StreamBit(after, at + t) == FieldBits(value, n)[t]
    {
      assert !PaddedBit(before, at + t);
    }
    ReadField(after, at, value, n);
  }

  /** Reading the rest of a partly consumed byte gives its low bits. */
  lemma ByteTail(data: seq<uint8>, at: nat)
    requires at % 8 != 0 && at < 8 * |data|
    ensures ReadBits(data, at, 8 - at % 8) == Low(data[at / 8], 8 - at % 8)
  {
    var n := 8 - at % 8;
    forall k | 0 <= k < n
      ensures BitOf(ReadBits(data, at, n), k) == BitOf(Low(data[at / 8], n), k)
    {
      ReadBitsBit(data, at, n, k);
      LowBit(data[at / 8], n, k);
      assert (at + n - 1 - k) / 8 == at / 8;
    }
    BitsEqual(ReadBits(data, at, n), Low(data[at / 8], n), n);
  }

  /** Two buffers of the same length with the same bits are the same buffer. */
  lemma SameBitsSameBytes(a: seq<uint8>, b: seq<uint8>)
    requires |a| == |b|
    requires forall i :: 0 <= i < 8 * |a| ==> StreamBit(a, i) == StreamBit(b, i)
    ensures a == b
  {
    forall j | 0 <= j < |a|
      ensures a[j] == b[j]
    {
      forall k | 0 <= k < 8
        ensures BitOf(a[j], k) == BitOf(b[j], k)
      {
        assert StreamBit(a, 8 * j + 7 - k) == StreamBit(b, 8 * j + 7 - k);
      }
      Pow2At8();
      BitsEqual(a[j], b[j], 8);
    }
  }

  lemma ResizeBits(d: seq<uint8>, n: nat, i: nat)
    requires i < 8 * n
    ensures StreamBit(Resize(d, n), i) == PaddedBit(d, i)
  {
    if i / 8 >= |d| {
      ZeroBit(7 - i % 8);
    }
  }

  /** Resizing the buffer before a put leaves the write about to start. */
  lemma ResizeStartsWrite(before: seq<uint8>, n: nat, at: nat, bits: seq<bool>)
    ensures WrittenUpTo(before, Resize(before, n), at, bits, at)
  {
    forall i | 0 <= i < 8 * n
      ensures StreamBit(Resize(before, n), i) == PaddedBit(before, i)
    {
      ResizeBits(before, n, i);
    }
  }

  /**
   * ORing into byte upTo / 8 a value whose bits are the next r bits of the
   * field, placed at the cursor's position in that byte, and narrowing the
   * result to a byte, extends the write by r bits.
   */
  lemma WriteChunk(before: seq<uint8>, d: seq<uint8>, at: nat, bits: seq<bool>, upTo: nat, r: nat, b: nat)
    requires WrittenUpTo(before, d, at, bits, upTo)
    requires 1 <= r && upTo % 8 + r <= 8 && upTo + r <= at + |bits| && upTo < 8 * |d|
    requires forall k :: 0 <= k < 8 ==>
               (BitOf(b, k) <==> upTo % 8 <= 7 - k < upTo % 8 + r && bits[upTo - at + (7 - k) - upTo % 8])
    ensures WrittenUpTo(before, d[upTo / 8 := Trunc8(Or(d[upTo / 8], b))], at, bits, upTo + r)
  {
    var idx := upTo / 8;
    var x := Trunc8(Or(d[idx], b));
    var d' := d[idx := x];
    forall i | 0 <= i < 8 * |d'|
      ensures StreamBit(d', i) == (PaddedBit(before, i) || (at <= i < upTo + r && bits[i - at]))
    {
      if i / 8 == idx {
        var k := 7 - i % 8;
        LowBit(Or(d[idx], b), 8, k);
        OrBit(d[idx], b, k);
        assert StreamBit(d, i) == BitOf(d[idx], k);
      } else {
        assert StreamBit(d', i) == StreamBit(d, i);
      }
    }
  }

  /** The buffer a byte put at the byte boundary c leaves: cut to c / 8 bytes, then the byte ORed in. */
  function AfterBytePut(d: seq<uint8>, c: nat, b: uint8): (r: seq<uint8>)
    ensures |r| == c / 8 + 1
  {
    Resize(d, c / 8) + [Trunc8(Or(ByteOrZero(d, c / 8), b))]
  }

  lemma AfterBytePutBit(d: seq<uint8>, d': seq<uint8>, c: nat, b: uint8, i: nat)
    requires c % 8 == 0
    requires Written(d, d', c, FieldBits(b, 8))
    requires i < 8 * |d'|
    ensures StreamBit(d', i) == StreamBit(AfterBytePut(d, c, b), i)
  {
    var e := AfterBytePut(d, c, b);
    var k := 7 - i % 8;
    if i < c {
      ResizeBits(d, c / 8, i);
      assert StreamBit(e, i) == StreamBit(Resize(d, c / 8), i);
    } else {
      assert i / 8 == c / 8;
      LowBit(Or(ByteOrZero(d, c / 8), b), 8, k);
      OrBit(ByteOrZero(d, c / 8), b, k);
      if c / 8 >= |d| {
        ZeroBit(k);
      }
      assert FieldBits(b, 8)[i - c] == BitOf(b, k);
    }
  }

  /** A byte put at a byte boundary ORs the byte into the (resized) buffer's byte there. */
  lemma AlignedBytePut(d: seq<uint8>, d': seq<uint8>, c: nat, b: uint8)
    requires c % 8 == 0
    requires Written(d, d', c, FieldBits(b, 8))
    ensures d' == AfterBytePut(d, c, b)
  {
    forall i | 0 <= i < 8 * |d'|
      ensures StreamBit(d', i) == StreamBit(AfterBytePut(d, c, b), i)
    {
      AfterBytePutBit(d, d', c, b, i);
    }
    SameBitsSameBytes(d', AfterBytePut(d, c, b));
  }

  /** The bits a mask of `length` bits starting `from` places below the top of a byte selects. */
  ghost predicate MaskBits(m: nat, from: nat, length: nat) {
    forall k :: 0 <= k < 8 ==> (BitOf(m, k) <==> 8 - from - length <= k < 8 - from)
  }

  /**
   * Appending to a partial reading the next r bits of the buffer: shift the
   * value left by r (narrowed to the width of the result type) and OR in
   * the r-bit chunk that holds those bits.
   */
  lemma ReadChunk(data: seq<uint8>, at: nat, upTo: nat, res: nat, r: nat, width: nat, chunk: nat)
    requires ReadUpTo(data, at, upTo, res)
    requires upTo + r <= 8 * |data| && upTo + r - at <= width
    requires chunk < Pow2(r)
    requires forall k :: 0 <= k < r ==> (BitOf(chunk, k) <==> StreamBit(data, upTo + r - 1 - k))
    ensures ReadUpTo(data, at, upTo + r, Or(Low(Shl(res, r), width), chunk))
  {
    var n := upTo - at;
    ShlBound(res, r, n);
    Pow2Mono(n + r, width);
    LowOfSmall(Shl(res, r), width);
    Pow2Mono(r, n + r);
    OrBound(Shl(res, r), chunk, n + r);
    forall k | 0 <= k < n + r
      ensures BitOf(Or(Shl(res, r), chunk), k) <==> StreamBit(data, upTo + r - 1 - k)
    {
      OrBit(Shl(res, r), chunk, k);
      ShlBit(res, r, k);
      if k >= r {
        HighBitClear(chunk, r, k);
      }
    }
  }

  /** `byte & mask(at % 8, n)`, shifted down, holds the n bits of the byte from position at. */
  lemma FirstChunk(data: seq<uint8>, at: nat, n: nat, m: uint8, chunk: nat)
    requires at + n <= 8 * |data| && 1 <= n && at % 8 + n <= 8
    requires MaskBits(m, at % 8, n) && chunk == Shr(And(data[at / 8], m), 8 - (n + at % 8))
    ensures ReadUpTo(data, at, at + n, chunk)
  {
    var s := 8 - (n + at % 8);
    var x := And(data[at / 8], m);
    Pow2At8();
    AndBound(data[at / 8], m, 8);
    forall k | s + n <= k < 8
      ensures !BitOf(x, k)
    {
      AndBit(data[at / 8], m, k);
    }
    BoundFromBits(x, s + n, 8);
    ShrBound(x, s, n);
    forall k | 0 <= k < n
      ensures BitOf(chunk, k) <==> StreamBit(data, at + n - 1 - k)
    {
      ShrBit(x, s, k);
      AndBit(data[at / 8], m, k + s);
      assert (at + n - 1 - k) / 8 == at / 8;
    }
  }

  /** The first byte of a reading, masked down to the bits the reading takes from it. */
  lemma ReadFirstByte(data: seq<uint8>, at: nat, n: nat, m: uint8)
    requires at + n <= 8 * |data| && 1 <= n && at % 8 + n <= 8
    requires MaskBits(m, at % 8, n)
    ensures Shr(Or(0, And(data[at / 8], m)), 8 - (n + at % 8)) == ReadBits(data, at, n)
  {
    var chunk := Shr(And(data[at / 8], m), 8 - (n + at % 8));
    OrZeroLeft(And(data[at / 8], m));
    FirstChunk(data, at, n, m, chunk);
    ReadUpToIsReadBits(data, at, at + n, chunk);
  }

  /** A whole byte of the buffer holds the 8 bits from its start. */
  lemma WholeByte(data: seq<uint8>, upTo: nat, index: nat)
    requires upTo == 8 * index && index < |data|
    ensures forall k :: 0 <= k < 8 ==> (BitOf(data[index], k) <==> StreamBit(data, upTo + 8 - 1 - k))
  {
  }

  /** The bits of `(value & mask) << shift` where mask keeps the low n bits of a width-bit value. */
  lemma SmallFieldBits(value: nat, width: nat, n: nat, shift: nat, k: nat)
    requires n <= width
    ensures BitOf(Shl(And(value, Shr(Pow2(width) - 1, width - n)), shift), k)
            <==> shift <= k < shift + n && BitOf(value, k - shift)
  {
    ShlBit(And(value, Shr(Pow2(width) - 1, width - n)), shift, k);
    if k >= shift {
      AndBit(value, Shr(Pow2(width) - 1, width - n), k - shift);
      ShrBit(Pow2(width) - 1, width - n, k - shift);
      AllOnesBit(width, k - shift + (width - n));
    }
  }

  // -----------------------------------------------------------------------
  // The four byte writes of a put, each extending the written bits

  /** A put of n bits that fits in the cursor's byte: `(value & mask) << (spaceLeft - n)`. */
  lemma PutWithinByte(before: seq<uint8>, d: seq<uint8>, at: nat, value: nat, width: nat, n: nat)
    requires 1 <= n <= width && at % 8 + n <= 8 && at < 8 * |d|
    requires WrittenUpTo(before, d, at, FieldBits(value, n), at)
    ensures WrittenUpTo(before,
              d[at / 8 := Trunc8(Or(d[at / 8], Shl(And(value, Shr(Pow2(width) - 1, width - n)), 8 - at % 8 - n)))],
              at, FieldBits(value, n), at + n)
  {
    var b := Shl(And(value, Shr(Pow2(width) - 1, width - n)), 8 - at % 8 - n);
    WithinByteBits(value, width, n, at, b);
    WriteChunk(before, d, at, FieldBits(value, n), at, n, b);
  }

  /** The bits of `(value & mask) << (spaceLeft - n)` are the field's n bits, at the cursor's place in its byte. */
  lemma WithinByteBits(value: nat, width: nat, n: nat, at: nat, b: nat)
    requires 1 <= n <= width && at % 8 + n <= 8
    requires b == Shl(And(value, Shr(Pow2(width) - 1, width - n)), 8 - at % 8 - n)
    ensures forall k :: 0 <= k < 8 ==>
              (BitOf(b, k) <==> at % 8 <= 7 - k < at % 8 + n && FieldBits(value, n)[(7 - k) - at % 8])
  {
    var o := at % 8;
    forall k | 0 <= k < 8
      ensures BitOf(b, k) <==> o <= 7 - k < o + n && FieldBits(value, n)[(7 - k) - o]
    {
      SmallFieldBits(value, width, n, 8 - o - n, k);
    }
  }

  /** The first byte of a put that spills over: `(value >> (n - spaceLeft)) & mask(o, spaceLeft)`. */
  lemma PutFirstByte(before: seq<uint8>, d: seq<uint8>, at: nat, value: nat, n: nat, m: nat)
    requires 8 - at % 8 < n && at < 8 * |d|
    requires MaskBits(m, at % 8, 8 - at % 8)
    requires WrittenUpTo(before, d, at, FieldBits(value, n), at)
    ensures WrittenUpTo(before,
              d[at / 8 := Trunc8(Or(d[at / 8], And(Shr(value, n - (8 - at % 8)), m)))],
              at, FieldBits(value, n), at + (8 - at % 8))
  {
    var o := at % 8;
    var b := And(Shr(value, n - (8 - o)), m);
    forall k | 0 <= k < 8
      ensures BitOf(b, k) <==> o <= 7 - k < o + (8 - o) && FieldBits(value, n)[(7 - k) - o]
    {
      AndBit(Shr(value, n - (8 - o)), m, k);
      ShrBit(value, n - (8 - o), k);
    }
    WriteChunk(before, d, at, FieldBits(value, n), at, 8 - o, b);
  }

  /** The last r bits of a put, at a byte boundary: `(value << (8 - r)) & mask(0, r)`. */
  lemma PutLastByte(before: seq<uint8>, d: seq<uint8>, at: nat, value: nat, n: nat, upTo: nat, r: nat, m: nat)
    requires upTo % 8 == 0 && 1 <= r <= 8 && at <= upTo && upTo + r == at + n && upTo < 8 * |d|
    requires MaskBits(m, 0, r)
    requires WrittenUpTo(before, d, at, FieldBits(value, n), upTo)
    ensures WrittenUpTo(before,
              d[upTo / 8 := Trunc8(Or(d[upTo / 8], And(Shl(value, 8 - r), m)))],
              at, FieldBits(value, n), upTo + r)
  {
    var b := And(Shl(value, 8 - r), m);
    forall k | 0 <= k < 8
      ensures BitOf(b, k) <==> 0 <= 7 - k < r && FieldBits(value, n)[upTo - at + (7 - k)]
    {
      AndBit(Shl(value, 8 - r), m, k);
      ShlBit(value, 8 - r, k);
    }
    WriteChunk(before, d, at, FieldBits(value, n), upTo, r, b);
  }

  /** A whole middle byte of a put, r bits before its end: `value >> (r - 8)`, narrowed to a byte. */
  lemma PutMiddleByte(before: seq<uint8>, d: seq<uint8>, at: nat, value: nat, n: nat, upTo: nat, r: nat)
    requires upTo % 8 == 0 && 8 < r && at <= upTo && upTo + r == at + n && upTo < 8 * |d|
    requires WrittenUpTo(before, d, at, FieldBits(value, n), upTo)
    ensures WrittenUpTo(before,
              d[upTo / 8 := Trunc8(Or(d[upTo / 8], Shr(value, r - 8)))],
              at, FieldBits(value, n), upTo + 8)
  {
    var b := Shr(value, r - 8);
    forall k | 0 <= k < 8
      ensures BitOf(b, k) <==> 0 <= 7 - k < 8 && FieldBits(value, n)[upTo - at + (7 - k)]
    {
      ShrBit(value, r - 8, k);
    }
    WriteChunk(before, d, at, FieldBits(value, n), upTo, 8, b);
  }

  // -----------------------------------------------------------------------
  // The byte reads of a get, each extending the bits read

  /** A reference reading of the bits from at to upTo meets the bit view of them. */
  lemma ReadBitsReadUpTo(data: seq<uint8>, at: nat, upTo: nat)
    requires at <= upTo <= 8 * |data|
    ensures ReadUpTo(data, at, upTo, ReadBits(data, at, upTo - at))
  {
    var v := ReadBits(data, at, upTo - at);
    forall k | 0 <= k < upTo - at
      ensures BitOf(v, k) <==> StreamBit(data, upTo - 1 - k)
    {
      ReadBitsBit(data, at, upTo - at, k);
    }
  }

  /**
   * The last r bits of a get, from byte `index` at the cursor upTo:
   * `(byte & mask(0, r)) >> (8 - r)` ORed into the value shifted left by r
   * gives the reading up to upTo + r.
   */
  lemma GetLastByte(data: seq<uint8>, at: nat, upTo: nat, index: nat, res: nat, r: nat, width: nat, m: uint8,
                    res': nat, upTo': nat)
    requires upTo == 8 * index && 1 <= r <= 8 && upTo + r <= 8 * |data| && upTo + r - at <= width
    requires at <= upTo && res == ReadBits(data, at, upTo - at)
    requires MaskBits(m, 0, r)
    requires res' == Or(Low(Shl(res, r), width), Shr(And(data[index], m), 8 - r)) && upTo' == upTo + r
    ensures res' == ReadBits(data, at, upTo' - at)
  {
    var chunk := Shr(And(data[index], m), 8 - r);
    LastChunk(data, upTo, index, r, m, chunk);
    ReadBitsReadUpTo(data, at, upTo);
    ReadChunk(data, at, upTo, res, r, width, chunk);
    ReadUpToIsReadBits(data, at, upTo + r, res');
  }

  /** `(byte & mask(0, r)) >> (8 - r)` holds the top r bits of the byte. */
  lemma LastChunk(data: seq<uint8>, upTo: nat, index: nat, r: nat, m: uint8, chunk: nat)
    requires upTo == 8 * index && 1 <= r <= 8 && upTo + r <= 8 * |data|
    requires MaskBits(m, 0, r) && chunk == Shr(And(data[index], m), 8 - r)
    ensures chunk < Pow2(r)
    ensures forall k :: 0 <= k < r ==> (BitOf(chunk, k) <==> StreamBit(data, upTo + r - 1 - k))
  {
    var masked := And(data[index], m);
    Pow2At8();
    AndBound(data[index], m, 8);
    ShrBound(masked, 8 - r, r);
    forall k | 0 <= k < r
      ensures BitOf(chunk, k) <==> StreamBit(data, upTo + r - 1 - k)
    {
      ShrBit(masked, 8 - r, k);
      AndBit(data[index], m, k + (8 - r));
    }
  }

  /**
   * A whole middle byte of a get, byte `index` at the cursor upTo: the
   * value shifted left by 8 with the byte ORed in is the reading up to
   * upTo + 8.
   */
  lemma GetMiddleByte(data: seq<uint8>, at: nat, upTo: nat, index: nat, res: nat, width: nat,
                      res': nat, upTo': nat)
    requires upTo == 8 * index && upTo + 8 <= 8 * |data| && upTo + 8 - at <= width
    requires at <= upTo && res == ReadBits(data, at, upTo - at)
    requires res' == Or(Low(Shl(res, 8), width), data[index]) && upTo' == upTo + 8
    ensures res' == ReadBits(data, at, upTo' - at)
  {
    ReadBitsReadUpTo(data, at, upTo);
    Pow2At8();
    WholeByte(data, upTo, index);
    ReadChunk(data, at, upTo, res, 8, width, data[index]);
    ReadUpToIsReadBits(data, at, upTo + 8, res');
  }

  /** The number of bytes that reach bit position at + n, as a put computes it. */
  lemma BytesReached(at: nat, n: nat)
    ensures (if (n + at) % 8 != 0 then (n + at) / 8 + 1 else (n + at) / 8) == (at + n + 7) / 8
  {
  }

  /** Where a put of n bits at position at falls among the bytes of its resized buffer. */
  lemma PutLayout(at: nat, n: nat, bytes: nat)
    requires 1 <= n && bytes == (at + n + 7) / 8
    ensures at < 8 * bytes && at + n <= 8 * bytes
    ensures 8 * (at / 8 + 1) == at + (8 - at % 8)
  {
  }

  /** What a byte-range put at a byte boundary c leaves after its first p bytes. */
  ghost function AlignedPut(d0: seq<uint8>, c: nat, bytes: seq<uint8>, p: nat): seq<uint8>
    requires 0 < p <= |bytes|
  {
    AfterBytePut(d0, c, bytes[0]) + bytes[1..p]
  }

  /** A byte put at the very end of the buffer, at a byte boundary, appends it. */
  lemma AppendBytePut(d: seq<uint8>, d': seq<uint8>, c: nat, b: uint8)
    requires c == 8 * |d|
    requires Written(d, d', c, FieldBits(b, 8))
    ensures d' == d + [b]
  {
    AlignedBytePut(d, d', c, b);
    assert Resize(d, c / 8) == d;
    assert AfterBytePut(d, c, b) == d + [Trunc8(Or(ByteOrZero(d, c / 8), b))];
    OrZeroLeft(b);
    Pow2At8();
    LowOfSmall(b, 8);
  }

  /** The first byte of an aligned byte-range put. */
  lemma AlignedPutFirst(d0: seq<uint8>, c: nat, bytes: seq<uint8>, d': seq<uint8>)
    requires c % 8 == 0 && 0 < |bytes|
    requires Written(d0, d', c, FieldBits(bytes[0], 8))
    ensures d' == AlignedPut(d0, c, bytes, 1)
  {
    AlignedBytePut(d0, d', c, bytes[0]);
    assert bytes[1..1] == [];
  }

  /** One more byte put at the end of an aligned byte-range put. */
  lemma AlignedPutNext(d0: seq<uint8>, c: nat, bytes: seq<uint8>, p: nat, d': seq<uint8>)
    requires c % 8 == 0 && 0 < p < |bytes|
    requires Written(AlignedPut(d0, c, bytes, p), d', c + 8 * p, FieldBits(bytes[p], 8))
    ensures d' == AlignedPut(d0, c, bytes, p + 1)
  {
    var d := AlignedPut(d0, c, bytes, p);
    assert c + 8 * p == 8 * |d|;
    AppendBytePut(d, d', c + 8 * p, bytes[p]);
    AlignedPutGrows(d0, c, bytes, p);
  }

  /** Each byte of an aligned byte-range put after the first adds one byte to the buffer. */
  lemma AlignedPutGrows(d0: seq<uint8>, c: nat, bytes: seq<uint8>, p: nat)
    requires 0 < p < |bytes|
    ensures AlignedPut(d0, c, bytes, p + 1) == AlignedPut(d0, c, bytes, p) + [bytes[p]]
  {
    assert bytes[1..p + 1] == bytes[1..p] + [bytes[p]];
  }

  // -----------------------------------------------------------------------
  // The stream

  class BiteStream {
    /** The buffer (`m_data`). */
    var data: seq<uint8>
    /** The bit cursor (`m_offset`): where the next put or get starts. */
    var offset: nat
    /** The high-water mark (`m_size`): the furthest bit position a write has reached. */
    var size: nat

    /** An empty stream. */
    constructor ()
      ensures data == [] && offset == 0 && size == 0
    {
      data := [];
      offset := 0;
      size := 0;
    }

    /** A stream over bytes that count as fully written, ready to be read from the start. */
    constructor FromBytes(bytes: seq<uint8>)
      ensures data == bytes && offset == 0 && size == 8 * |bytes|
    {
      data := bytes;
      offset := 0;
      size := |bytes| * 8;
    }

    /**
     * The byte whose set bits are the `length` consecutive bits starting
     * `from` places below its most significant bit.
     */
    static method Mask(from: nat, length: nat) returns (res: uint8)
      requires from + length <= 8
      ensures MaskBits(res, from, length)
    {
      res := 0;
      for i := 0 to length
        invariant res == Pow2(i) - 1
      {
        OnesStep(i);
        res := Trunc8(Or(res, Shl(1, i)));
      }
      var shift: nat := 8 - (from + length);
      ShiftedOnes(from, length);
      res := Trunc8(Shl(res, shift));
    }

    /**
     * Writes the low n bits of value, most significant first, from the
     * cursor on, where n is `count` or, when `count` is 0, the width of the
     * value's type. The buffer is first resized to exactly the bytes that
     * reach the last written bit, which cuts it short if the cursor had been
     * moved back. The bits are ORed into the buffer, so they read back as
     * written only where the buffer held zero bits. The cursor moves past
     * the written bits and the high-water mark follows it.
     */
    method Put(value: nat, width: nat, count: nat)
      requires IsWidth(width) && value < Pow2(width) && count <= width
      modifies this
      ensures offset == old(offset) + EffectiveSize(width, count)
      ensures Written(old(data), data, old(offset), FieldBits(value, EffectiveSize(width, count)))
      ensures size == Max(old(size), offset)
    {
      var n: nat := count;
      if n == 0 {
        n := width;
      }
      ghost var before, at := data, offset;
      var buf := data;
      var pos: nat := offset;
      var index: nat := pos / 8;
      var offsetInByte: nat := pos % 8;
      var spaceLeftInFirstByte: nat := 8 - offsetInByte;
      var bitsForFirstByte: nat := Min(n, spaceLeftInFirstByte);
      var resize: nat := if (n + pos) % 8 != 0 then (n + pos) / 8 + 1 else (n + pos) / 8;
      if resize != |buf| {
        buf := Resize(buf, resize);
      }
      ResizeStartsWrite(before, resize, at, FieldBits(value, n));
      BytesReached(at, n);
      PutLayout(at, n, resize);
      if n <= spaceLeftInFirstByte {
        buf := OrInWithinByte(buf, before, at, value, width, n, index, spaceLeftInFirstByte);
        index := index + 1;
        pos := pos + n;
      } else {
        var remainingBits: nat := n - bitsForFirstByte;
        buf := OrInFirstBits(buf, before, at, value, n, index, offsetInByte, spaceLeftInFirstByte);
        index := index + 1;
        pos := pos + spaceLeftInFirstByte;
        buf, pos := OrInRest(buf, before, at, value, n, pos, index, remainingBits);
      }
      assert n == EffectiveSize(width, count) && pos == at + n && |buf| == (at + n + 7) / 8;
      assert Written(before, buf, at, FieldBits(value, n));
      data := buf;
      offset := pos;
      size := if size < offset then offset else size;
    }

    /**
     * A put of n bits that fit in byte `index` from the cursor at on: the
     * value masked down to its low n bits, shifted up to end spaceLeft - n
     * bits before the end of the byte.
     */
    static method OrInWithinByte(buf: seq<uint8>, ghost before: seq<uint8>, ghost at: nat, value: nat, width: nat,
                                 n: nat, index: nat, spaceLeft: nat)
      returns (buf': seq<uint8>)
      requires IsWidth(width) && 1 <= n <= width && index == at / 8 && spaceLeft == 8 - at % 8
      requires n <= spaceLeft && at < 8 * |buf|
      requires WrittenUpTo(before, buf, at, FieldBits(value, n), at)
      ensures |buf'| == |buf| && WrittenUpTo(before, buf', at, FieldBits(value, n), at + n)
    {
      var mask: nat := Shr(Pow2(width) - 1, width - n);
      PutWithinByte(before, buf, at, value, width, n);
      var b: uint8 := Trunc8(Or(buf[index], Shl(And(value, mask), spaceLeft - n)));
      buf' := buf[index := b];
    }

    /**
     * The first byte of a put of n bits that spill over it: the top
     * spaceLeft of those bits, shifted down and masked into the free end of
     * byte `index`.
     */
    static method OrInFirstBits(buf: seq<uint8>, ghost before: seq<uint8>, ghost at: nat, value: nat, n: nat,
                                index: nat, offsetInByte: nat, spaceLeft: nat)
      returns (buf': seq<uint8>)
      requires index == at / 8 && offsetInByte == at % 8 && spaceLeft == 8 - offsetInByte
      requires spaceLeft < n && at < 8 * |buf|
      requires WrittenUpTo(before, buf, at, FieldBits(value, n), at)
      ensures |buf'| == |buf| && WrittenUpTo(before, buf', at, FieldBits(value, n), at + spaceLeft)
    {
      var m := Mask(offsetInByte, spaceLeft);
      PutFirstByte(before, buf, at, value, n, m);
      var b: uint8 := Trunc8(Or(buf[index], And(Shr(value, n - spaceLeft), m)));
      buf' := buf[index := b];
    }

    /**
     * The loop of a put that spills over its first byte, from the byte
     * boundary `pos` (byte `index`) on: the next 8 bits of the value while
     * more than 8 remain, then its last 1 to 8 bits.
     */
    static method OrInRest(buf0: seq<uint8>, ghost before: seq<uint8>, ghost at: nat, value: nat, ghost n: nat,
                           pos0: nat, index0: nat, remaining: nat)
      returns (buf: seq<uint8>, pos: nat)
      requires pos0 == 8 * index0 && at <= pos0 && pos0 + remaining == at + n <= 8 * |buf0|
      requires WrittenUpTo(before, buf0, at, FieldBits(value, n), pos0)
      ensures |buf| == |buf0| && pos == pos0 + remaining
      ensures WrittenUpTo(before, buf, at, FieldBits(value, n), pos)
    {
      buf, pos := buf0, pos0;
      var index: nat := index0;
      var remainingBits: nat := remaining;
      while remainingBits != 0
        invariant WrittenUpTo(before, buf, at, FieldBits(value, n), pos)
        invariant |buf| == |buf0|
        invariant pos + remainingBits == at + n
        invariant remainingBits != 0 ==> pos == 8 * index
        decreases remainingBits
      {
        if remainingBits <= 8 {
          ghost var next := pos + remainingBits;
          buf := OrInLastBits(buf, before, at, value, n, pos, next, index, remainingBits);
          index := index + 1;
          pos := pos + remainingBits;
          remainingBits := 0;
        } else {
          ghost var next := pos + 8;
          buf := OrInByte(buf, before, at, value, n, pos, next, index, remainingBits);
          index := index + 1;
          pos := pos + 8;
          remainingBits := remainingBits - 8;
        }
      }
    }

    /**
     * The last step of a put's loop, at the byte boundary upTo: the last r
     * bits of the value, moved to the top of byte `index` and masked.
     *
     * The ghost `next` is the cursor after the step, named so that this
     * contract reads as the loop's invariant at the next turn.
     */
    static method OrInLastBits(buf: seq<uint8>, ghost before: seq<uint8>, ghost at: nat, value: nat, ghost n: nat,
                               ghost upTo: nat, ghost next: nat, index: nat, r: nat)
      returns (buf': seq<uint8>)
      requires upTo == 8 * index && 1 <= r <= 8 && at <= upTo && next == upTo + r == at + n <= 8 * |buf|
      requires WrittenUpTo(before, buf, at, FieldBits(value, n), upTo)
      ensures |buf'| == |buf| && WrittenUpTo(before, buf', at, FieldBits(value, n), next)
    {
      var m0 := Mask(0, r);
      PutLastByte(before, buf, at, value, n, upTo, r, m0);
      buf' := buf[index := Trunc8(Or(buf[index], And(Shl(value, 8 - r), m0)))];
    }

    /**
     * A middle step of a put's loop, at the byte boundary upTo with r > 8
     * bits left: the 8 bits of the value that end r - 8 bits from its end.
     *
     * The ghost `next` is the cursor after the step, named so that this
     * contract reads as the loop's invariant at the next turn.
     */
    static method OrInByte(buf: seq<uint8>, ghost before: seq<uint8>, ghost at: nat, value: nat, ghost n: nat,
                           ghost upTo: nat, ghost next: nat, index: nat, r: nat)
      returns (buf': seq<uint8>)
      requires upTo == 8 * index && 8 < r && at <= upTo && upTo + r == at + n <= 8 * |buf| && next == upTo + 8
      requires WrittenUpTo(before, buf, at, FieldBits(value, n), upTo)
      ensures |buf'| == |buf| && WrittenUpTo(before, buf', at, FieldBits(value, n), next)
    {
      PutMiddleByte(before, buf, at, value, n, upTo, r);
      buf' := buf[index := Trunc8(Or(buf[index], Shr(value, r - 8)))];
    }

    /**
     * The byte-range put. At a byte boundary each byte goes through the
     * 8-bit put: the first is ORed into the byte under the cursor, and each
     * later one lands in a byte that put has just cut off or added, so it is
     * stored as it is. Off a byte boundary the bytes are appended to the end
     * of the buffer unshifted; the cursor stays and the high-water mark
     * grows by 8 bits per byte.
     */
    method PutBytes(bytes: seq<uint8>)
      modifies this
      ensures old(offset) % 8 != 0 ==>
        data == old(data) + bytes && offset == old(offset) && size == old(size) + 8 * |bytes|
      ensures old(offset) % 8 == 0 && |bytes| == 0 ==>
        data == old(data) && offset == old(offset) && size == old(size)
      ensures old(offset) % 8 == 0 && |bytes| > 0 ==>
        && data == Resize(old(data), old(offset) / 8)
                   + [Trunc8(Or(ByteOrZero(old(data), old(offset) / 8), bytes[0]))] + bytes[1..]
        && offset == old(offset) + 8 * |bytes|
        && size == Max(old(size), offset)
    {
      if offset % 8 != 0 {
        data := data + bytes;
        size := size + |bytes| * 8;
      } else {
        ghost var d0, c, s0 := data, offset, size;
        Pow2At8();
        for p := 0 to |bytes|
          invariant offset == c + 8 * p
          invariant size == if p == 0 then s0 else Max(s0, offset)
          invariant p == 0 ==> data == d0
          invariant p > 0 ==> data == AlignedPut(d0, c, bytes, p)
        {
          Put(bytes[p], 8, 0);
          if p == 0 {
            AlignedPutFirst(d0, c, bytes, data);
          } else {
            AlignedPutNext(d0, c, bytes, p, data);
          }
        }
        assert |bytes| > 0 ==> bytes[1..|bytes|] == bytes[1..];
      }
    }

    /** Moves the cursor to the high-water mark, then puts the bytes there. */
    method PutToEnd(bytes: seq<uint8>)
      modifies this
      ensures old(size) % 8 != 0 ==>
        data == old(data) + bytes && offset == old(size) && size == old(size) + 8 * |bytes|
      ensures old(size) % 8 == 0 && |bytes| == 0 ==>
        data == old(data) && offset == old(size) && size == old(size)
      ensures old(size) % 8 == 0 && |bytes| > 0 ==>
        && data == Resize(old(data), old(size) / 8)
                   + [Trunc8(Or(ByteOrZero(old(data), old(size) / 8), bytes[0]))] + bytes[1..]
        && offset == old(size) + 8 * |bytes|
        && size == offset
    {
      offset := size;
      PutBytes(bytes);
    }

    /**
     * Reads n bits from the cursor on, where n is `count` or, when `count`
     * is 0, the width of the result type, and returns them right-aligned.
     * The cursor moves past them; nothing else changes.
     */
    method Get(width: nat, count: nat) returns (res: nat)
      requires IsWidth(width) && count <= width
      requires offset + EffectiveSize(width, count) <= 8 * |data|
      modifies this
      ensures data == old(data) && size == old(size)
      ensures offset == old(offset) + EffectiveSize(width, count)
      ensures res == ReadBits(data, old(offset), EffectiveSize(width, count))
    {
      res := 0;
      var n: nat := count;
      if n == 0 {
        n := width;
      }
      ghost var at := offset;
      var buf := data;
      var pos: nat := offset;
      var index: nat := pos / 8;
      var offsetInByte: nat := pos % 8;
      var remainingInFirstByte: nat := 8 - offsetInByte;
      var bitsInFirstByte: nat := Min(n, remainingInFirstByte);
      res := ShiftInFirstBits(buf, at, index, offsetInByte, bitsInFirstByte);
      index := index + 1;
      pos := pos + bitsInFirstByte;
      var remainingBits: nat := n - bitsInFirstByte;
      if remainingBits == 0 {
        assert bitsInFirstByte == n;
        res := Shr(res, 8 - (n + offsetInByte));
      }
      if remainingBits > 0 {
        res, pos := ShiftInRest(buf, at, pos, index, res, remainingBits, width);
      }
      assert pos - at == n == EffectiveSize(width, count);
      assert res == ReadBits(buf, at, EffectiveSize(width, count));
      offset := pos;
    }

    /**
     * The loop of a get, from the byte boundary `pos` (byte `index`) on:
     * whole bytes while more than 8 bits remain, then the last 1 to 8 bits.
     */
    static method ShiftInRest(buf: seq<uint8>, ghost at: nat, pos0: nat, index0: nat, res0: nat,
                              remaining: nat, width: nat)
      returns (res: nat, pos: nat)
      requires pos0 == 8 * index0 && at <= pos0 && pos0 + remaining <= 8 * |buf| && pos0 + remaining - at <= width
      requires res0 == ReadBits(buf, at, pos0 - at)
      ensures pos == pos0 + remaining && res == ReadBits(buf, at, pos - at)
    {
      res, pos := res0, pos0;
      var index: nat := index0;
      var remainingBits: nat := remaining;
      while remainingBits > 0
        invariant pos + remainingBits == pos0 + remaining
        invariant at <= pos && res == ReadBits(buf, at, pos - at)
        invariant remainingBits > 0 ==> pos == 8 * index
        decreases remainingBits
      {
        if remainingBits <= 8 {
          ghost var next := pos + remainingBits;
          res := ShiftInLastBits(buf, at, pos, next, index, res, remainingBits, width);
          index := index + 1;
          pos := pos + remainingBits;
          remainingBits := 0;
        } else {
          ghost var next := pos + 8;
          res := ShiftInByte(buf, at, pos, next, index, res, width);
          index := index + 1;
          pos := pos + 8;
          remainingBits := remainingBits - 8;
        }
      }
    }

    /**
     * The first step of a get: the bits of byte `index` selected by a mask
     * of `bits` bits starting `offsetInByte` places below its top, ORed into
     * a zero value. When they run to the end of the byte they are the
     * reading of those bits; otherwise they still have to be shifted down.
     */
    static method ShiftInFirstBits(buf: seq<uint8>, ghost at: nat, index: nat, offsetInByte: nat, bits: nat)
      returns (res: nat)
      requires at == 8 * index + offsetInByte && 1 <= bits && offsetInByte + bits <= 8 && at + bits <= 8 * |buf|
      ensures Shr(res, 8 - (bits + offsetInByte)) == ReadBits(buf, at, bits)
      ensures bits + offsetInByte == 8 ==> res == ReadBits(buf, at, bits)
    {
      var m := Mask(offsetInByte, bits);
      DivModUnique(at, 8, index, offsetInByte);
      ReadFirstByte(buf, at, bits, m);
      res := Or(0, And(buf[index], m));
    }

    /**
     * The last step of a get's loop, at the byte boundary upTo: shift the
     * value left by the r bits still to read, then OR in the top r bits of
     * byte `index`, masked and shifted down.
     *
     * The ghost `next` is the cursor after the step, named so that this
     * contract reads as the loop's invariant at the next turn.
     */
    static method ShiftInLastBits(buf: seq<uint8>, ghost at: nat, ghost upTo: nat, ghost next: nat, index: nat,
                                  res: nat, r: nat, width: nat)
      returns (res': nat)
      requires upTo == 8 * index && 1 <= r <= 8 && next == upTo + r <= 8 * |buf| && next - at <= width
      requires at <= upTo && res == ReadBits(buf, at, upTo - at)
      ensures res' == ReadBits(buf, at, next - at)
    {
      res' := Low(Shl(res, r), width);
      var m0 := Mask(0, r);
      AndByte(buf[index], m0);
      var masked: uint8 := And(buf[index], m0);
      res' := Or(res', Shr(masked, 8 - r));
      GetLastByte(buf, at, upTo, index, res, r, width, m0, res', next);
    }

    /**
     * A middle step of a get's loop, at the byte boundary upTo: shift the
     * value left by 8 and OR in the whole of byte `index`.
     *
     * The ghost `next` is the cursor after the step, named so that this
     * contract reads as the loop's invariant at the next turn.
     */
    static method ShiftInByte(buf: seq<uint8>, ghost at: nat, ghost upTo: nat, ghost next: nat, index: nat,
                              res: nat, width: nat)
      returns (res': nat)
      requires upTo == 8 * index && next == upTo + 8 <= 8 * |buf| && next - at <= width
      requires at <= upTo && res == ReadBits(buf, at, upTo - at)
      ensures res' == ReadBits(buf, at, next - at)
    {
      res' := Low(Shl(res, 8), width);
      res' := Or(res', buf[index]);
      GetMiddleByte(buf, at, upTo, index, res, width, res', next);
    }

    /** Moves the cursor to bit position `at`, then gets from there. */
    method GetWithOffset(at: nat, width: nat, count: nat) returns (res: nat)
      requires IsWidth(width) && count <= width
      requires at + EffectiveSize(width, count) <= 8 * |data|
      modifies this
      ensures data == old(data) && size == old(size)
      ensures offset == at + EffectiveSize(width, count)
      ensures res == ReadBits(data, at, EffectiveSize(width, count))
    {
      offset := at;
      res := Get(width, count);
    }

    /**
     * The unread part of the buffer as bytes. At a byte boundary: the bytes
     * from the cursor's byte on, and the cursor stays. Otherwise: the rest of
     * the cursor's byte, right-aligned, then the later bytes; the cursor
     * moves to the next byte boundary.
     */
    method GetRest() returns (ret: seq<uint8>)
      requires offset <= 8 * |data|
      modifies this
      ensures data == old(data) && size == old(size)
      ensures old(offset) % 8 == 0 ==>
        ret == data[old(offset) / 8..] && offset == old(offset)
      ensures old(offset) % 8 != 0 ==>
        && ret == [Low(data[old(offset) / 8], 8 - old(offset) % 8)] + data[old(offset) / 8 + 1..]
        && offset == old(offset) / 8 * 8 + 8
    {
      var rest: nat := 8 - offset % 8;
      if rest != 8 {
        ByteTail(data, offset);
        var first := Get(8, rest);
        Pow2At8();
        var firstByte: uint8 := first;
        ret := [firstByte] + data[offset / 8..];
        return;
      }
      ret := data[offset / 8..];
    }

    /** Hands the buffer over and leaves the stream's buffer empty; cursor and mark stay. */
    method ReleaseData() returns (released: seq<uint8>)
      modifies this
      ensures released == old(data) && data == []
      ensures offset == old(offset) && size == old(size)
    {
      released := data;
      data := [];
    }

    /** Moves the cursor back to the start; buffer and high-water mark stay. */
    method Reset()
      modifies this
      ensures offset == 0 && data == old(data) && size == old(size)
    {
      offset := 0;
    }
  }

  /** One turn of the loop of mask: the next bit set, narrowed to a byte. */
  lemma OnesStep(i: nat)
    requires i < 8
    ensures Trunc8(Or(Pow2(i) - 1, Shl(1, i))) == Pow2(i + 1) - 1
  {
    OnesThrough(i);
    Pow2Mono(i + 1, 8);
    LowOfSmall(Pow2(i + 1) - 1, 8);
  }

  /** The last step of mask: `length` ones shifted up to end `from` places below the top of a byte. */
  lemma ShiftedOnes(from: nat, length: nat)
    requires from + length <= 8
    ensures MaskBits(Trunc8(Shl(Pow2(length) - 1, 8 - (from + length))), from, length)
  {
    var ones, shift := Pow2(length) - 1, 8 - (from + length);
    ShlBound(ones, shift, length);
    Pow2Mono(length + shift, 8);
    Pow2At8();
    LowOfSmall(Shl(ones, shift), 8);
    forall k | 0 <= k < 8
      ensures BitOf(Shl(ones, shift), k) <==> shift <= k < 8 - from
    {
      ShlBit(ones, shift, k);
      if k >= shift {
        AllOnesBit(length, k - shift);
      }
    }
  }

  /** ORing the next power of two into an all-ones value gives the next all-ones value. */
  lemma OnesThrough(i: nat)
    ensures Or(Pow2(i) - 1, Shl(1, i)) == Pow2(i + 1) - 1
  {
    var ones, next, bit := Pow2(i) - 1, Pow2(i + 1) - 1, Shl(1, i);
    forall k | 0 <= k < i + 1
      ensures BitOf(Or(ones, bit), k) == BitOf(next, k)
    {
      OrBit(ones, bit, k);
      AllOnesBit(i, k);
      AllOnesBit(i + 1, k);
      ShlBit(1, i, k);
      if k >= i {
        OneBit(k - i);
      }
    }
    Pow2Mono(i, i + 1);
    ShlBound(1, i, 1);
    OrBound(ones, bit, i + 1);
    BitsEqual(Or(ones, bit), next, i + 1);
  }
}
