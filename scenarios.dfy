/**
 * What a client of the stream relies on: fields written one after the other
 * into a new stream read back, from the start, as the values written (each
 * cut to its bit count).
 */
module Scenarios {
  import opened Bits
  import opened BitStream

  /** One field of a message: a value of an unsigned type of `width` bits, put with a bit count. */
  datatype Field = Field(value: nat, width: nat, count: nat)

  /** A field the stream accepts: a value of its type and a count no wider than the type. */
  predicate ValidField(f: Field) {
    IsWidth(f.width) && f.value < Pow2(f.width) && f.count <= f.width
  }

  /** The number of bits the field takes in the stream. */
  function Size(f: Field): nat {
    EffectiveSize(f.width, f.count)
  }

  /** The bits of the fields, written one after the other. */
  function Packed(fields: seq<Field>): seq<bool> {
    if |fields| == 0 then []
    else
      var last := fields[|fields| - 1];
      Packed(fields[..|fields| - 1]) + FieldBits(last.value, Size(last))
  }

  /** The buffer holds `bits` from its start, followed by zero bits up to the end of its last byte. */
  ghost predicate Holds(data: seq<uint8>, bits: seq<bool>) {
    && |data| == (|bits| + 7) / 8
    && forall i :: 0 <= i < 8 * |data| ==> StreamBit(data, i) == (i < |bits| && bits[i])
  }

  /** Each field adds its bits to the end of those of the fields before it. */
  lemma PackedStep(fields: seq<Field>, k: nat)
    requires k < |fields|
    ensures Packed(fields[..k + 1]) == Packed(fields[..k]) + FieldBits(fields[k].value, Size(fields[k]))
  {
    assert fields[..k + 1][..k] == fields[..k];
  }

  /** The bits of the first j fields begin the bits of the first k, for j <= k. */
  lemma {:induction false} PackedIsPrefix(fields: seq<Field>, j: nat, k: nat)
    requires j <= k <= |fields|
    ensures |Packed(fields[..j])| <= |Packed(fields[..k])|
    ensures Packed(fields[..k])[..|Packed(fields[..j])|] == Packed(fields[..j])
    decreases k - j
  {
    if j < k {
      PackedIsPrefix(fields, j, k - 1);
      PackedStep(fields, k - 1);
    }
  }

  /**
   * A put at the end of the bits a buffer holds, into a buffer with zero
   * bits after them, leaves a buffer that holds the bits followed by the
   * field's bits.
   */
  lemma PutExtends(before: seq<uint8>, after: seq<uint8>, bits: seq<bool>, field: seq<bool>)
    requires Holds(before, bits)
    requires Written(before, after, |bits|, field)
    ensures Holds(after, bits + field)
  {
    var all := bits + field;
    forall i | 0 <= i < 8 * |after|
      ensures StreamBit(after, i) == (i < |all| && all[i])
    {
      if i < |bits| {
        assert all[i] == bits[i];
      } else if i < |all| {
        assert all[i] == field[i - |bits|];
      }
    }
  }

  /** Writes the fields one after the other into a new stream. */
  method WriteAll(fields: seq<Field>) returns (s: BiteStream)
    requires forall j :: 0 <= j < |fields| ==> ValidField(fields[j])
    ensures fresh(s)
    ensures s.offset == |Packed(fields)| && Holds(s.data, Packed(fields))
  {
    s := new BiteStream();
    for k := 0 to |fields|
      invariant fresh(s)
      invariant s.offset == |Packed(fields[..k])|
      invariant Holds(s.data, Packed(fields[..k]))
    {
      var f := fields[k];
      ghost var before, bits := s.data, Packed(fields[..k]);
      s.Put(f.value, f.width, f.count);
      PutExtends(before, s.data, bits, FieldBits(f.value, Size(f)));
      assert fields[..k + 1][..k] == fields[..k];
    }
    assert fields[..|fields|] == fields;
  }

  /** Reads the fields back, one after the other, from the start of a stream that holds them. */
  method ReadAll(s: BiteStream, fields: seq<Field>) returns (values: seq<nat>)
    requires forall j :: 0 <= j < |fields| ==> ValidField(fields[j])
    requires s.offset == 0 && Holds(s.data, Packed(fields))
    modifies s
    ensures |values| == |fields|
    ensures forall j :: 0 <= j < |fields| ==> values[j] == fields[j].value % Pow2(Size(fields[j]))
  {
    ghost var d := s.data;
    values := [];
    for k := 0 to |fields|
      invariant s.data == d
      invariant s.offset == |Packed(fields[..k])|
      invariant |values| == k
      invariant forall j :: 0 <= j < k ==> values[j] == fields[j].value % Pow2(Size(fields[j]))
    {
      var v := ReadNext(s, fields, k);
      values := values + [v];
    }
  }

  /** Reads field k of a stream that holds the fields, with the cursor where the fields before it end. */
  method ReadNext(s: BiteStream, fields: seq<Field>, k: nat) returns (v: nat)
    requires k < |fields| && ValidField(fields[k])
    requires Holds(s.data, Packed(fields)) && s.offset == |Packed(fields[..k])|
    modifies s
    ensures s.data == old(s.data) && s.offset == |Packed(fields[..k + 1])|
    ensures v == fields[k].value % Pow2(Size(fields[k]))
  {
    var f := fields[k];
    ReadBack(s.data, fields, k);
    v := s.Get(f.width, f.count);
    PackedStep(fields, k);
  }

  /**
   * Writes the fields one after the other into a new stream, moves the
   * cursor back to the start and reads them back with the same types and
   * counts: each read returns its field's value cut to its bit count.
   */
  method RoundTrip(fields: seq<Field>) returns (values: seq<nat>)
    requires forall j :: 0 <= j < |fields| ==> ValidField(fields[j])
    ensures |values| == |fields|
    ensures forall j :: 0 <= j < |fields| ==> values[j] == fields[j].value % Pow2(Size(fields[j]))
  {
    var s := WriteAll(fields);
    s.Reset();
    values := ReadAll(s, fields);
  }

  /** Field k reads back from where the fields before it end. */
  lemma ReadBack(data: seq<uint8>, fields: seq<Field>, k: nat)
    requires k < |fields| && Holds(data, Packed(fields))
    ensures |Packed(fields[..k])| + Size(fields[k]) <= 8 * |data|
    ensures ReadBits(data, |Packed(fields[..k])|, Size(fields[k])) == fields[k].value % Pow2(Size(fields[k]))
  {
    FieldHeld(data, fields, k);
    ReadField(data, |Packed(fields[..k])|, fields[k].value, Size(fields[k]));
  }

  /** The buffer holds the bits of field k where the fields before it end. */
  lemma FieldHeld(data: seq<uint8>, fields: seq<Field>, k: nat)
    requires k < |fields| && Holds(data, Packed(fields))
    ensures |Packed(fields[..k])| + Size(fields[k]) <= 8 * |data|
    ensures forall t :: 0 <= t < Size(fields[k]) ==>
              StreamBit(data, |Packed(fields[..k])| + t) == FieldBits(fields[k].value, Size(fields[k]))[t]
  {
    FieldInPacked(fields, k);
    HeldAt(data, Packed(fields), Packed(fields[..k]), FieldBits(fields[k].value, Size(fields[k])));
  }

  /** A buffer that holds some bits holds each piece of a prefix of them at its own position. */
  lemma HeldAt(data: seq<uint8>, bits: seq<bool>, before: seq<bool>, field: seq<bool>)
    requires Holds(data, bits) && |before| + |field| <= |bits|
    requires bits[..|before| + |field|] == before + field
    ensures |before| + |field| <= 8 * |data|
    ensures forall t :: 0 <= t < |field| ==> StreamBit(data, |before| + t) == field[t]
  {
    HeldBits(data, bits, before + field);
    forall t | 0 <= t < |field|
      ensures StreamBit(data, |before| + t) == field[t]
    {
      assert (before + field)[|before| + t] == field[t];
    }
  }

  /** The bits of all the fields begin with those of the fields up to k, then those of field k. */
  lemma FieldInPacked(fields: seq<Field>, k: nat)
    requires k < |fields|
    ensures |Packed(fields[..k])| + Size(fields[k]) <= |Packed(fields)|
    ensures Packed(fields)[..|Packed(fields[..k])| + Size(fields[k])]
            == Packed(fields[..k]) + FieldBits(fields[k].value, Size(fields[k]))
  {
    PackedStep(fields, k);
    PackedIsPrefix(fields, k + 1, |fields|);
    assert fields[..|fields|] == fields;
  }

  /** A buffer that holds some bits holds each of their prefixes' bits. */
  lemma HeldBits(data: seq<uint8>, bits: seq<bool>, prefix: seq<bool>)
    requires Holds(data, bits) && |prefix| <= |bits| && bits[..|prefix|] == prefix
    ensures |prefix| <= 8 * |data|
    ensures forall i :: 0 <= i < |prefix| ==> StreamBit(data, i) == prefix[i]
  {
    forall i | 0 <= i < |prefix|
      ensures StreamBit(data, i) == prefix[i]
    {
      assert bits[i] == bits[..|prefix|][i];
    }
  }

  // -----------------------------------------------------------------------
  // Concrete scenarios

  /** A buffer that holds two fields reads, from its start, as the first value above the second. */
  lemma ReadTwo(data: seq<uint8>, fields: seq<Field>)
    requires |fields| == 2 && Holds(data, Packed(fields))
    ensures |data| == (Size(fields[0]) + Size(fields[1]) + 7) / 8
    ensures ReadBits(data, 0, Size(fields[0]) + Size(fields[1]))
            == (fields[0].value % Pow2(Size(fields[0]))) * Pow2(Size(fields[1])) + fields[1].value % Pow2(Size(fields[1]))
  {
    PackedTwo(fields);
    ReadBack(data, fields, 0);
    ReadBack(data, fields, 1);
    ReadBitsConcat(data, 0, Size(fields[0]), Size(fields[1]));
  }

  /** Where the two fields of a pair start and end. */
  lemma PackedTwo(fields: seq<Field>)
    requires |fields| == 2
    ensures |Packed(fields[..0])| == 0 && |Packed(fields[..1])| == Size(fields[0])
    ensures |Packed(fields)| == Size(fields[0]) + Size(fields[1])
  {
    PackedStep(fields, 0);
    PackedStep(fields, 1);
    assert fields[..2] == fields;
  }

  /** Writes two fields into a new stream and hands its buffer over. */
  method PackTwo(first: Field, second: Field) returns (bytes: seq<uint8>)
    requires ValidField(first) && ValidField(second)
    ensures |bytes| == (Size(first) + Size(second) + 7) / 8
    ensures ReadBits(bytes, 0, Size(first) + Size(second))
            == (first.value % Pow2(Size(first))) * Pow2(Size(second)) + second.value % Pow2(Size(second))
  {
    var s := WriteAll([first, second]);
    bytes := s.ReleaseData();
    ReadTwo(bytes, [first, second]);
  }

  /** Three bits 101 and then five bits 11010, written into a new stream, fill the byte 1011 1010. */
  method PackThreeThenFive() returns (bytes: seq<uint8>)
    ensures bytes == [0xBA]
  {
    bytes := PackTwo(Field(5, 8, 3), Field(26, 8, 5));
    ReadBitsByte(bytes, 0);
  }

  /** Four zero bits and then the 12-bit value 0xABC, written into a new stream, give the bytes 0x0A 0xBC. */
  method PackTwelveAtFour() returns (bytes: seq<uint8>)
    ensures bytes == [0x0A, 0xBC]
  {
    bytes := PackTwo(Field(0, 8, 4), Field(0xABC, 16, 12));
    TwoBytes(bytes);
    var high: nat, low: nat := bytes[0], bytes[1];
    assert high * 0x100 + low == 0xABC;
  }

  /** Sixteen bits read from the start of a buffer are its first byte above its second. */
  lemma TwoBytes(bytes: seq<uint8>)
    requires |bytes| >= 2
    ensures ReadBits(bytes, 0, 16) == bytes[0] as int * 0x100 + bytes[1]
  {
    ReadBitsConcat(bytes, 0, 8, 8);
    ReadBitsByte(bytes, 0);
    ReadBitsByte(bytes, 1);
    Pow2At8();
  }

  /** Over the bytes 0xFF 0x00, a read of 4 bits gives 0xF and the next read of 8 bits, across the byte boundary, gives 0xF0. */
  method ReadAcrossBytes() returns (first: nat, second: nat)
    ensures first == 0xF && second == 0xF0
  {
    var s := new BiteStream.FromBytes([0xFF, 0x00]);
    NibblesOf([0xFF, 0x00]);
    first := s.Get(8, 4);
    second := s.Get(8, 8);
  }

  /** The nibbles of the bytes 0xFF 0x00, and the byte that straddles them. */
  lemma NibblesOf(bytes: seq<uint8>)
    requires bytes == [0xFF, 0x00]
    ensures ReadBits(bytes, 0, 4) == 0xF && ReadBits(bytes, 4, 8) == 0xF0
  {
    Pow2At8();
    ReadBitsByte(bytes, 0);
    ReadBitsByte(bytes, 1);
    ReadBitsConcat(bytes, 0, 4, 4);
    ReadBitsConcat(bytes, 8, 4, 4);
    ReadBitsConcat(bytes, 4, 4, 4);
    assert Pow2(4) == 16;
    var a, b, c := ReadBits(bytes, 0, 4), ReadBits(bytes, 4, 4), ReadBits(bytes, 8, 4);
    assert a * 16 + b == 0xFF && c * 16 + ReadBits(bytes, 12, 4) == 0;
  }

  /** A new stream after an 8-bit put of b holds the byte b. */
  method NewWithByte(b: uint8) returns (s: BiteStream)
    ensures fresh(s) && s.data == [b] && s.offset == 8 && s.size == 8
  {
    s := new BiteStream();
    s.Put(b, 8, 0);
    AlignedBytePut([], s.data, 0, b);
    OrZeroLeft(b);
    Pow2At8();
    LowOfSmall(b, 8);
  }

  /**
   * After the byte 0x42 is written and the cursor is moved back to the
   * start, the rest of the stream is that byte; after a read of 4 bits, the
   * rest is its low 4 bits, 0x02.
   */
  method RestAfterReads() returns (whole: seq<uint8>, tail: seq<uint8>)
    ensures whole == [0x42] && tail == [0x02]
  {
    var s := NewWithByte(0x42);
    s.Reset();
    whole := s.GetRest();
    var high := s.Get(8, 4);
    LowIsMod(0x42, 4);
    tail := s.GetRest();
  }
}
