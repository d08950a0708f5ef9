# BiteStream, modelled in Dafny

`BiteStream` (lib/BitStream.h) packs unsigned integers of 1 to 64 bits
into a growable byte buffer and reads them back. Bits are numbered most
significant first: bit `i` of the stream is bit `7 - i % 8` of byte `i / 8`.
The stream keeps three pieces of state:

- `m_data`: the buffer.
- `m_offset`: a bit cursor where the next put or get starts.
- `m_size`: a high-water mark. A scalar put raises it to the cursor after
  the write when that is further. A byte-range put off a byte boundary adds
  8 bits per byte, wherever the bytes land. A stream built from bytes starts
  with it at 8 bits per byte.

The model has three modules.

- `Bits` (bits.dfy): the C++ operators the stream uses on unsigned
  values. `>>`, `<<`, `&`, `|` and the narrowing to `uint8_t` are
  recursive functions on natural numbers. Per-bit lemmas describe each
  operator (`ShrBit`, `AndBit`, ...), and further lemmas tie them to
  arithmetic (`ShrIsDiv`, `ShlIsMul`, `LowIsMod`).
- `BitStream` (bitstream.dfy): the class `BiteStream` itself. Its fields
  are `data: seq<uint8>`, `offset` and `size`. Every public operation is
  an imperative method with the source's branches and loops.
  - Two specifications stand beside the class.
  - `Written` is a bit-level predicate. It describes the buffer after a
    put: the old buffer, resized to exactly the bytes that reach the last
    written bit, with the field's bits ORed in.
  - `ReadBits` is a reference reading: the value of `n` bits from a bit
    position, built bit by bit.
  - `Put` and `Get` are proved against these two. Each of their loops is
    a static step method (`OrInRest`, `ShiftInRest`) carrying the loop's
    invariants. Each byte access is a smaller step method with its own
    lemma.
- `Scenarios` (scenarios.dfy): what a client relies on.
  - Fields written one after the other into a new stream, and read back
    after `Reset` with the same types and counts, return each value cut
    to its bit count (`RoundTrip`).
  - It also holds four concrete scenarios: two puts giving `[0xBA]`; two
    puts giving `[0x0A, 0xBC]`; a 4-bit and an 8-bit get over
    `[0xFF, 0x00]`, giving `0xF` and `0xF0`; and `getRest` after writing
    `0x42`, giving `[0x42]` and then `[0x02]`.

Value types are given by their width (`IsWidth`: 8, 16, 32 or 64). A
value of such a type is a `nat` below `2^width`. A count of 0 means the
full width of the type, as the source's default argument does.

Three behaviours of the code a caller might not expect:

- `getRest` moves the cursor only to the next byte boundary, and not at
  all when the cursor is already on one. It does not move the cursor to
  the end of the buffer.
- A put resizes the buffer to exactly the bytes that reach its last bit.
  It therefore truncates the buffer if the cursor had been moved back;
  it does not only grow it.
- Reads past the buffer are not reported as errors. The code does not
  check them and they are undefined behaviour, so the model states them
  as preconditions.

## Model

| member | source | states |
|---|---|---|
| BitStream.BiteStream.constructor | lib/BitStream.h:20-24 | a new stream has an empty buffer, cursor 0 and high-water mark 0 |
| BitStream.BiteStream.FromBytes | lib/BitStream.h:26-31 | a stream built from bytes holds them, with cursor 0 and mark 8·length (fully written, ready to read) |
| BitStream.BiteStream.Mask | lib/BitStream.h:179-188 | the loop builds 2^length − 1 (loop invariant); the result's set bits are exactly the `length` bits starting `from` places below the top of the byte |
| BitStream.OnesStep | lib/BitStream.h:183-185 | one turn of mask's loop, `res \|= 1 << i` narrowed to a byte, turns 2^i − 1 into 2^(i+1) − 1 |
| BitStream.ShiftedOnes | lib/BitStream.h:186 | shifting `length` ones up by 8 − (from + length) selects exactly the mask's bits |
| BitStream.BiteStream.Put | lib/BitStream.h:50-88 | the cursor advances by the effective size. The new buffer is the old one resized to ceil((cursor + size) / 8) bytes, with the low `size` bits of the value ORed in MSB-first from the old cursor (`Written`). The mark becomes max(old mark, new cursor) |
| BitStream.BiteStream.OrInWithinByte | lib/BitStream.h:63-68 | a put that fits in the cursor's byte, `(value & mask) << (spaceLeft − size)` ORed into it, writes all its bits |
| BitStream.BiteStream.OrInFirstBits | lib/BitStream.h:70-73 | the first byte of a put that spills over, `(value >> (size − spaceLeft)) & mask(offset, spaceLeft)`, writes the field's first spaceLeft bits |
| BitStream.BiteStream.OrInRest | lib/BitStream.h:74-85 | put's loop writes the remaining bits from a byte boundary: the invariant is that the bits up to the cursor are written, and the buffer length is kept |
| BitStream.BiteStream.OrInLastBits | lib/BitStream.h:75-79 | the last 1 to 8 bits, `(value << (8 − r)) & mask(0, r)`, complete the write |
| BitStream.BiteStream.OrInByte | lib/BitStream.h:80-84 | a whole middle byte, `value >> (r − 8)` narrowed to a byte, writes the next 8 bits |
| BitStream.PutWithinByte | lib/BitStream.h:63-67 | the bits of the all-ones mask shifted down to `size` bits, ANDed with the value and shifted into place, are the field's bits at the cursor |
| BitStream.PutFirstByte | lib/BitStream.h:71-72 | the first-byte expression of a spilling put extends the written bits to the byte boundary |
| BitStream.PutLastByte | lib/BitStream.h:76-77 | the last-byte expression extends the written bits by r |
| BitStream.PutMiddleByte | lib/BitStream.h:81 | the middle-byte expression extends the written bits by 8 |
| BitStream.WriteChunk | lib/BitStream.h:67-81 | ORing into a byte a value whose bits are the next r field bits at the cursor's position, then narrowing to a byte, extends the write by r bits and changes no other bit |
| BitStream.ResizeStartsWrite | lib/BitStream.h:59-62 | after the resize every bit is the old buffer's bit, or zero where the buffer grew |
| BitStream.BytesReached | lib/BitStream.h:59 | the source's rounding `(size + offset) % 8 ? … + 1 : …` is ceil((offset + size) / 8) |
| BitStream.CleanPut | lib/BitStream.h:50-88 | a put into bits that were clear reads back as value mod 2^size, and every other bit of the resized buffer is the old bit (zero where it grew) |
| BitStream.BiteStream.PutBytes | lib/BitStream.h:93-102 | off a byte boundary: the bytes are appended unshifted, the cursor stays, the mark grows by 8·count. On a boundary: the result of one 8-bit put per byte. The first byte is ORed into the byte under the cursor after the resize, later bytes are stored as they are, the cursor advances by 8·count, and the mark is max(old mark, cursor) |
| BitStream.AlignedBytePut | lib/BitStream.h:99 | an 8-bit put at a byte boundary cuts the buffer to the cursor's byte and ORs the byte into the byte there (or into zero) |
| BitStream.AppendBytePut | lib/BitStream.h:99 | an 8-bit put at the end of the buffer appends the byte |
| BitStream.AlignedPutNext | lib/BitStream.h:98-100 | each further byte of an aligned byte-range put is appended after those before it |
| BitStream.BiteStream.PutToEnd | lib/BitStream.h:104-108 | the cursor moves to the mark, then the byte-range put happens there, with the same three cases |
| BitStream.BiteStream.Get | lib/BitStream.h:111-143 | returns the `size` bits from the cursor as a right-aligned value (`ReadBits`, below 2^size); the cursor advances by `size`; the buffer and the mark stay |
| BitStream.BiteStream.ShiftInFirstBits | lib/BitStream.h:117-126 | the first byte ANDed with mask(offset, bits), shifted down by 8 − (size + offset), is the reading of those bits; unshifted when they run to the end of the byte |
| BitStream.BiteStream.ShiftInRest | lib/BitStream.h:127-141 | get's loop: the invariant is that the value is the reading of all bits from the start up to the cursor |
| BitStream.BiteStream.ShiftInLastBits | lib/BitStream.h:128-133 | `res <<= r` in the result type, then ORing in the byte's top r bits, extends the reading by r bits |
| BitStream.BiteStream.ShiftInByte | lib/BitStream.h:134-140 | `res <<= 8` in the result type, then ORing in a whole byte, extends the reading by 8 bits |
| BitStream.ReadFirstByte | lib/BitStream.h:121-125 | the masked first byte, shifted down, is the reading of the first bits |
| BitStream.ReadChunk | lib/BitStream.h:129-137 | shifting a partial reading left by r in a type wide enough, then ORing in an r-bit chunk holding the next bits, gives the longer reading |
| BitStream.GetLastByte | lib/BitStream.h:129-131 | the last-byte expressions of a get give the reading up to r more bits |
| BitStream.GetMiddleByte | lib/BitStream.h:136-137 | the middle-byte expressions of a get give the reading up to 8 more bits |
| BitStream.ReadBitsBit | lib/BitStream.h:111-143 | bit k of the reading of n bits is stream bit at + n − 1 − k (MSB first) |
| BitStream.ReadBitsConcat | lib/BitStream.h:127-141 | reading a + b bits is the first a bits shifted up by b, plus the next b bits |
| BitStream.ReadBitsByte | lib/BitStream.h:134-137 | the 8 bits from a byte boundary read as that byte |
| BitStream.ReadField | lib/BitStream.h:111-143 | bits that hold a value's low n bits MSB-first read back as value mod 2^n |
| BitStream.ByteTail | lib/BitStream.h:153-156 | the rest of a partly read byte reads as its low 8 − offset % 8 bits |
| BitStream.BiteStream.GetWithOffset | lib/BitStream.h:146-150 | the cursor is set to the given offset, then a get happens there: the reading from that offset, the cursor after it, buffer and mark unchanged |
| BitStream.BiteStream.GetRest | lib/BitStream.h:152-161 | on a byte boundary: the bytes from the cursor's byte on, and the cursor stays. Otherwise: the low 8 − offset % 8 bits of the cursor's byte, then the later bytes, and the cursor moves to the next boundary. Buffer and mark stay |
| BitStream.BiteStream.ReleaseData | lib/BitStream.h:167-169 | returns the buffer and leaves it empty; cursor and mark stay |
| BitStream.BiteStream.Reset | lib/BitStream.h:171-173 | the cursor becomes 0; buffer and mark stay (so a second reset changes nothing) |
| Bits.ShrIsDiv | lib/BitStream.h:125 | `x >> s` is x / 2^s |
| Bits.ShlIsMul | lib/BitStream.h:129 | `x << s`, before narrowing, is x · 2^s |
| Bits.LowIsMod | lib/BitStream.h:67 | narrowing to n bits is reduction modulo 2^n |
| Scenarios.PutExtends | lib/BitStream.h:50-88 | a put at the end of the bits a buffer holds, with zero bits after them, leaves a buffer holding those bits followed by the field's |
| Scenarios.WriteAll | lib/BitStream.h:50-88 | puts of the fields one after the other into a new stream leave exactly their bits, MSB-first and back to back, with the cursor after them |
| Scenarios.ReadBack | lib/BitStream.h:111-143 | in a buffer holding the fields, field k reads back from where the fields before it end, as its value mod 2^size |
| Scenarios.ReadAll | lib/BitStream.h:111-143 | gets from the start of a stream holding the fields return each value mod 2^size |
| Scenarios.RoundTrip | lib/BitStream.h:50-173 | puts on a new stream, then reset, then gets of the same sizes return each value mod 2^size |
| Scenarios.PackTwo | lib/BitStream.h:50-88 | two fields put into a new stream read, from its start, as the first value above the second, in ceil(total / 8) bytes |
| Scenarios.PackThreeThenFive | lib/BitStream.h:50-88 | put(0b101, 3) then put(0b11010, 5) on a new stream give the bytes [0xBA] |
| Scenarios.PackTwelveAtFour | lib/BitStream.h:50-88 | put(0, 4) then put(0xABC, 12) on a new stream give the bytes [0x0A, 0xBC] |
| Scenarios.ReadAcrossBytes | lib/BitStream.h:111-143 | over [0xFF, 0x00], get(4) gives 0xF and then get(8) gives 0xF0 |
| Scenarios.RestAfterReads | lib/BitStream.h:152-161 | after writing 0x42 and a reset, getRest gives [0x42]; after a 4-bit get it gives [0x02] |

## Left out

- The move constructor and move assignment (lib/BitStream.h:35-47) and the deleted copy operations (175-176) are left out. They are C++ ownership mechanics; their one visible effect, setting the mark to 8·|data|, is what `FromBytes` does.
- `getData` (lib/BitStream.h:163-165) is left out: it is a read of the `data` field.
- Signed value types are left out, together with the `memset` all-ones mask that depends on them (line 65). Values are unsigned of width 8, 16, 32 or 64; for those types the mask is 2^width − 1, as `PutWithinByte` states.
- Byte ranges given by an iterator pair are modelled as a `seq<uint8>`.
- BitStream.BiteStream.Put: requires `count <= width`: a size no larger than the value type's width is taken as the caller's obligation. Larger sizes are not modelled. Some of them are defined in the source: for example `put<uint8_t>(v, 9)` at cursor 0 shifts the int-promoted value by at most 7 and writes v as a 9-bit field. Others are undefined, once `size - spaceLeft` or `remainingBits - 8` reaches the promoted width (`put<uint64_t>(v, 72)` shifts by 64).
- BitStream.BiteStream.Get: requires that the bits to read lie inside the buffer. The source indexes the buffer unchecked (lines 121, 130, 137), which is undefined behaviour past its end. It also requires `count <= width`, as the caller's obligation. Larger sizes are not modelled, though some are defined in the source: `get<uint8_t>(16)` narrows `res <<= 8` to 0 (line 129) and returns the second byte.
- BitStream.BiteStream.GetWithOffset: requires the same buffer bound and the same `count <= width` as `Get`, for the same reasons.
- BitStream.BiteStream.GetRest: requires the cursor to be inside the buffer. Past it, the source builds a vector from an iterator beyond the end (lines 157, 160).
- The cursor and the mark are `size_t` in the source; the model uses unbounded naturals and does not model their wrap-around at 2^64.
- The OR-combining of writes is modelled as the source does it. Writes into bits that are already set are not detected; `CleanPut` states what a write into clear bits gives.
