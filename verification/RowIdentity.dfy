/** Row identity: the 64-bit labels stored in the vector indexes and the 64-bit key that
    the top-k executor uses to recognise a row it has already seen.

    Machine words are modelled as bounded integers, and every shift, wrap-around and
    sign extension of the source is written out. */
module RowIdentity {

  type Uint16 = x: int | 0 <= x < 0x1_0000
  type Uint32 = x: int | 0 <= x < 0x1_0000_0000
  type Int32 = x: int | -0x8000_0000 <= x < 0x8000_0000
  type Uint64 = x: int | 0 <= x < 0x1_0000_0000_0000_0000

  /** PostgreSQL's ItemPointerData: a 32-bit block number (kept as two 16-bit halves)
      and a 16-bit offset inside the block. */
  datatype ItemPointer = ItemPointer(block: Uint32, offset: Uint16)

  /** Conversion of a 32-bit unsigned word to a signed one (two's complement). */
  function ToInt32(x: Uint32): Int32 {
    if x < 0x8000_0000 then x else x - 0x1_0000_0000
  }

  /** Conversion of a signed 32-bit word to an unsigned 64-bit one: sign extension. */
  function SignExtend(x: Int32): Uint64 {
    if x < 0 then x + 0x1_0000_0000_0000_0000 else x
  }

  /** 64-bit left shift by 32, dropping the bits that leave the word. */
  function ShiftLeft32(x: Uint64): Uint64 {
    (x % 0x1_0000_0000) * 0x1_0000_0000
  }

  function Add64(x: Uint64, y: Uint64): Uint64 {
    (x + y) % 0x1_0000_0000_0000_0000
  }

  /** What the two index scans do with a label: the high word is the block, and the low
      word is truncated to the 16 bits of an offset number. */
  function DecodeLabel(number: Uint64): ItemPointer {
    ItemPointer(number / 0x1_0000_0000, (number % 0x1_0000_0000) % 0x1_0000)
  }

  /** Both builders hold the block and the offset in signed 32-bit variables, widen them to
      64 bits and add; the sign bits of a block number of 2^31 or more are pushed out of the
      word by the shift. */
  function PackLabel(tid: ItemPointer): (number: Uint64)
    ensures DecodeLabel(number) == tid
    ensures number == tid.block * 0x1_0000_0000 + tid.offset
  {
    var blockId: Int32 := ToInt32(tid.block);
    var offset: Int32 := ToInt32(tid.offset);
    assert SignExtend(blockId) % 0x1_0000_0000 == tid.block;
    assert ShiftLeft32(SignExtend(blockId)) == tid.block * 0x1_0000_0000;
    assert SignExtend(offset) == tid.offset;
    Add64(ShiftLeft32(SignExtend(blockId)), SignExtend(offset))
  }

  /** The executor's key. The three fields occupy disjoint bits of the word, so the
      source's bitwise or is a sum. */
  function CastToUint64(tid: ItemPointer): (key: Uint64)
    ensures key / 0x1_0000 == tid.block && key % 0x1_0000 == tid.offset
  {
    var hi := tid.block / 0x1_0000;
    var lo := tid.block % 0x1_0000;
    hi * 0x1_0000_0000 + lo * 0x1_0000 + tid.offset
  }

  /** The executor identifies two rows exactly when they are the same row, and that is
      exactly when the index stored the same label for them, although labels and keys pack
      the pair differently. */
  lemma SameKeyIffSameLabel(a: ItemPointer, b: ItemPointer)
    ensures CastToUint64(a) == CastToUint64(b) <==> a == b
    ensures CastToUint64(DecodeLabel(PackLabel(a))) == CastToUint64(DecodeLabel(PackLabel(b)))
            <==> PackLabel(a) == PackLabel(b)
  {
    assert DecodeLabel(PackLabel(a)) == a && DecodeLabel(PackLabel(b)) == b;
  }
}
