/** Bytes, little-endian words, and the bit operations that the block bitmap applies to a byte. */
module Bytes {

  type Byte = x: int | 0 <= x < 0x100
  type U16 = x: int | 0 <= x < 0x1_0000
  type U32 = x: int | 0 <= x < 0x1_0000_0000

  // ---------------------------------------------------------------- bits

  function Mask(k: nat): bv8
    requires k < 8
  {
    1 << k
  }

  predicate TestBit(b: Byte, k: nat)
    requires k < 8
  {
    (b as bv8) & Mask(k) != 0
  }

  function SetBit(b: Byte, k: nat): Byte
    requires k < 8
  {
    ((b as bv8) | Mask(k)) as int
  }

  function ClearBit(b: Byte, k: nat): Byte
    requires k < 8
  {
    ((b as bv8) & !Mask(k)) as int
  }

  function PutBit(b: Byte, k: nat, on: bool): Byte
    requires k < 8
  {
    if on then SetBit(b, k) else ClearBit(b, k)
  }

  function ByteOf(v: bv8): Byte {
    v as int
  }

  lemma BvRoundTrip(v: bv8)
    ensures ((v as int) as bv8) == v
  {}

  lemma EveryByteIsAVector(n: nat)
    requires n < 0x100
    ensures exists v: bv8 :: ByteOf(v) == n
  {
    if n == 0 {
      assert ByteOf(0) == n;
    } else {
      EveryByteIsAVector(n - 1);
      var v: bv8 :| ByteOf(v) == n - 1;
      assert ByteOf(v + 1) == n;
    }
  }

  lemma MaskBits(v: bv8, j: nat, k: nat)
    requires j < 8 && k < 8
    ensures ((v | Mask(k)) & Mask(j) != 0) <==> (j == k || v & Mask(j) != 0)
    ensures ((v & !Mask(k)) & Mask(j) != 0) <==> (j != k && v & Mask(j) != 0)
  {}

  lemma MaskUndo(v: bv8, k: nat)
    requires k < 8 && v & Mask(k) == 0
    ensures (v | Mask(k)) & !Mask(k) == v
  {}

  /** Writing bit k decides bit k and leaves the other seven alone. */
  lemma PutBitAt(b: Byte, j: nat, k: nat, on: bool)
    requires j < 8 && k < 8
    ensures TestBit(PutBit(b, k, on), j) <==> if j == k then on else TestBit(b, j)
  {
    MaskBits(b as bv8, j, k);
    BvRoundTrip((b as bv8) | Mask(k));
    BvRoundTrip((b as bv8) & !Mask(k));
  }

  lemma BitOpsOnVector(v: bv8, k: nat)
    requires k < 8
    ensures SetBit(ByteOf(v), k) == ByteOf(v | Mask(k))
    ensures ClearBit(ByteOf(v), k) == ByteOf(v & !Mask(k))
    ensures TestBit(ByteOf(v), k) <==> v & Mask(k) != 0
  {
    BvRoundTrip(v);
  }

  /** Clearing a bit that was set from clear gives back the whole byte. */
  lemma ClearUndoesSet(b: Byte, k: nat)
    requires k < 8 && !TestBit(b, k)
    ensures ClearBit(SetBit(b, k), k) == b
  {
    EveryByteIsAVector(b);
    var v: bv8 :| ByteOf(v) == b;
    BitOpsOnVector(v, k);
    MaskUndo(v, k);
    BitOpsOnVector(v | Mask(k), k);
  }

  /** Bit k is the one of weight 2^k. */
  lemma BitWeights()
    ensures SetBit(0, 0) == 1 && SetBit(0, 1) == 2 && SetBit(0, 2) == 4 && SetBit(0, 3) == 8
    ensures SetBit(0, 4) == 16 && SetBit(0, 5) == 32 && SetBit(0, 6) == 64 && SetBit(0, 7) == 128
  {}

  lemma ZeroHasNoBits(k: nat)
    requires k < 8
    ensures !TestBit(0, k)
  {}

  // ---------------------------------------------------------------- words

  /** Byte j of a 32-bit word as the machine stores it. */
  function WordByte(x: U32, j: nat): Byte
    requires j < 4
  {
    if j == 0 then x % 0x100
    else if j == 1 then x / 0x100 % 0x100
    else if j == 2 then x / 0x100 / 0x100 % 0x100
    else x / 0x100 / 0x100 / 0x100
  }

  /** The word whose four bytes start at offset o. */
  function WordAt(b: seq<Byte>, o: nat): U32
    requires o + 4 <= |b|
  {
    b[o] as int + 0x100 * (b[o + 1] as int) + 0x1_0000 * (b[o + 2] as int) + 0x100_0000 * (b[o + 3] as int)
  }

  /** An array of words seen through a char pointer. */
  function WordsToBytes(ws: seq<U32>): (b: seq<Byte>)
    ensures |b| == 4 * |ws|
  {
    seq(4 * |ws|, i requires 0 <= i < 4 * |ws| => WordByte(ws[i / 4], i % 4))
  }

  /** A buffer seen through a word pointer. */
  function BytesToWords(b: seq<Byte>): (ws: seq<U32>)
    ensures |ws| == |b| / 4
  {
    seq(|b| / 4, k requires 0 <= k < |b| / 4 => WordAt(b, 4 * k))
  }

  lemma WordByteRoundTrip(x: U32)
    ensures WordAt([WordByte(x, 0), WordByte(x, 1), WordByte(x, 2), WordByte(x, 3)], 0) == x
  {}

  /** Words stored at the front of a buffer read back as they were written. */
  lemma WordsRoundTrip(ws: seq<U32>, rest: seq<Byte>)
    requires |rest| % 4 == 0
    ensures |BytesToWords(WordsToBytes(ws) + rest)| >= |ws|
    ensures BytesToWords(WordsToBytes(ws) + rest)[..|ws|] == ws
  {
    var b := WordsToBytes(ws) + rest;
    forall k | 0 <= k < |ws| ensures WordAt(b, 4 * k) == ws[k] {
      var x := ws[k];
      assert b[4 * k] == WordByte(x, 0);
      assert b[4 * k + 1] == WordByte(x, 1);
      assert b[4 * k + 2] == WordByte(x, 2);
      assert b[4 * k + 3] == WordByte(x, 3);
      WordByteRoundTrip(x);
    }
  }

  /** The low byte of a word comes first. */
  lemma LowByteFirst(x: U32)
    ensures var b := WordsToBytes([x]);
            |b| == 4 && x == b[0] as int + 256 * (b[1] as int) + 65536 * (b[2] as int) + 16777216 * (b[3] as int)
  {
    WordByteRoundTrip(x);
  }
}
