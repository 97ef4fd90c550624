/** The decode loop of `loop()`: 128 raw bytes read from the AMG8833 pixel
    registers become 64 temperatures. Every temperature the sketch computes
    is an exact multiple of 0.25 degC (the register resolution), so the model
    carries it as an integer count of quarter-degrees: `q` stands for `q / 4`
    degrees Celsius, i.e. `temp[i] * 4`. */
module FrameDecoder {
  import opened CInt
  import GridLayout

  /** A value read from the bus: the sketch stores `Wire.read()` in an `int`. */
  type Byte = b: int | 0 <= b < 0x100

  /** Sensing elements in one frame: one per cell of the 8x8 grid. */
  const Elements: nat := GridLayout.Cells
  /** Raw bytes in one frame: a low and a high byte per element. */
  const FrameBytes: nat := 2 * Elements

  /** Words strictly above this take the "negative" branch. */
  const SignThreshold: int := 0x200
  /** What the negative branch subtracts. */
  const NegativeOffset: int := 0xFFF

  /** The `int16_t` word of one element: the high byte times 256 plus the
      low byte, computed in `int` and then narrowed to 16 signed bits. A
      high byte of 0x80 or more wraps to a negative word. The word still
      determines both bytes. */
  function Word(lo: Byte, hi: Byte): (w: int)
    ensures -0x8000 <= w < 0x8000
    ensures hi < 0x80 ==> w == hi * 0x100 + lo
    ensures hi >= 0x80 ==> w == hi * 0x100 + lo - 0x1_0000
    ensures w < 0 <==> hi >= 0x80
    ensures LowByte(w) == lo && HighByte(w) == hi
  {
    ToInt16(hi * 0x100 + lo)
  }

  /** The low byte of a 16-bit word (two's complement view). */
  function LowByte(w: int): Byte
  {
    w % 0x100
  }

  /** The high byte of a 16-bit word (two's complement view). */
  function HighByte(w: int): Byte
  {
    (w % 0x1_0000) / 0x100
  }

  /** The temperature of one element in quarter-degrees. A word above
      `SignThreshold` is read as negative, `(w - 0xFFF)` quarters; any other
      word, including every negative `int16_t`, is read as `w` quarters. */
  function DecodeWord(w: int): (q: int)
    ensures 0 <= w <= 0xFFF ==> SignThreshold - NegativeOffset < q <= SignThreshold
    ensures w <= SignThreshold ==> q == w
    ensures q <= w
  {
    if w > SignThreshold then w - NegativeOffset else w
  }

  /** The decoded frame: element `i` comes from bytes `2i` (low) and `2i+1`
      (high) only, and the elements keep the input order. */
  function DecodeFrame(raw: seq<Byte>): (temps: seq<int>)
    requires |raw| % 2 == 0
    ensures |temps| == |raw| / 2
    ensures forall i :: 0 <= i < |temps| ==>
              temps[i] == DecodeWord(Word(raw[2 * i], raw[2 * i + 1]))
  {
    if |raw| == 0 then []
    else [DecodeWord(Word(raw[0], raw[1]))] + DecodeFrame(raw[2..])
  }

  /** The textbook reading of a 12-bit two's complement pixel register. */
  function TwosComplement12(w: int): int
    requires 0 <= w < 0x1000
  {
    if w < 0x800 then w else w - 0x1000
  }

  /** The strict `>` puts 0x200 (128 degC) on the non-negative side and 0x201
      on the negative side. */
  lemma DecodeBoundary()
    ensures DecodeWord(0x200) == 0x200 && DecodeWord(0x200) == 128 * 4
    ensures DecodeWord(0x201) == 0x201 - 0xFFF < 0
  {
  }

  /** Only the words 0 and 0xFFF decode to 0 degC. */
  lemma DecodeZeroIff(w: int)
    ensures DecodeWord(w) == 0 <==> w == 0 || w == 0xFFF
  {
  }

  /** Two distinct words collide exactly when one lies at or below the
      threshold, the other above it, and they are 0xFFF apart. */
  lemma DecodeCollision(w1: int, w2: int)
    requires w1 < w2
    ensures DecodeWord(w1) == DecodeWord(w2) <==>
              w1 <= SignThreshold < w2 && w2 == w1 + NegativeOffset
  {
  }

  /** Decoding is non-decreasing on the words at or below the threshold. */
  lemma DecodeMonotoneLow(w1: int, w2: int)
    requires w1 <= w2 <= SignThreshold
    ensures DecodeWord(w1) <= DecodeWord(w2)
  {
  }

  /** Decoding is strictly increasing on the words above the threshold. */
  lemma DecodeMonotoneHigh(w1: int, w2: int)
    requires SignThreshold < w1 < w2
    ensures DecodeWord(w1) < DecodeWord(w2)
  {
  }

  /** Between the threshold and 0xFFF every word decodes below zero. */
  lemma DecodeNegativeBand(w: int)
    requires SignThreshold < w < NegativeOffset
    ensures DecodeWord(w) < 0
  {
  }

  /** Against the 12-bit two's complement reading: the two agree up to the
      threshold, the decode is one quarter-degree higher on the words with
      bit 11 set, and on 0x201..0x7FF (128.25 to 511.75 degC) it reports a
      negative value where the register holds a positive one. */
  lemma DecodeVersusTwosComplement(w: int)
    requires 0 <= w < 0x1000
    ensures w <= SignThreshold ==> DecodeWord(w) == TwosComplement12(w)
    ensures w >= 0x800 ==> DecodeWord(w) == TwosComplement12(w) + 1
    ensures SignThreshold < w < 0x800 ==> DecodeWord(w) < 0 < TwosComplement12(w)
  {
  }

  /** Against the 16-bit two's complement `int16_t` word itself: the decode
      keeps the word exactly when it is at most the threshold. */
  lemma DecodeVersusSixteenBit(lo: Byte, hi: Byte)
    ensures DecodeWord(Word(lo, hi)) == Word(lo, hi) <==> Word(lo, hi) <= SignThreshold
  {
  }

  /** A high byte of 0x80 or more always yields a negative word, which the
      `> 0x200` test sends to the `else` branch unchanged. */
  lemma NegativeWordsPassThrough(lo: Byte, hi: Byte)
    requires hi >= 0x80
    ensures DecodeWord(Word(lo, hi)) == hi * 0x100 + lo - 0x1_0000 < 0
  {
  }

  /** Changing bytes outside `2i` and `2i+1` leaves element `i` unchanged. */
  lemma DecodeFrameLocal(raw1: seq<Byte>, raw2: seq<Byte>, i: int)
    requires |raw1| == |raw2| && |raw1| % 2 == 0
    requires 0 <= i < |raw1| / 2
    requires raw1[2 * i] == raw2[2 * i] && raw1[2 * i + 1] == raw2[2 * i + 1]
    ensures DecodeFrame(raw1)[i] == DecodeFrame(raw2)[i]
  {
  }

  /** An all-zero buffer decodes to 64 readings of 0 degC. */
  lemma DecodeZeroFrame(raw: seq<Byte>)
    requires |raw| == FrameBytes
    requires forall k :: 0 <= k < |raw| ==> raw[k] == 0
    ensures DecodeFrame(raw) == seq(Elements, _ => 0)
  {
    var temps := DecodeFrame(raw);
    forall i | 0 <= i < Elements
      ensures temps[i] == 0
    {
      assert raw[2 * i] == 0 && raw[2 * i + 1] == 0;
    }
  }
}
