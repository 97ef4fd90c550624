/** The return expression of `heat`: three channel intensities, already
    scaled to 0..255 by `(int)(c * 255)`, are cut to 5, 6 and 5 bits and packed
    into one RGB565 word, `((r >> 3) << 11) | ((g >> 2) << 5) | (b >> 3)`. The
    shifts and the OR happen in a 32-bit `int`; the `uint16_t` return type then
    keeps the low 16 bits. */
module Rgb565 {

  /** A channel intensity after `(int)(c * 255)`. */
  type Channel = c: int | 0 <= c < 0x100

  /** Bits of the packed word holding each field. */
  const RedMask: bv16 := 0xF800
  const GreenMask: bv16 := 0x07E0
  const BlueMask: bv16 := 0x001F

  /** The `int` the expression computes, as 32 bits. Nothing reaches bit
      16, and each field keeps the top bits of its channel. */
  function PackWord(r: Channel, g: Channel, b: Channel): (w: bv32)
    ensures w < 0x1_0000
    ensures w >> 11 == (r as bv32) >> 3
    ensures (w >> 5) & 0x3F == (g as bv32) >> 2
    ensures w & 0x1F == (b as bv32) >> 3
  {
    (((r as bv32) >> 3) << 11) | (((g as bv32) >> 2) << 5) | ((b as bv32) >> 3)
  }

  /** The `uint16_t` that `heat` returns. Narrowing loses nothing. */
  function Pack(r: Channel, g: Channel, b: Channel): (c: bv16)
    ensures c as bv32 == PackWord(r, g, b)
  {
    (PackWord(r, g, b) & 0xFFFF) as bv16
  }

  /** The 5-bit red field of a packed colour. */
  function Red(c: bv16): (v: bv16)
    ensures v < 0x20
  {
    c >> 11
  }

  /** The 6-bit green field of a packed colour. */
  function Green(c: bv16): (v: bv16)
    ensures v < 0x40
  {
    (c >> 5) & 0x3F
  }

  /** The 5-bit blue field of a packed colour. */
  function Blue(c: bv16): (v: bv16)
    ensures v < 0x20
  {
    c & 0x1F
  }

  /** Unpacking a packed colour returns the channels' top 5, 6 and 5 bits. */
  lemma UnpackPack(r: Channel, g: Channel, b: Channel)
    ensures Red(Pack(r, g, b)) == (r as bv16) >> 3
    ensures Green(Pack(r, g, b)) == (g as bv16) >> 2
    ensures Blue(Pack(r, g, b)) == (b as bv16) >> 3
  {
  }

  /** Packing the fields of any colour, each moved back to the top of an
      8-bit channel, gives that colour back. */
  lemma PackUnpack(c: bv16)
    ensures Pack((Red(c) << 3) as int, (Green(c) << 2) as int, (Blue(c) << 3) as int) == c
  {
    var r, g, b := Red(c) << 3, Green(c) << 2, Blue(c) << 3;
    ChannelWidening(r);
    ChannelWidening(g);
    ChannelWidening(b);
  }

  /** A channel value reaches the 32-bit `int` unchanged whether it comes
      from a 16-bit word or from an integer. */
  lemma ChannelWidening(x: bv16)
    requires x < 0x100
    ensures 0 <= x as int < 0x100
    ensures (x as int) as bv32 == x as bv32
  {
    SmallWordToInt(x);
    WordIntWord(x);
    IntToWordWidening(x as int);
  }

  lemma SmallWordToInt(x: bv16)
    requires x < 0x100
    ensures 0 <= x as int < 0x100
  {
  }

  lemma WordIntWord(x: bv16)
    ensures (x as int) as bv16 == x
  {
  }

  lemma IntToWordWidening(i: int)
    requires 0 <= i < 0x100
    ensures i as bv32 == (i as bv16) as bv32
  {
  }

  /** The three fields occupy disjoint bits that together cover the word,
      and each channel only ever sets bits of its own field. */
  lemma FieldsDisjoint(r: Channel, g: Channel, b: Channel)
    ensures RedMask & GreenMask == 0 && RedMask & BlueMask == 0 && GreenMask & BlueMask == 0
    ensures RedMask | GreenMask | BlueMask == 0xFFFF
    ensures Pack(r, 0, 0) & !RedMask == 0
    ensures Pack(0, g, 0) & !GreenMask == 0
    ensures Pack(0, 0, b) & !BlueMask == 0
    ensures Pack(r, g, b) == Pack(r, 0, 0) | Pack(0, g, 0) | Pack(0, 0, b)
  {
  }
}
