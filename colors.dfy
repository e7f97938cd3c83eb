/** Colours as the renderer stores them: an (r, g, b) byte triple, and the
    packed `0xRRGGBB` word used by the presentation buffer and the texture
    tables. */
module Colors {

  /** One pixel colour, one byte per channel. */
  datatype Color = Color(r: bv8, g: bv8, b: bv8)

  const Black: Color := Color(0, 0, 0)

  /** Packs a colour as `r << 16 | g << 8 | b`; the word never uses more than
      24 bits and each channel is recovered by shifting and masking. */
  function Pack(c: Color): (p: bv32)
    ensures p < 0x100_0000
    ensures (p >> 16) & 0xFF == c.r as bv32
    ensures (p >> 8) & 0xFF == c.g as bv32
    ensures p & 0xFF == c.b as bv32
  {
    ((c.r as bv32) << 16) | ((c.g as bv32) << 8) | (c.b as bv32)
  }

  /** Splits a `0xRRGGBB` word into its three channels; whatever lies above
      bit 23 is ignored, so packing the result gives back the low 24 bits. */
  function FromHex(hex: bv32): (c: Color)
    ensures Pack(c) == hex & 0xFF_FFFF
  {
    Color(((hex >> 16) & 0xFF) as bv8, ((hex >> 8) & 0xFF) as bv8, (hex & 0xFF) as bv8)
  }

  /** Unpacking a packed colour gives the colour back. */
  lemma FromHexPack(c: Color)
    ensures FromHex(Pack(c)) == c
  {
  }

  /** Two colours pack to the same word only if they are equal. */
  lemma PackInjective(c: Color, d: Color)
    requires Pack(c) == Pack(d)
    ensures c == d
  {
    FromHexPack(c);
    FromHexPack(d);
  }
}
