/** RGB565 and RGB888 packing of colour components (the helpers of ui/utils.ts). */
module Color {
  import opened JsNumbers

  /** A colour as its three components, in the order the helpers return them. */
  datatype Rgb = Rgb(red: int, green: int, blue: int)

  predicate Is565(c: Rgb)
  {
    0 <= c.red < 32 && 0 <= c.green < 64 && 0 <= c.blue < 32
  }

  /** `blue | green << 5 | red << 11` on the documented component ranges
      (red and blue 0..31, green 0..63).  The three fields occupy disjoint
      bits, so the `|` is an addition. */
  function Pack565(red: int, green: int, blue: int): (v: int)
    requires Is565(Rgb(red, green, blue))
    ensures 0 <= v < 0x1_0000
    ensures v % 32 == blue && (v / 32) % 64 == green && v / 2048 == red
  {
    blue + green * 32 + red * 2048
  }

  /** `[v >> 11, v >> 5 & 0b111111, v & 0b11111]`: the shifts and masks act on
      the 32-bit two's complement of `v`, so `>>` is a floor division and `&`
      a Euclidean remainder. */
  function Unpack565(v: int): (c: Rgb)
    ensures 0 <= c.green < 64 && 0 <= c.blue < 32
    ensures 0 <= v < 0x1_0000 ==> Is565(c)
  {
    var w := ToInt32(v);
    Rgb(w / 2048, (w / 32) % 64, w % 32)
  }

  /** `[v >> 8 & 0xff, v & 0xff, v >> 16]`. */
  function Unpack888(v: int): (c: Rgb)
    ensures 0 <= c.red < 256 && 0 <= c.green < 256
    ensures 0 <= v < 0x100_0000 ==> 0 <= c.blue < 256
  {
    var w := ToInt32(v);
    Rgb((w / 256) % 256, w % 256, w / 0x1_0000)
  }

  /** Unpacking a packed colour gives back its components. */
  lemma UnpackPack565(c: Rgb)
    requires Is565(c)
    ensures Unpack565(Pack565(c.red, c.green, c.blue)) == c
  {
  }

  /** Every 16-bit value is the packing of its unpacked components. */
  lemma PackUnpack565(v: int)
    requires 0 <= v < 0x1_0000
    ensures var c := Unpack565(v); Pack565(c.red, c.green, c.blue) == v
  {
    var q := v / 32;
    assert v == q * 32 + v % 32;
    assert q == (q / 64) * 64 + q % 64;
    assert v / 2048 == q / 64;
  }

  /** For a 24-bit value the three bytes are recovered exactly: the first
      component is bits 8..15, the second bits 0..7, the third bits 16..23. */
  lemma Unpack888Recovers(v: int)
    requires 0 <= v < 0x100_0000
    ensures var c := Unpack888(v); v == c.blue * 0x1_0000 + c.red * 256 + c.green
  {
  }
}
