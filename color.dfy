/** The packed pixel colour (`xgl_color_t` in src/xgl.h, filled at
    src/xgl_draw.c:155-161). The union is read on a little-endian machine,
    so the `r` byte is the least significant byte of `raw`. */
module Color {
  import Utils
  import V4

  /** Assigning a float to an `unsigned char`: truncation toward zero. C
      leaves values outside `[0, 256)` undefined; the model wraps them
      modulo 256. */
  function ToByte(f: real): (b: int)
    ensures 0 <= b < 256
    ensures 0.0 <= f < 256.0 ==> b == f.Floor
  {
    Utils.Trunc(f) % 256
  }

  /** Byte `k` of a word, counted from the least significant end. */
  function Byte(raw: int, k: nat): int
    decreases k
  {
    if k == 0 then raw % 256 else Byte(raw / 256, k - 1)
  }

  /** The `raw` word of a colour whose bytes are `r`, `g`, `b`, `t` in memory
      order: each byte can be read back. */
  function Raw(r: int, g: int, b: int, t: int): (raw: int)
    requires 0 <= r < 256 && 0 <= g < 256 && 0 <= b < 256 && 0 <= t < 256
    ensures 0 <= raw < 0x1_0000_0000
    ensures Byte(raw, 0) == r && Byte(raw, 1) == g && Byte(raw, 2) == b && Byte(raw, 3) == t
  {
    var hi := b + 256 * t;
    var mid := g + 256 * hi;
    var raw := r + 256 * mid;
    Split(r, mid);
    Split(g, hi);
    Split(b, t);
    assert Byte(raw, 3) == Byte(mid, 2) == Byte(hi, 1) == Byte(t, 0);
    raw
  }

  lemma Split(lo: int, hi: int)
    requires 0 <= lo < 256
    ensures (lo + 256 * hi) % 256 == lo && (lo + 256 * hi) / 256 == hi
  {
  }

  /** The colour written for shader output `c`: red, green and blue are the
      first three components scaled to 255, and the fourth byte is the
      transparency `1 - w`, scaled the same way. */
  function Pack(c: V4.V4): (raw: int)
    ensures 0 <= raw < 0x1_0000_0000
    ensures Byte(raw, 0) == ToByte(c.x * 255.0) && Byte(raw, 1) == ToByte(c.y * 255.0)
    ensures Byte(raw, 2) == ToByte(c.z * 255.0) && Byte(raw, 3) == ToByte((1.0 - c.w) * 255.0)
  {
    Raw(ToByte(c.x * 255.0), ToByte(c.y * 255.0), ToByte(c.z * 255.0), ToByte((1.0 - c.w) * 255.0))
  }

  /** A grey shader output of brightness `b` in `[0.05, 1]` packs without
      wrapping: three equal colour bytes between 12 and 255 and a
      transparency byte between 0 and 242. */
  lemma PackGrey(b: real)
    requires 0.05 <= b <= 1.0
    ensures var raw := Pack(V4.V4(b, b, b, b));
            Byte(raw, 0) == Byte(raw, 1) == Byte(raw, 2) == (b * 255.0).Floor
            && 12 <= Byte(raw, 0) <= 255
            && Byte(raw, 3) == ((1.0 - b) * 255.0).Floor && 0 <= Byte(raw, 3) <= 242
  {
    assert 12.75 <= b * 255.0 <= 255.0;
    assert 0.0 <= (1.0 - b) * 255.0 <= 242.25;
  }
}
