/** Fixed-width integers as they appear on the wire, and their big-endian
    byte encodings. The C++ source works on `uint8_t`, `uint16_t` and
    `uint32_t`; shifts followed by a narrowing store are written here as
    division and remainder. */
module Wire {

  type Byte = x: int | 0 <= x < 0x100
  type U16 = x: int | 0 <= x < 0x1_0000
  type U32 = x: int | 0 <= x < 0x1_0000_0000

  /** `(uint8_t)(x >> 8)` */
  function Hi(x: U16): Byte {
    x / 0x100
  }

  /** `(uint8_t)x` */
  function Lo(x: U16): Byte {
    x % 0x100
  }

  /** `(hi << 8) + lo`, the receive side's reassembly of a 16-bit field. */
  function Be16(hi: Byte, lo: Byte): U16 {
    (hi as int) * 0x100 + lo
  }

  /** The two bytes a 16-bit field occupies on the wire, high byte first. */
  function ToBe16(x: U16): (r: seq<Byte>)
    ensures |r| == 2 && r[0] == Hi(x) && r[1] == Lo(x)
  {
    [Hi(x), Lo(x)]
  }

  /** Reassembling the two bytes of a 16-bit value gives back the value. */
  lemma JoinSplit16(x: U16)
    ensures Be16(Hi(x), Lo(x)) == x
  {
  }

  /** Splitting a reassembled 16-bit value gives back the two bytes. */
  lemma SplitJoin16(hi: Byte, lo: Byte)
    ensures Hi(Be16(hi, lo)) == hi && Lo(Be16(hi, lo)) == lo
  {
  }

  /** A 4-byte big-endian field read back as a 32-bit value. */
  function Be32(b: seq<Byte>): (r: U32)
    requires |b| == 4
  {
    (b[0] as int) * 0x100_0000 + (b[1] as int) * 0x1_0000 + (b[2] as int) * 0x100 + b[3]
  }

  /** The 4-byte big-endian field starting at offset `k`. */
  function Be32At(b: seq<Byte>, k: nat): (r: U32)
    requires k + 4 <= |b|
    ensures r == Be32(b[k..k + 4])
  {
    (b[k] as int) * 0x100_0000 + (b[k + 1] as int) * 0x1_0000 + (b[k + 2] as int) * 0x100 + b[k + 3]
  }

  /** The four bytes `(uint8_t)(u >> 24)`, `(uint8_t)(u >> 16)`,
      `(uint8_t)(u >> 8)`, `(uint8_t)u`; reading them back gives `u`. */
  function ToBe32(u: U32): (r: seq<Byte>)
    ensures |r| == 4
    ensures Be32(r) == u
  {
    var b0 := (u / 0x100_0000) % 0x100;
    var b1 := (u / 0x1_0000) % 0x100;
    var b2 := (u / 0x100) % 0x100;
    var b3 := u % 0x100;
    assert u / 0x100 == (u / 0x1_0000) * 0x100 + b2;
    assert u / 0x1_0000 == (u / 0x100_0000) * 0x100 + b1;
    assert u / 0x100_0000 == b0;
    [b0, b1, b2, b3]
  }

  /** Splitting a 4-byte big-endian field read as a 32-bit value gives back
      the same four bytes, so the uptime bytes of a frame determine the
      uptime and the uptime determines the bytes. */
  lemma SplitJoin32(b: seq<Byte>)
    requires |b| == 4
    ensures ToBe32(Be32(b)) == b
  {
    var u := Be32(b);
    var lo16 := (b[2] as int) * 0x100 + b[3];
    DivMod(b[0], (b[1] as int) * 0x1_0000 + lo16, 0x100_0000);
    DivMod((b[0] as int) * 0x100 + b[1], lo16, 0x1_0000);
    DivMod((b[0] as int) * 0x1_0000 + (b[1] as int) * 0x100 + b[2], b[3], 0x100);
    DivMod(b[0], b[1], 0x100);
    DivMod((b[0] as int) * 0x100 + b[1], b[2], 0x100);
    var r := ToBe32(u);
    assert r[0] == b[0] && r[1] == b[1] && r[2] == b[2] && r[3] == b[3];
  }

  /** Euclidean division of `q * d + m` by `d` when `0 <= m < d`. */
  lemma DivMod(q: int, m: int, d: int)
    requires 0 <= m < d
    ensures (q * d + m) / d == q && (q * d + m) % d == m
  {
    var a := q * d + m;
    var k := a / d - q;
    assert k * d == (a / d) * d - q * d;
    assert k * d == m - a % d;
  }

  /** `x++` on a `uint16_t`: one more, except that 65535 wraps to 0. */
  function Inc16(x: U16): (r: U16)
    ensures x < 0xFFFF ==> r == x + 1
    ensures x == 0xFFFF ==> r == 0
  {
    (x + 1) % 0x1_0000
  }
}
