/** Java's 32-bit `int` and its little-endian byte layout, as `java.nio.ByteBuffer`
    reads and writes it with `ByteOrder.LITTLE_ENDIAN`. */
module Int32 {

  const TwoTo31: int := 0x8000_0000
  const TwoTo32: int := 0x1_0000_0000

  /** One octet of a byte stream, seen as an unsigned value (Java's `byte` reinterpreted
      without sign; the codec only moves bytes, it never does arithmetic on them). */
  newtype byte = x: int | 0 <= x < 256

  /** A two's-complement 32-bit integer. */
  newtype int32 = x: int | -0x8000_0000 <= x < 0x8000_0000

  /** The result of Java `int` arithmetic whose exact value is x: x reduced modulo 2^32
      into the signed range. */
  function Wrap(x: int): (r: int32)
    ensures (r as int - x) % TwoTo32 == 0
    ensures -TwoTo31 <= x < TwoTo31 ==> r as int == x
  {
    var m := x % TwoTo32;
    if m >= TwoTo31 then (m - TwoTo32) as int32 else m as int32
  }

  /** The 32 bits of x read as an unsigned number. */
  function Unsigned(x: int32): (u: nat)
    ensures u < TwoTo32
    ensures (u - x as int) % TwoTo32 == 0
  {
    if x < 0 then x as int + TwoTo32 else x as int
  }

  /** `putInt` in little-endian order: the least significant byte first. */
  function ToLittleEndian(x: int32): (b: seq<byte>)
    ensures |b| == 4
  {
    var u0 := Unsigned(x);
    var u1 := u0 / 256;
    var u2 := u1 / 256;
    var u3 := u2 / 256;
    [(u0 % 256) as byte, (u1 % 256) as byte, (u2 % 256) as byte, (u3 % 256) as byte]
  }

  /** The unsigned number held by four little-endian bytes. */
  function UnsignedOf(b: seq<byte>): (u: nat)
    requires |b| == 4
    ensures u < TwoTo32
  {
    b[0] as int + 256 * (b[1] as int + 256 * (b[2] as int + 256 * b[3] as int))
  }

  /** `getInt` in little-endian order. */
  function FromLittleEndian(b: seq<byte>): (r: int32)
    requires |b| == 4
    ensures (r as int - UnsignedOf(b)) % TwoTo32 == 0
  {
    var u := UnsignedOf(b);
    if u >= TwoTo31 then (u - TwoTo32) as int32 else u as int32
  }

  /** One base-256 digit split off a number, and put back. */
  lemma Digit(low: int, high: nat)
    requires 0 <= low < 256
    ensures (low + 256 * high) % 256 == low && (low + 256 * high) / 256 == high
  {
  }

  /** Reading back what `putInt` wrote gives the original value. */
  lemma {:induction false} FromToLittleEndian(x: int32)
    ensures FromLittleEndian(ToLittleEndian(x)) == x
  {
    var u0 := Unsigned(x);
    var u1 := u0 / 256;
    var u2 := u1 / 256;
    var u3 := u2 / 256;
    assert u3 < 256;
    assert u2 == u2 % 256 + 256 * u3;
    assert u1 == u1 % 256 + 256 * u2;
    assert u0 == u0 % 256 + 256 * u1;
    assert UnsignedOf(ToLittleEndian(x)) == u0;
  }

  /** Every four bytes are what `putInt` writes for the value `getInt` reads from them,
      so the two are inverse bijections between int32 and 4-byte sequences. */
  lemma {:induction false} ToFromLittleEndian(b: seq<byte>)
    requires |b| == 4
    ensures ToLittleEndian(FromLittleEndian(b)) == b
  {
    var b0, b1, b2, b3 := b[0] as int, b[1] as int, b[2] as int, b[3] as int;
    var u0 := UnsignedOf(b);
    assert Unsigned(FromLittleEndian(b)) == u0;
    Digit(b0, b1 + 256 * (b2 + 256 * b3));
    Digit(b1, b2 + 256 * b3);
    Digit(b2, b3);
    Digit(b3, 0);
    var e := ToLittleEndian(FromLittleEndian(b));
    assert e[0] == b[0] && e[1] == b[1] && e[2] == b[2] && e[3] == b[3];
  }
}
