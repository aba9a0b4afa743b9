/** The two integer writers of the archive encoder (`littleEndian16` and
    `littleEndian32`) and the matching readers a ZIP consumer applies. */
module LittleEndian {
  import opened Common
  import opened JsBits

  const TWO16: int := 0x1_0000

  /** `littleEndian16(number)`: the low byte of the number and the byte above
      it, least significant first; everything above bit 15 is dropped. */
  function LE16(n: int): (r: seq<Byte>)
    ensures |r| == 2
  {
    [Bits(n) % 0x100, (Bits(n) / 0x100) % 0x100]
  }

  /** `littleEndian32(number)`: the four bytes of the number's 32-bit
      two's-complement pattern, least significant first. */
  function LE32(n: int): (r: seq<Byte>)
    ensures |r| == 4
  {
    var u := Bits(n);
    [u % 0x100, (u / 0x100) % 0x100, (u / 0x1_0000) % 0x100, (u / 0x100_0000) % 0x100]
  }

  /** What a ZIP reader gets from two stored bytes. */
  function ReadLE16(b: seq<Byte>): (v: nat)
    requires |b| == 2
    ensures v < TWO16
  {
    var lo: int := b[0];
    var hi: int := b[1];
    lo + 0x100 * hi
  }

  /** What a ZIP reader gets from four stored bytes. */
  function ReadLE32(b: seq<Byte>): (v: nat)
    requires |b| == 4
    ensures v < TWO32
  {
    var b0: int := b[0];
    var b1: int := b[1];
    var b2: int := b[2];
    var b3: int := b[3];
    b0 + 0x100 * b1 + 0x1_0000 * b2 + 0x100_0000 * b3
  }

  /** Reducing modulo 2^32 first does not change the low sixteen bits. */
  lemma LowBitsSurviveReduction(n: int)
    ensures (n % TWO32) % TWO16 == n % TWO16
    ensures (n % TWO32) % 0x100 == n % 0x100
  {
    var q := n / TWO32;
    assert n % TWO32 == n - TWO16 * (0x1_0000 * q);
    DropMultiple16(n, 0x1_0000 * q);
    assert n % TWO32 == n - 0x100 * (0x100_0000 * q);
    DropMultiple8(n, 0x100_0000 * q);
  }

  lemma DropMultiple16(n: int, t: int)
    ensures (n - TWO16 * t) % TWO16 == n % TWO16
  {
    var d := n / TWO16;
    assert n - TWO16 * t == TWO16 * (d - t) + n % TWO16;
  }

  lemma DropMultiple8(n: int, t: int)
    ensures (n - 0x100 * t) % 0x100 == n % 0x100
  {
    var d := n / 0x100;
    assert n - 0x100 * t == 0x100 * (d - t) + n % 0x100;
  }

  /** Writing sixteen bits and reading them back yields the number modulo 2^16. */
  lemma LE16RoundTrip(n: int)
    ensures ReadLE16(LE16(n)) == n % TWO16
  {
    LowTwoBytes(n);
  }

  /** Writing thirty-two bits and reading them back yields the number modulo
      2^32: a negative number comes back as its two's-complement pattern. */
  lemma LE32RoundTrip(n: int)
    ensures ReadLE32(LE32(n)) == n % TWO32
  {
    FourBytes(n);
  }

  /** The two low bytes of the 32-bit pattern make up the number modulo 2^16. */
  lemma LowTwoBytes(n: int)
    ensures Bits(n) % 0x100 + 0x100 * ((Bits(n) / 0x100) % 0x100) == n % TWO16
  {
    var u := n % TWO32;
    LowBitsSurviveReduction(n);
    var v := u % TWO16;
    var hi := u / TWO16;
    assert u == TWO16 * hi + v;
    assert u / 0x100 == 0x100 * hi + v / 0x100;
    assert (u / 0x100) % 0x100 == v / 0x100;
    assert v == 0x100 * (v / 0x100) + v % 0x100;
  }

  /** The four bytes of the 32-bit pattern make up the number modulo 2^32. */
  lemma FourBytes(n: int)
    ensures var u := Bits(n);
      u % 0x100 + 0x100 * ((u / 0x100) % 0x100) + 0x1_0000 * ((u / 0x1_0000) % 0x100)
        + 0x100_0000 * ((u / 0x100_0000) % 0x100) == n % TWO32
  {
    var u := n % TWO32;
    var b1 := u / 0x100;
    var b2 := u / 0x1_0000;
    var b3 := u / 0x100_0000;
    assert u == 0x100 * b1 + u % 0x100;
    assert b1 / 0x100 == b2;
    assert b2 / 0x100 == b3;
    assert b1 == 0x100 * b2 + b1 % 0x100;
    assert b2 == 0x100 * b3 + b2 % 0x100;
    assert b3 < 0x100;
  }

  /** Reading two bytes and writing the value back reproduces the bytes. */
  lemma ReadLE16Inverse(b: seq<Byte>)
    requires |b| == 2
    ensures LE16(ReadLE16(b)) == b
  {
    var v := ReadLE16(b);
    assert Bits(v) == v;
  }

  /** Reading four bytes and writing the value back reproduces the bytes. */
  lemma ReadLE32Inverse(b: seq<Byte>)
    requires |b| == 4
    ensures LE32(ReadLE32(b)) == b
  {
    var v := ReadLE32(b);
    Digits(b[0], b[1], b[2], b[3]);
    assert Bits(v) == v;
  }

  /** Base-256 digits read back from the number they make up. */
  lemma Digits(b0: int, b1: int, b2: int, b3: int)
    requires 0 <= b0 < 0x100 && 0 <= b1 < 0x100 && 0 <= b2 < 0x100 && 0 <= b3 < 0x100
    ensures var v := b0 + 0x100 * b1 + 0x1_0000 * b2 + 0x100_0000 * b3;
      && v % 0x100 == b0 && (v / 0x100) % 0x100 == b1
      && (v / 0x1_0000) % 0x100 == b2 && (v / 0x100_0000) % 0x100 == b3
  {
    var v := b0 + 0x100 * b1 + 0x1_0000 * b2 + 0x100_0000 * b3;
    assert v / 0x100 == b1 + 0x100 * b2 + 0x1_0000 * b3;
    assert v / 0x1_0000 == b2 + 0x100 * b3;
    assert v / 0x100_0000 == b3;
  }
}
