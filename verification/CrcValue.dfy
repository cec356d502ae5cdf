/** Which CRC it is: the values every implementation of the CRC-32 of section 8 of RFC 1952 agrees on. */
module CrcValues {
  import opened Bytes
  import opened Registers
  import opened Crc32s

  // Registers as bytes

  lemma DigitBit(c: bv32, d: nat)
    requires d % 2 == Digit(c)
    ensures Bit(d) == c & 1
  {
    if c & 1 == 1 {
    } else {
      assert c & 1 == 0;
    }
  }

  lemma JoinDigits(c: bv32)
    ensures Join(c & 1, (c >> 1) & 1, (c >> 2) & 1, (c >> 3) & 1, (c >> 4) & 1, (c >> 5) & 1, (c >> 6) & 1,
                 (c >> 7) & 1) == c & 0xFF
  {
  }

  lemma FourDigits(d: nat, e: nat, b0: nat, b1: nat, b2: nat, b3: nat)
    requires b0 <= 1 && b1 <= 1 && b2 <= 1 && b3 <= 1 && d == b0 + 2 * b1 + 4 * b2 + 8 * b3 + 16 * e
    ensures d % 2 == b0 && d / 2 % 2 == b1 && d / 2 / 2 % 2 == b2 && d / 2 / 2 / 2 % 2 == b3 && d / 2 / 2 / 2 / 2 == e
  {
    assert d / 2 == b1 + 2 * b2 + 4 * b3 + 8 * e;
    assert d / 2 / 2 == b2 + 2 * b3 + 4 * e;
    assert d / 2 / 2 / 2 == b3 + 2 * e;
  }

  /** That byte widened is the low part of the register. */
  lemma WordOfLowByte(c: bv32)
    ensures Word(LowByte(c)) == c & 0xFF
  {
    var d := LowByte(c);
    var e := Digit(c >> 4) + 2 * Digit(c >> 5) + 4 * Digit(c >> 6) + 8 * Digit(c >> 7);
    FourDigits(d, e, Digit(c), Digit(c >> 1), Digit(c >> 2), Digit(c >> 3));
    FourDigits(e, 0, Digit(c >> 4), Digit(c >> 5), Digit(c >> 6), Digit(c >> 7));
    WordFromDigits(c, d, d / 2, d / 2 / 2, d / 2 / 2 / 2, e, e / 2, e / 2 / 2, e / 2 / 2 / 2);
  }

  lemma WordFromDigits(c: bv32, d: byte, d1: nat, d2: nat, d3: nat, d4: nat, d5: nat, d6: nat, d7: nat)
    requires d1 == d / 2 && d2 == d1 / 2 && d3 == d2 / 2 && d4 == d3 / 2 && d5 == d4 / 2 && d6 == d5 / 2 && d7 == d6 / 2
    requires d % 2 == Digit(c) && d1 % 2 == Digit(c >> 1) && d2 % 2 == Digit(c >> 2) && d3 % 2 == Digit(c >> 3)
    requires d4 % 2 == Digit(c >> 4) && d5 % 2 == Digit(c >> 5) && d6 % 2 == Digit(c >> 6) && d7 % 2 == Digit(c >> 7)
    ensures Word(d) == c & 0xFF
  {
    DigitBit(c, d);
    DigitBit(c >> 1, d1);
    DigitBit(c >> 2, d2);
    DigitBit(c >> 3, d3);
    DigitBit(c >> 4, d4);
    DigitBit(c >> 5, d5);
    DigitBit(c >> 6, d6);
    DigitBit(c >> 7, d7);
    JoinDigits(c);
  }

  /** c has no digits beyond its n lowest bytes. */
  predicate Fits(c: bv32, n: nat) {
    match n
    case 0 => c == 0
    case 1 => c & 0xFFFF_FF00 == 0
    case 2 => c & 0xFFFF_0000 == 0
    case 3 => c & 0xFF00_0000 == 0
    case _ => true
  }

  lemma HighFits(c: bv32)
    ensures c & 0xFFFF_FF00 == 0 ==> c >> 8 == 0
    ensures c & 0xFFFF_0000 == 0 ==> (c >> 8) & 0xFFFF_FF00 == 0
    ensures c & 0xFF00_0000 == 0 ==> (c >> 8) & 0xFFFF_0000 == 0
    ensures (c >> 8) & 0xFF00_0000 == 0
  {
  }

  lemma FitsBelow(c: bv32, n: nat)
    requires 0 < n <= 4 && Fits(c, n)
    ensures Fits(c >> 8, n - 1) && Xor(Low(c), Up(High(c))) == c
  {
    HighFits(c);
    LowAndHigh(c);
  }

  lemma FieldStep(c: bv32, n: nat)
    requires n > 0
    ensures LE(n, Number(c)) == [LowByte(c)] + LE(n - 1, Number(c >> 8))
  {
    NumberByByte(c);
    LEStep(n, LowByte(c), Number(c >> 8));
  }

  lemma LEStep(n: nat, d: byte, x: nat)
    requires n > 0
    ensures LE(n, d + 256 * x) == [d] + LE(n - 1, x)
  {
    LowAndRest(d, x);
  }

  /** The bytes of a register's number, lowest first, are packed into the register again. */
  lemma {:induction false} PackOfField(c: bv32, n: nat)
    requires n <= 4 && Fits(c, n)
    ensures REGISTER.Pack(LE(n, Number(c))) == c
  {
    if n == 0 {
    } else {
      FitsBelow(c, n);
      FieldStep(c, n);
      PackOfField(c >> 8, n - 1);
      WordOfLowByte(c);
      var rest := LE(n - 1, Number(c >> 8));
      assert ([LowByte(c)] + rest)[1..] == rest;
    }
  }

  lemma NumberFrom(c: bv32, x: nat)
    requires Number(c >> 8) == x
    ensures Number(c) == LowByte(c) + 256 * x
  {
    NumberByByte(c);
  }

  lemma CheckNumber()
    ensures Number(0xCBF4_3926) == 0xCBF4_3926
  {
    NumberFrom(0xCB, 0);
    NumberFrom(0xCBF4, 0xCB);
    NumberFrom(0xCB_F439, 0xCBF4);
    NumberFrom(0xCBF4_3926, 0xCB_F439);
  }

  // The residue

  lemma Complements(x: bv32)
    ensures Xor(x, Not(x)) == 0xFFFF_FFFF
  {
  }

  lemma OnesShifted()
    ensures Not(Iterate(Octet, 0xFFFF_FFFF, 4)) == 0x2144_DF1C
  {
  }

  /** A message with its own checksum behind it, lowest byte first, always has the same checksum, whatever it is. */
  lemma Crc32Residue(bcc: bv32, s: seq<byte>)
    ensures Crc32(bcc, s + LE(4, Number(Crc32(bcc, s)))) == 0x2144_DF1C
  {
    var c := Crc32(bcc, s);
    var x := Fold(REGISTER.Feed, Not(bcc), s);
    PackOfField(c, 4);
    Complements(x);
    ResidueFrom(bcc, s, LE(4, Number(c)), x);
  }

  lemma ResidueFrom(bcc: bv32, s: seq<byte>, m: seq<byte>, x: bv32)
    requires x == Fold(REGISTER.Feed, REGISTER.flip(bcc), s)
    requires |m| == 4 && Xor(x, REGISTER.Pack(m)) == 0xFFFF_FFFF
    ensures Crc32(bcc, s + m) == 0x2144_DF1C
  {
    RegisterLinear();
    RegisterCancels();
    RegisterPacks();
    ChecksumOfKnown(REGISTER, bcc, s, m, 0xFFFF_FFFF);
    OnesShifted();
  }

  /** Bit 31 - k of the divisor stands for the k-th power of x in the generator polynomial. With it come the entries
      of the table of the reference code for the bytes with one digit. */
  lemma GeneratorTerms()
    ensures POLYNOMIAL == Term(0) | Term(1) | Term(2) | Term(4) | Term(5) | Term(7) | Term(8) | Term(10) | Term(11)
                          | Term(12) | Term(16) | Term(22) | Term(23) | Term(26)
    ensures TableEntry(1) == 0x7707_3096 && TableEntry(2) == 0xEE0E_612C && TableEntry(4) == 0x076D_C419
    ensures TableEntry(8) == 0x0EDB_8832 && TableEntry(16) == 0x1DB7_1064 && TableEntry(32) == 0x3B6E_20C8
    ensures TableEntry(64) == 0x76DC_4190 && TableEntry(128) == 0xEDB8_8320
  {
  }

  function Term(k: bv5): bv32 {
    0x8000_0000 >> k
  }

  /** Feeding the lowest bytes of three registers, with every outcome spelt out. */
  lemma FeedThree(x: bv32, c: bv32, d: bv32, e: bv32, y: bv32, z: bv32, w: bv32)
    requires c & 0xFFFF_FF00 == 0 && d & 0xFFFF_FF00 == 0 && e & 0xFFFF_FF00 == 0
    requires Octet(x ^ c) == y && Octet(y ^ d) == z && Octet(z ^ e) == w
    ensures Fold(REGISTER.Feed, x, [LowByte(c), LowByte(d), LowByte(e)]) == w
  {
    FeedOne(x, c);
    FeedOne(y, d);
    FeedOne(z, e);
    FoldThree(REGISTER.Feed, x, y, z, LowByte(c), LowByte(d), LowByte(e));
  }

  lemma FeedOne(x: bv32, c: bv32)
    requires c & 0xFFFF_FF00 == 0
    ensures REGISTER.Feed(x, LowByte(c)) == Octet(x ^ c)
  {
    WordOfLowByte(c);
    assert c & 0xFF == c;
  }

  lemma FoldThree<T>(g: (T, byte) -> T, x: T, y: T, z: T, a: byte, b: byte, c: byte)
    requires g(x, a) == y && g(y, b) == z
    ensures Fold(g, x, [a, b, c]) == g(z, c)
  {
    assert [a, b, c][1..] == [b, c] && [b, c][1..] == [c] && [c][1..] == [];
    assert Fold(g, z, [c]) == Fold(g, g(z, c), []);
    assert Fold(g, y, [b, c]) == Fold(g, z, [c]);
  }

  lemma LowBytesOfDigits()
    ensures [LowByte(49), LowByte(50), LowByte(51)] == [49, 50, 51]
    ensures [LowByte(52), LowByte(53), LowByte(54)] == [52, 53, 54]
    ensures [LowByte(55), LowByte(56), LowByte(57)] == [55, 56, 57]
  {
  }

  lemma NineFed(x: bv32, a: seq<byte>, b: seq<byte>, c: seq<byte>)
    ensures Fold(REGISTER.Feed, x, a + b + c) ==
            Fold(REGISTER.Feed, Fold(REGISTER.Feed, Fold(REGISTER.Feed, x, a), b), c)
  {
    FoldThrough(REGISTER, x, a, b, c);
  }

  /** The value that names this CRC: that of the bytes of "123456789". */
  lemma CheckValue(s: seq<byte>)
    requires s == [49, 50, 51] + [52, 53, 54] + [55, 56, 57]
    ensures Crc32(0, s) == 0xCBF4_3926 && Checksum(s) == 0xCBF4_3926
  {
    CheckNumber();
    LowBytesOfDigits();
    FeedThree(0xFFFF_FFFF, 49, 50, 51, 0x7C23_1048, 0xB0AC_BB32, 0x77B7_9C2D);
    FeedThree(0x77B7_9C2D, 52, 53, 54, 0x641C_1F5C, 0x340A_C5E3, 0xF68D_2C9E);
    FeedThree(0xF68D_2C9E, 55, 56, 57, 0xAFFC_9660, 0x651F_2550, 0x340B_C6D9);
    NineFed(0xFFFF_FFFF, [49, 50, 51], [52, 53, 54], [55, 56, 57]);
  }
}
