/** The CRC-32 of section 8 of RFC 1952, one bit at a time, and what it detects. */
module Crc32s {
  import opened Bytes
  import opened Registers

  const POLYNOMIAL: bv32 := 0xEDB8_8320

  /** One bit of the division, with the branch replaced by a mask. */
  function Step(crc: bv32): bv32 {
    var mask: bv32 := 0 - (crc & 1);
    (crc >> 1) ^ (POLYNOMIAL & mask)
  }

  const OCTET: nat := 8

  function Octet(crc: bv32): bv32 {
    Iterate(Step, crc, OCTET)
  }

  function Xor(a: bv32, b: bv32): bv32 {
    a ^ b
  }

  function Not(a: bv32): bv32 {
    !a
  }

  function Up(a: bv32): bv32 {
    a << 8
  }

  function Bit(d: nat): bv32 {
    if d % 2 == 1 then 1 else 0
  }

  function Join(b0: bv32, b1: bv32, b2: bv32, b3: bv32, b4: bv32, b5: bv32, b6: bv32, b7: bv32): bv32 {
    b0 | (b1 << 1) | (b2 << 2) | (b3 << 3) | (b4 << 4) | (b5 << 5) | (b6 << 6) | (b7 << 7)
  }

  /** A byte widened to 32 bits. */
  function Word(d: byte): bv32 {
    var d1 := d / 2;
    var d2 := d1 / 2;
    var d3 := d2 / 2;
    var d4 := d3 / 2;
    var d5 := d4 / 2;
    var d6 := d5 / 2;
    Join(Bit(d), Bit(d1), Bit(d2), Bit(d3), Bit(d4), Bit(d5), Bit(d6), Bit(d6 / 2))
  }

  const REGISTER: Register<bv32> := Register(Xor, 0, Word, Up, Octet, Not)

  method Crc32Byte(crc: bv32, d: byte) returns (r: bv32)
    ensures r == REGISTER.Feed(crc, d)
  {
    r := crc ^ Word(d);
    ghost var start := r;
    for i := 0 to 8
      invariant Iterate(Step, r, OCTET - i) == Iterate(Step, start, OCTET)
    {
      var mask: bv32 := 0 - (r & 1);
      r := (r >> 1) ^ (POLYNOMIAL & mask);
    }
  }

  function Crc32(bcc: bv32, s: seq<byte>): bv32 {
    REGISTER.Checksum(bcc, s)
  }

  method ComputeCrc32(bcc: bv32, data: seq<byte>) returns (r: bv32)
    ensures r == Crc32(bcc, data)
  {
    r := !bcc;
    ghost var start := r;
    for i := 0 to |data|
      invariant Fold(REGISTER.Feed, r, data[i..]) == Fold(REGISTER.Feed, start, data)
    {
      assert data[i..][1..] == data[i + 1..];
      r := Crc32Byte(r, data[i]);
    }
    r := !r;
  }

  // One step is linear and can be undone

  lemma ShiftXor(a: bv32, b: bv32)
    ensures (a ^ b) >> 1 == (a >> 1) ^ (b >> 1)
  {
  }

  lemma MaskXor(a: bv32, b: bv32)
    ensures 0 - ((a ^ b) & 1) == (0 - (a & 1)) ^ (0 - (b & 1))
  {
  }

  lemma AndXor(p: bv32, a: bv32, b: bv32)
    ensures p & (a ^ b) == (p & a) ^ (p & b)
  {
  }

  lemma XorSwap(a: bv32, b: bv32, c: bv32, d: bv32)
    ensures (a ^ b) ^ (c ^ d) == (a ^ c) ^ (b ^ d)
  {
  }

  lemma StepOfXor(a: bv32, b: bv32)
    ensures Step(a ^ b) == Step(a) ^ Step(b)
  {
    var ma, mb: bv32 := 0 - (a & 1), 0 - (b & 1);
    ShiftXor(a, b);
    MaskXor(a, b);
    AndXor(POLYNOMIAL, ma, mb);
    XorSwap(a >> 1, b >> 1, POLYNOMIAL & ma, POLYNOMIAL & mb);
  }

  lemma NoMask(x: bv32, p: bv32)
    requires x & 1 == 0
    ensures p & (0 - (x & 1)) == 0
  {
  }

  lemma FullMask(x: bv32, p: bv32)
    requires x & 1 != 0
    ensures p & (0 - (x & 1)) == p
  {
    assert x & 1 == 1;
  }

  /** Step without the mask. */
  lemma StepBranch(x: bv32)
    ensures Step(x) == if x & 1 == 0 then x >> 1 else (x >> 1) ^ POLYNOMIAL
  {
    if x & 1 == 0 {
      NoMask(x, POLYNOMIAL);
    } else {
      FullMask(x, POLYNOMIAL);
    }
  }

  /** The polynomial has its top bit set, so the bit shifted out can be told from the result. */
  function StepBack(y: bv32): bv32 {
    if y & 0x8000_0000 == 0 then y << 1 else ((y ^ POLYNOMIAL) << 1) | 1
  }

  lemma EvenHalves(x: bv32)
    requires x & 1 == 0
    ensures (x >> 1) & 0x8000_0000 == 0 && (x >> 1) << 1 == x
  {
  }

  lemma OddHalves(x: bv32)
    requires x & 1 != 0
    ensures ((x >> 1) ^ POLYNOMIAL) & 0x8000_0000 != 0 && ((((x >> 1) ^ POLYNOMIAL) ^ POLYNOMIAL) << 1) | 1 == x
  {
  }

  lemma StepUndone(x: bv32)
    ensures StepBack(Step(x)) == x
  {
    StepBranch(x);
    if x & 1 == 0 {
      EvenHalves(x);
    } else {
      OddHalves(x);
    }
  }

  lemma OctetLinear(a: bv32, b: bv32)
    ensures Octet(Xor(a, b)) == Xor(Octet(a), Octet(b))
  {
    forall x, y ensures Step(Xor(x, y)) == Xor(Step(x), Step(y)) {
      StepOfXor(x, y);
    }
    IterateRespects(Step, Xor, a, b, OCTET);
  }

  lemma OctetInjective()
    ensures Injective(Octet)
  {
    forall a, b | Step(a) == Step(b) ensures a == b {
      StepUndone(a);
      StepUndone(b);
    }
    forall a, b | Octet(a) == Octet(b) ensures a == b {
      IterateInjective(Step, a, b, OCTET);
    }
  }

  // A byte fills the low eight bits, each way of filling them once

  lemma JoinFits(b0: bv32, b1: bv32, b2: bv32, b3: bv32, b4: bv32, b5: bv32, b6: bv32, b7: bv32)
    requires b0 <= 1 && b1 <= 1 && b2 <= 1 && b3 <= 1 && b4 <= 1 && b5 <= 1 && b6 <= 1 && b7 <= 1
    ensures Join(b0, b1, b2, b3, b4, b5, b6, b7) & 0xFFFF_FF00 == 0
  {
  }

  lemma JoinInjective(b0: bv32, b1: bv32, b2: bv32, b3: bv32, b4: bv32, b5: bv32, b6: bv32, b7: bv32,
                      c0: bv32, c1: bv32, c2: bv32, c3: bv32, c4: bv32, c5: bv32, c6: bv32, c7: bv32)
    requires b0 <= 1 && b1 <= 1 && b2 <= 1 && b3 <= 1 && b4 <= 1 && b5 <= 1 && b6 <= 1 && b7 <= 1
    requires c0 <= 1 && c1 <= 1 && c2 <= 1 && c3 <= 1 && c4 <= 1 && c5 <= 1 && c6 <= 1 && c7 <= 1
    requires Join(b0, b1, b2, b3, b4, b5, b6, b7) == Join(c0, c1, c2, c3, c4, c5, c6, c7)
    ensures b0 == c0 && b1 == c1 && b2 == c2 && b3 == c3 && b4 == c4 && b5 == c5 && b6 == c6 && b7 == c7
  {
  }

  lemma WordFits(d: byte)
    ensures Word(d) & 0xFFFF_FF00 == 0
  {
    var d1 := d / 2;
    var d2 := d1 / 2;
    var d3 := d2 / 2;
    var d4 := d3 / 2;
    var d5 := d4 / 2;
    var d6 := d5 / 2;
    JoinFits(Bit(d), Bit(d1), Bit(d2), Bit(d3), Bit(d4), Bit(d5), Bit(d6), Bit(d6 / 2));
  }

  lemma Halves(a: nat, b: nat)
    requires Bit(a) == Bit(b) && a / 2 == b / 2
    ensures a == b
  {
  }

  lemma FourHalves(a: nat, b: nat)
    requires Bit(a) == Bit(b) && Bit(a / 2) == Bit(b / 2) && Bit(a / 2 / 2) == Bit(b / 2 / 2)
    requires Bit(a / 2 / 2 / 2) == Bit(b / 2 / 2 / 2) && a / 2 / 2 / 2 / 2 == b / 2 / 2 / 2 / 2
    ensures a == b
  {
    Halves(a / 2 / 2 / 2, b / 2 / 2 / 2);
    Halves(a / 2 / 2, b / 2 / 2);
    Halves(a / 2, b / 2);
    Halves(a, b);
  }

  lemma EightHalves(d: byte)
    ensures d / 2 / 2 / 2 / 2 / 2 / 2 / 2 / 2 == 0
  {
    assert d / 2 < 128;
    assert d / 2 / 2 / 2 < 32;
  }

  lemma WordInjective(d: byte, e: byte)
    requires Word(d) == Word(e)
    ensures d == e
  {
    var d4, e4 := d / 2 / 2 / 2 / 2, e / 2 / 2 / 2 / 2;
    JoinInjective(Bit(d), Bit(d / 2), Bit(d / 2 / 2), Bit(d / 2 / 2 / 2),
                  Bit(d4), Bit(d4 / 2), Bit(d4 / 2 / 2), Bit(d4 / 2 / 2 / 2),
                  Bit(e), Bit(e / 2), Bit(e / 2 / 2), Bit(e / 2 / 2 / 2),
                  Bit(e4), Bit(e4 / 2), Bit(e4 / 2 / 2), Bit(e4 / 2 / 2 / 2));
    EightHalves(d);
    EightHalves(e);
    FourHalves(d4, e4);
    FourHalves(d, e);
  }

  function Double(z: bv32): bv32 {
    z << 1
  }

  /** z can be doubled k times without losing a bit. */
  predicate Room(z: bv32, k: nat) {
    match k
    case 0 => true
    case 1 => z & 0x8000_0000 == 0
    case 2 => z & 0xC000_0000 == 0
    case 3 => z & 0xE000_0000 == 0
    case 4 => z & 0xF000_0000 == 0
    case 5 => z & 0xF800_0000 == 0
    case 6 => z & 0xFC00_0000 == 0
    case 7 => z & 0xFE00_0000 == 0
    case 8 => z & 0xFF00_0000 == 0
    case _ => false
  }

  lemma DoubleUndone(z: bv32, k: nat)
    requires k > 0 && Room(z, k)
    ensures Step(Double(z)) == z && Room(Double(z), k - 1)
  {
  }

  lemma DoubleEight(y: bv32)
    ensures Double(Double(Double(Double(Double(Double(Double(Double(y)))))))) == y << 8
  {
  }

  lemma UpIsDoubling(y: bv32)
    ensures Iterate(Double, y, OCTET) == Up(y)
  {
    IterateEight(Double, y);
    DoubleEight(y);
  }

  /** Eight steps bring the second byte of the register down unchanged. */
  lemma Slide(y: bv32)
    requires y & 0xFF00_0000 == 0
    ensures Octet(Up(y)) == y
  {
    UpIsDoubling(y);
    forall z, k: nat | k > 0 && Room(z, k) ensures Step(Double(z)) == z && Room(Double(z), k - 1) {
      DoubleUndone(z, k);
    }
    IterateUndo(Step, Double, Room, y, OCTET);
  }

  // The bits a packed word of n bytes leaves clear.
  function Spare(n: nat): bv32
    requires n <= 4
  {
    match n
    case 0 => 0xFFFF_FFFF
    case 1 => 0xFFFF_FF00
    case 2 => 0xFFFF_0000
    case 3 => 0xFF00_0000
    case 4 => 0
  }

  lemma {:induction false} PackFits(m: seq<byte>)
    requires |m| <= 4
    ensures REGISTER.Pack(m) & Spare(|m|) == 0
    decreases |m|
  {
    if m == [] {
    } else {
      PackFits(m[1..]);
      WordFits(m[0]);
      PutFits(Word(m[0]), REGISTER.Pack(m[1..]), |m|);
    }
  }

  lemma PutFits(w: bv32, p: bv32, n: nat)
    requires 1 <= n <= 4 && w & 0xFFFF_FF00 == 0 && p & Spare(n - 1) == 0
    ensures Xor(w, Up(p)) & Spare(n) == 0
  {
  }

  lemma PutInjective(w: bv32, p: bv32, w': bv32, p': bv32)
    requires w & 0xFFFF_FF00 == 0 && w' & 0xFFFF_FF00 == 0 && p & 0xFF00_0000 == 0 && p' & 0xFF00_0000 == 0
    requires Xor(w, Up(p)) == Xor(w', Up(p'))
    ensures w == w' && p == p'
  {
  }

  lemma SpareTop(p: bv32, n: nat)
    requires n <= 3 && p & Spare(n) == 0
    ensures p & 0xFF00_0000 == 0
  {
  }

  lemma PackDown(m: seq<byte>)
    requires |m| <= 3
    ensures Octet(Up(REGISTER.Pack(m))) == REGISTER.Pack(m)
  {
    PackFits(m);
    SpareTop(REGISTER.Pack(m), |m|);
    Slide(REGISTER.Pack(m));
  }

  lemma PackHead(m: seq<byte>, p: bv32)
    requires 1 <= |m| <= 4 && p == REGISTER.Pack(m[1..])
    ensures REGISTER.Pack(m) == Xor(Word(m[0]), Up(p))
    ensures Word(m[0]) & 0xFFFF_FF00 == 0 && p & 0xFF00_0000 == 0
  {
    WordFits(m[0]);
    PackFits(m[1..]);
    SpareTop(p, |m| - 1);
  }

  lemma PackSplit(m: seq<byte>, m': seq<byte>)
    requires 1 <= |m| == |m'| <= 4 && REGISTER.Pack(m) == REGISTER.Pack(m')
    ensures m[0] == m'[0] && REGISTER.Pack(m[1..]) == REGISTER.Pack(m'[1..])
  {
    var p, p' := REGISTER.Pack(m[1..]), REGISTER.Pack(m'[1..]);
    PackHead(m, p);
    PackHead(m', p');
    PutInjective(Word(m[0]), p, Word(m'[0]), p');
    WordInjective(m[0], m'[0]);
  }

  lemma XorZero(a: bv32)
    ensures Xor(a, 0) == a
  {
  }

  lemma XorCancel(a: bv32, b: bv32, c: bv32)
    ensures Xor(c, a) == Xor(c, b) ==> a == b
    ensures Xor(a, c) == Xor(b, c) ==> a == b
  {
  }

  lemma XorOnOctets(a: bv32, b: bv32, c: bv32)
    ensures Octet(Xor(a, Xor(b, c))) == Xor(Octet(Xor(a, b)), Octet(c))
  {
    XorAssociative(a, b, c);
    OctetLinear(Xor(a, b), c);
  }

  lemma XorAssociative(a: bv32, b: bv32, c: bv32)
    ensures Xor(Xor(a, b), c) == Xor(a, Xor(b, c))
  {
    Associative(a, b, c);
  }

  lemma Associative(a: bv32, b: bv32, c: bv32)
    ensures (a ^ b) ^ c == a ^ (b ^ c)
  {
  }

  lemma RegisterLinear()
    ensures Linear(REGISTER)
  {
    forall a, b, c ensures Octet(Xor(a, Xor(b, c))) == Xor(Octet(Xor(a, b)), Octet(c)) {
      XorOnOctets(a, b, c);
    }
  }

  lemma RegisterCancels()
    ensures ZeroNeutral(REGISTER) && Cancels(REGISTER)
  {
    forall a ensures Xor(a, 0) == a {
      XorZero(a);
    }
    forall a, b, c ensures (Xor(c, a) == Xor(c, b) ==> a == b) && (Xor(a, c) == Xor(b, c) ==> a == b) {
      XorCancel(a, b, c);
    }
  }

  lemma RegisterPacks()
    ensures Slides(REGISTER) && Unpacks(REGISTER)
  {
    forall m: seq<byte> | |m| <= 3 ensures Octet(Up(REGISTER.Pack(m))) == REGISTER.Pack(m) {
      PackDown(m);
    }
    forall m: seq<byte>, m': seq<byte> | 1 <= |m| == |m'| <= 4 && REGISTER.Pack(m) == REGISTER.Pack(m')
      ensures m[0] == m'[0] && REGISTER.Pack(m[1..]) == REGISTER.Pack(m'[1..]) {
      PackSplit(m, m');
    }
  }

  lemma RegisterFlips()
    ensures SelfInverse(REGISTER.flip)
  {
  }

  /** A checksum can be carried on over the next piece of a message. */
  lemma Crc32Chain(bcc: bv32, x: seq<byte>, y: seq<byte>)
    ensures Crc32(Crc32(bcc, x), y) == Crc32(bcc, x + y)
  {
    RegisterFlips();
    ChecksumChain(REGISTER, bcc, x, y);
  }

  /** Any corruption confined to four consecutive bytes changes the checksum, however long the message. */
  lemma Crc32BurstDetected(bcc: bv32, x: seq<byte>, m: seq<byte>, m': seq<byte>, y: seq<byte>)
    requires |m| == |m'| <= 4 && m != m'
    ensures Crc32(bcc, x + m + y) != Crc32(bcc, x + m' + y)
  {
    RegisterLinear();
    OctetInjective();
    RegisterCancels();
    RegisterPacks();
    RegisterFlips();
    BurstDetected(REGISTER, bcc, x, m, m', y);
  }

  // The table-driven reference code of RFC 1952

  /** One bit of the division with the branch written out, as the reference code builds its table. */
  function BranchStep(c: bv32): bv32 {
    if c & 1 != 0 then POLYNOMIAL ^ (c >> 1) else c >> 1
  }

  function TableEntry(n: bv32): bv32 {
    Iterate(BranchStep, n, OCTET)
  }

  function Low(c: bv32): bv32 {
    c & 0xFF
  }

  function High(c: bv32): bv32 {
    c >> 8
  }

  /** The reference code's update of the register for one byte. */
  function TableFeed(c: bv32, d: byte): bv32 {
    Xor(TableEntry(Low(Xor(c, Word(d)))), High(c))
  }

  lemma StepIsBranchStep(x: bv32)
    ensures Step(x) == BranchStep(x)
  {
    StepBranch(x);
    XorCommutes(x >> 1, POLYNOMIAL);
  }

  lemma XorCommutes(a: bv32, b: bv32)
    ensures a ^ b == b ^ a
  {
  }

  lemma OctetIsTable(l: bv32)
    ensures Octet(l) == TableEntry(l)
  {
    StepsAlike();
    IterateSame(Step, BranchStep, l, OCTET);
  }

  lemma StepsAlike()
    ensures Alike(Step, BranchStep)
  {
    forall a ensures Step(a) == BranchStep(a) {
      StepIsBranchStep(a);
    }
  }

  lemma LowAndHigh(x: bv32)
    ensures Xor(Low(x), Up(High(x))) == x && High(x) & 0xFF00_0000 == 0
  {
  }

  lemma HighUntouched(c: bv32, w: bv32)
    requires w & 0xFFFF_FF00 == 0
    ensures High(Xor(c, w)) == High(c)
  {
  }

  lemma SplitsAgain()
    ensures forall x :: Xor(Low(x), Up(High(x))) == x && Octet(Up(High(x))) == High(x)
    ensures forall x, e: byte :: High(Xor(x, Word(e))) == High(x)
  {
    forall x ensures Xor(Low(x), Up(High(x))) == x && Octet(Up(High(x))) == High(x) {
      LowAndHigh(x);
      Slide(High(x));
    }
    forall x, e: byte ensures High(Xor(x, Word(e))) == High(x) {
      WordFits(e);
      HighUntouched(x, Word(e));
    }
  }

  /** Feeding a byte bit by bit is the table look-up of the reference code. */
  lemma FeedIsTableFeed(c: bv32, d: byte)
    ensures REGISTER.Feed(c, d) == TableFeed(c, d)
  {
    SplitsAgain();
    forall a, b ensures Octet(Xor(a, b)) == Xor(Octet(a), Octet(b)) {
      OctetLinear(a, b);
    }
    FeedByTable(REGISTER, Low, High, c, d);
    OctetIsTable(Low(Xor(c, Word(d))));
  }

  // Registers as numbers

  function Digit(c: bv32): nat {
    if c & 1 == 1 then 1 else 0
  }

  lemma HalfLess(c: bv32)
    requires c != 0
    ensures c >> 1 < c
  {
  }

  /** The number with the binary digits of c. */
  function Number(c: bv32): nat
    decreases c
  {
    if c == 0 then 0
    else
      HalfLess(c);
      Digit(c) + 2 * Number(c >> 1)
  }

  /** The number of the eight lowest digits. */
  function LowByte(c: bv32): (d: byte) {
    Digit(c) + 2 * Digit(c >> 1) + 4 * Digit(c >> 2) + 8 * Digit(c >> 3) + 16 * Digit(c >> 4) + 32 * Digit(c >> 5)
    + 64 * Digit(c >> 6) + 128 * Digit(c >> 7)
  }

  lemma NumberStep(c: bv32)
    ensures Number(c) == Digit(c) + 2 * Number(c >> 1)
  {
    if c == 0 {
      assert c >> 1 == 0;
    }
  }

  function Half(c: bv32): bv32 {
    c >> 1
  }

  lemma HalvesShift(c: bv32)
    ensures Half(c) == c >> 1 && Half(c >> 1) == c >> 2 && Half(c >> 2) == c >> 3 && Half(c >> 3) == c >> 4
    ensures Half(c >> 4) == c >> 5 && Half(c >> 5) == c >> 6 && Half(c >> 6) == c >> 7 && Half(c >> 7) == c >> 8
  {
  }

  lemma NumberFourDigits(c: bv32)
    ensures Number(c) == Digit(c) + 2 * Digit(Half(c)) + 4 * Digit(Half(Half(c))) + 8 * Digit(Half(Half(Half(c))))
                         + 16 * Number(Half(Half(Half(Half(c)))))
  {
    forall y ensures Number(y) == Digit(y) + 2 * Number(Half(y)) {
      NumberStep(y);
    }
    FourSteps(Number, Digit, Half, c);
  }

  lemma NumberByByte(c: bv32)
    ensures Number(c) == LowByte(c) + 256 * Number(c >> 8)
  {
    HalvesShift(c);
    NumberFourDigits(c);
    NumberFourDigits(c >> 4);
  }

  lemma NumberBelow(c: bv32, n: nat)
    requires Number(c >> 8) < n
    ensures Number(c) < 256 * n
  {
    NumberByByte(c);
  }

  lemma ShiftsByEight(c: bv32)
    ensures (c >> 8) >> 8 == c >> 16 && (c >> 16) >> 8 == c >> 24 && (c >> 24) >> 8 == 0
  {
  }

  lemma NumberBound(c: bv32)
    ensures Number(c) < 0x1_0000_0000
  {
    ShiftsByEight(c);
    NumberBelow(c >> 24, 1);
    NumberBelow(c >> 16, 0x100);
    NumberBelow(c >> 8, 0x1_0000);
    NumberBelow(c, 0x100_0000);
  }

  /** The checksum of a message as the number a header field holds. */
  function Checksum(s: seq<byte>): (n: nat)
    ensures n < 0x1_0000_0000
  {
    NumberBound(Crc32(0, s));
    Number(Crc32(0, s))
  }
}
