/**
 ke_calculate_crc32: the table-driven loop against polynomial division, and
 what the digest detects.

 A byte of the buffer is a bv8, read unsigned: where plain char is signed, the
 loop's index stays inside the table exactly for bytes below 0x80
 (SignedIndexStaysInTable).
 */
module Crc32 {
  import opened Crc32Table
  import opened PolynomialDivision

  const ALL_ONES: bv32 := 0xFFFF_FFFF

  // ------------------------------------------------------------------
  // The loop
  // ------------------------------------------------------------------

  function ByteStep(crc: bv32, b: bv8): bv32 {
    CrcTable((crc & 0xFF) as bv8 ^ b) ^ (crc >> 8)
  }

  // A byte read as a signed char, promoted to a 32-bit int.
  function SignExtended(b: bv8): bv32 {
    if b < 0x80 then b as bv32 else 0xFFFF_FF00 | (b as bv32)
  }

  /** Where char is signed, the index of the loop is the unsigned one, and lies in
      the table, if and only if the byte is below 0x80. For any other byte it is
      a negative int, whatever the state. */
  lemma SignedIndexStaysInTable(crc: bv32, b: bv8)
    ensures var index := (crc & 0xFF) ^ SignExtended(b);
            && (index <= 255 <==> b < 0x80)
            && (index == ((crc & 0xFF) as bv8 ^ b) as bv32 <==> b < 0x80)
            && (b >= 0x80 ==> index >= 0x8000_0000)
  {
  }

  function Fold(crc: bv32, data: seq<bv8>): bv32
    decreases |data|
  {
    if |data| == 0 then crc else Fold(ByteStep(crc, data[0]), data[1..])
  }

  /** The value the loop returns. */
  function Crc32C(data: seq<bv8>): bv32 {
    Plus(Fold(ALL_ONES, data), ALL_ONES)
  }

  /** For every length, bit i of the digest is coefficient x^(31-i) of the
      CRC-32C digest of the buffer by polynomial division. */
  method CalculateCrc32(p: array<bv8>, len: nat) returns (digest: bv32)
    requires len <= p.Length
    ensures digest == Crc32C(p[..len])
    ensures Register(digest) == Digest(Coefficients(p[..len]))
  {
    hide CrcTable, Fold, Coefficients, Register, Digest;
    var crc: bv32 := ALL_ONES;
    var cursor, left := 0, len;
    while left != 0
      invariant 0 <= left && cursor + left == len
      invariant Fold(ALL_ONES, p[..len]) == Fold(crc, p[cursor..len])
    {
      FoldFirst(crc, p[cursor..len]);
      assert p[cursor..len][1..] == p[cursor + 1..len];
      crc := CrcTable((crc & 0xFF) as bv8 ^ p[cursor]) ^ (crc >> 8);
      cursor, left := cursor + 1, left - 1;
    }
    FoldNothing(crc, p[cursor..len]);
    TableLoopIsPolynomialDivision(p[..len]);
    return crc ^ ALL_ONES;
  }

  lemma FoldFirst(crc: bv32, data: seq<bv8>)
    requires |data| > 0
    ensures Fold(crc, data) == Fold(CrcTable((crc & 0xFF) as bv8 ^ data[0]) ^ (crc >> 8), data[1..])
  {
    hide CrcTable;
  }

  lemma FoldNothing(crc: bv32, data: seq<bv8>)
    requires |data| == 0
    ensures Fold(crc, data) == crc
  {
  }

  // ------------------------------------------------------------------
  // A 32-bit word as the coefficients of a register
  // ------------------------------------------------------------------

  function And(x: bv32, mask: bv32): bv32 { x & mask }

  function Mask(i: nat): bv32 {
    match i
    case 0 => 0x1 case 1 => 0x2 case 2 => 0x4 case 3 => 0x8
    case 4 => 0x10 case 5 => 0x20 case 6 => 0x40 case 7 => 0x80
    case 8 => 0x100 case 9 => 0x200 case 10 => 0x400 case 11 => 0x800
    case 12 => 0x1000 case 13 => 0x2000 case 14 => 0x4000 case 15 => 0x8000
    case 16 => 0x10000 case 17 => 0x20000 case 18 => 0x40000 case 19 => 0x80000
    case 20 => 0x100000 case 21 => 0x200000 case 22 => 0x400000 case 23 => 0x800000
    case 24 => 0x1000000 case 25 => 0x2000000 case 26 => 0x4000000 case 27 => 0x8000000
    case 28 => 0x10000000 case 29 => 0x20000000 case 30 => 0x40000000 case _ => 0x80000000
  }

  predicate BitAt(x: bv32, i: nat) { And(x, Mask(i)) != 0 }

  lemma MaskIsOneBit(x: bv32, i: nat)
    ensures And(x, Mask(i)) == 0 || And(x, Mask(i)) == Mask(i)
  {
    match i
    case 0 => case 1 => case 2 => case 3 => case 4 => case 5 => case 6 => case 7 =>
    case 8 => case 9 => case 10 => case 11 => case 12 => case 13 => case 14 => case 15 =>
    case 16 => case 17 => case 18 => case 19 => case 20 => case 21 => case 22 => case 23 =>
    case 24 => case 25 => case 26 => case 27 => case 28 => case 29 => case 30 => case _ =>
  }

  function Register(x: bv32): (r: Polynomial)
    ensures |r| == 32
  {
    seq(32, i requires 0 <= i < 32 => BitAt(x, i))
  }

  // Addition of words as polynomials over GF(2).
  function Plus(x: bv32, y: bv32): bv32 { x ^ y }

  lemma AndDistributes(x: bv32, y: bv32, mask: bv32)
    ensures And(Plus(x, y), mask) == Plus(And(x, mask), And(y, mask))
  {
  }

  lemma PlusUnit(x: bv32)
    ensures Plus(x, 0) == x && Plus(0, x) == x && Plus(x, x) == 0
  {
  }

  lemma PlusOfMasked(u: bv32, v: bv32, mask: bv32)
    requires (u == 0 || u == mask) && (v == 0 || v == mask)
    ensures Plus(u, v) != 0 <==> (u != 0) != (v != 0)
  {
    hide Plus;
    PlusUnit(mask);
    PlusUnit(0);
  }

  lemma BitPlus(x: bv32, y: bv32, i: nat)
    ensures BitAt(Plus(x, y), i) == (BitAt(x, i) != BitAt(y, i))
  {
    hide And, Plus, Mask;
    MaskIsOneBit(x, i);
    MaskIsOneBit(y, i);
    AndDistributes(x, y, Mask(i));
    PlusOfMasked(And(x, Mask(i)), And(y, Mask(i)), Mask(i));
  }

  lemma RegisterPlus(x: bv32, y: bv32)
    ensures Register(Plus(x, y)) == Add(Register(x), Register(y))
  {
    hide BitAt, Plus;
    forall i | 0 <= i < 32
      ensures Register(Plus(x, y))[i] == Add(Register(x), Register(y))[i]
    {
      BitPlus(x, y, i);
    }
  }

  lemma NextMask(i: nat)
    requires i < 31
    ensures Mask(i + 1) == Mask(i) << 1 && Mask(i) & 0x8000_0000 == 0
  {
    match i
    case 0 => case 1 => case 2 => case 3 => case 4 => case 5 => case 6 => case 7 =>
    case 8 => case 9 => case 10 => case 11 => case 12 => case 13 => case 14 => case 15 =>
    case 16 => case 17 => case 18 => case 19 => case 20 => case 21 => case 22 => case 23 =>
    case 24 => case 25 => case 26 => case 27 => case 28 => case 29 => case _ =>
  }

  lemma ShiftedMask(x: bv32, mask: bv32)
    requires mask & 0x8000_0000 == 0
    ensures And(x >> 1, mask) == 0 <==> And(x, mask << 1) == 0
  {
  }

  lemma TopBitIsShiftedOut(x: bv32)
    ensures And(x >> 1, 0x8000_0000) == 0
  {
  }

  lemma BitShift(x: bv32, i: nat)
    requires i < 32
    ensures BitAt(x >> 1, i) == (i < 31 && BitAt(x, i + 1))
  {
    if i < 31 {
      NextMask(i);
      hide And, Mask;
      ShiftedMask(x, Mask(i));
    } else {
      assert Mask(i) == 0x8000_0000;
      hide And, Mask;
      TopBitIsShiftedOut(x);
    }
  }

  lemma RegisterShift(x: bv32)
    ensures Register(x >> 1) == Register(x)[1..] + [false]
  {
    hide BitAt;
    forall i | 0 <= i < 32
      ensures Register(x >> 1)[i] == (Register(x)[1..] + [false])[i]
    {
      BitShift(x, i);
    }
  }

  lemma RegisterIsZero(x: bv32)
    requires Register(x) == Repeat(false, 32)
    ensures x == 0
  {
    hide BitAt;
    forall i: nat | i < 32 ensures !BitAt(x, i) {
      assert Register(x)[i] == Repeat(false, 32)[i];
    }
    hide Register;
    ZeroByte0(x);
    ZeroByte1(x);
    ZeroByte2(x);
    ZeroByte3(x);
    ZeroWord(x);
  }

  lemma ZeroWord(x: bv32)
    requires x & 0xFF == 0 && x & 0xFF00 == 0 && x & 0xFF_0000 == 0 && x & 0xFF00_0000 == 0
    ensures x == 0
  {
  }

  lemma ZeroByte0(x: bv32)
    requires forall i: nat :: i < 32 ==> !BitAt(x, i)
    ensures x & 0xFF == 0
  {
    assert !BitAt(x, 0) && !BitAt(x, 1) && !BitAt(x, 2) && !BitAt(x, 3);
    assert !BitAt(x, 4) && !BitAt(x, 5) && !BitAt(x, 6) && !BitAt(x, 7);
  }

  lemma ZeroByte1(x: bv32)
    requires forall i: nat :: i < 32 ==> !BitAt(x, i)
    ensures x & 0xFF00 == 0
  {
    assert !BitAt(x, 8) && !BitAt(x, 9) && !BitAt(x, 10) && !BitAt(x, 11);
    assert !BitAt(x, 12) && !BitAt(x, 13) && !BitAt(x, 14) && !BitAt(x, 15);
  }

  lemma ZeroByte2(x: bv32)
    requires forall i: nat :: i < 32 ==> !BitAt(x, i)
    ensures x & 0xFF0000 == 0
  {
    assert !BitAt(x, 16) && !BitAt(x, 17) && !BitAt(x, 18) && !BitAt(x, 19);
    assert !BitAt(x, 20) && !BitAt(x, 21) && !BitAt(x, 22) && !BitAt(x, 23);
  }

  lemma ZeroByte3(x: bv32)
    requires forall i: nat :: i < 32 ==> !BitAt(x, i)
    ensures x & 0xFF000000 == 0
  {
    assert !BitAt(x, 24) && !BitAt(x, 25) && !BitAt(x, 26) && !BitAt(x, 27);
    assert !BitAt(x, 28) && !BitAt(x, 29) && !BitAt(x, 30) && !BitAt(x, 31);
  }

  lemma RegisterIsInjective(x: bv32, y: bv32)
    requires Register(x) == Register(y)
    ensures x == y
  {
    hide Register, Plus;
    RegisterPlus(x, y);
    assert Add(Register(x), Register(y)) == Repeat(false, 32);
    RegisterIsZero(Plus(x, y));
    PlusIsZero(x, y);
  }

  lemma PlusIsZero(x: bv32, y: bv32)
    requires Plus(x, y) == 0
    ensures x == y
  {
  }

  // One step of the word is one step of the register.
  lemma RegisterStep(s: bv32)
    ensures Register(BitStep(s)) == Feed(Register(s), [false])
  {
    var r := Register(s);
    FeedOne(r, false);
    RegisterShift(s);
    assert r[0] == BitAt(s, 0) == (s & 1 == 1);
    PolynomialBits();
    RegisterPlus(s >> 1, 0x82F63B78);
    hide Register, BitAt, Feed, DIVISOR;
  }

  lemma PolynomialBit(i: nat)
    requires i < 32
    ensures BitAt(0x82F63B78, i) == DIVISOR[i + 1]
  {
    match i
    case 0 => case 1 => case 2 => case 3 => case 4 => case 5 => case 6 => case 7 =>
    case 8 => case 9 => case 10 => case 11 => case 12 => case 13 => case 14 => case 15 =>
    case 16 => case 17 => case 18 => case 19 => case 20 => case 21 => case 22 => case 23 =>
    case 24 => case 25 => case 26 => case 27 => case 28 => case 29 => case 30 => case _ =>
  }

  lemma PolynomialBits()
    ensures Register(0x82F63B78) == DIVISOR[1..]
  {
    forall i | 0 <= i < 32
      ensures Register(0x82F63B78)[i] == DIVISOR[1..][i]
    {
      PolynomialBit(i);
      hide BitAt;
    }
  }

  lemma RegisterTwoSteps(s: bv32)
    ensures Register(TwoSteps(s)) == Feed(Register(s), Repeat(false, 2))
  {
    hide Register, BitStep, Feed;
    RegisterStep(s);
    RegisterStep(BitStep(s));
    FeedAppend(Register(s), [false], [false]);
    assert Repeat(false, 2) == [false] + [false];
  }

  lemma RegisterFourSteps(s: bv32)
    ensures Register(FourSteps(s)) == Feed(Register(s), Repeat(false, 4))
  {
    hide Register, TwoSteps, Feed;
    RegisterTwoSteps(s);
    RegisterTwoSteps(TwoSteps(s));
    FeedAppend(Register(s), Repeat(false, 2), Repeat(false, 2));
    assert Repeat(false, 4) == Repeat(false, 2) + Repeat(false, 2);
  }

  lemma RegisterEightSteps(s: bv32)
    ensures Register(EightSteps(s)) == Feed(Register(s), Repeat(false, 8))
  {
    hide Register, FourSteps, Feed;
    RegisterFourSteps(s);
    RegisterFourSteps(FourSteps(s));
    FeedAppend(Register(s), Repeat(false, 4), Repeat(false, 4));
    assert Repeat(false, 8) == Repeat(false, 4) + Repeat(false, 4);
  }

  // With an empty low byte, eight steps only shift.
  lemma EightStepsShift(s: bv32)
    requires s & 0xFF == 0
    ensures EightSteps(s) == s >> 8
  {
    assert BitStep(s) == s >> 1;
    assert BitStep(s >> 1) == s >> 2;
    assert BitStep(s >> 2) == s >> 3;
    assert BitStep(s >> 3) == s >> 4;
    assert BitStep(s >> 4) == s >> 5;
    assert BitStep(s >> 5) == s >> 6;
    assert BitStep(s >> 6) == s >> 7;
    assert BitStep(s >> 7) == s >> 8;
  }

  // ------------------------------------------------------------------
  // The table loop is polynomial division
  // ------------------------------------------------------------------

  function Widen(b: bv8): bv32 { b as bv32 }

  function ByteBits(b: bv8): (bits: Polynomial)
    ensures |bits| == 8
  {
    Register(Widen(b))[..8]
  }

  /** The message polynomial of a buffer: least significant bit of the first byte first. */
  function Coefficients(data: seq<bv8>): (bits: Polynomial)
    ensures |bits| == 8 * |data|
  {
    if |data| == 0 then [] else ByteBits(data[0]) + Coefficients(data[1..])
  }

  lemma ByteRegister(b: bv8)
    ensures Register(Widen(b)) == ByteBits(b) + Repeat(false, 24)
  {
    forall i | 8 <= i < 32
      ensures !BitAt(Widen(b), i)
    {
      HighBitOfByte(b, i);
    }
    hide BitAt;
  }

  lemma HighBitOfByte(b: bv8, i: nat)
    requires 8 <= i < 32
    ensures !BitAt(Widen(b), i)
  {
    match i
    case 8 => case 9 => case 10 => case 11 => case 12 => case 13 => case 14 => case 15 =>
    case 16 => case 17 => case 18 => case 19 => case 20 => case 21 => case 22 => case 23 =>
    case 24 => case 25 => case 26 => case 27 => case 28 => case 29 => case 30 => case _ =>
  }

  lemma SplitWord(crc: bv32, b: bv8)
    ensures var index := Widen((crc & 0xFF) as bv8 ^ b);
            var high := crc & 0xFFFF_FF00;
            && Plus(crc, Widen(b)) == Plus(index, high)
            && high >> 8 == crc >> 8 && high & 0xFF == 0
  {
  }

  lemma ByteStepInWords(crc: bv32, b: bv8)
    ensures ByteStep(crc, b)
            == Plus(EightSteps(Widen((crc & 0xFF) as bv8 ^ b)), EightSteps(crc & 0xFFFF_FF00))
  {
    SplitWord(crc, b);
    EightStepsShift(crc & 0xFFFF_FF00);
    hide EightSteps, CrcTable;
  }

  /** One table lookup is eight steps of the division. */
  lemma ByteStepIsDivision(crc: bv32, b: bv8)
    ensures Register(ByteStep(crc, b)) == Feed(Register(crc), ByteBits(b))
  {
    hide *;
    var entry := Widen((crc & 0xFF) as bv8 ^ b);
    var high := crc & 0xFFFF_FF00;
    ByteStepInWords(crc, b);
    StepsOfSum(entry, high);
    SplitWord(crc, b);
    RegisterPlus(crc, Widen(b));
    ByteRegister(b);
    AllAtOnce(Register(crc), ByteBits(b));
  }

  lemma StepsOfSum(x: bv32, y: bv32)
    ensures Register(Plus(EightSteps(x), EightSteps(y))) == Feed(Register(Plus(x, y)), Repeat(false, 8))
  {
    hide *;
    RegisterPlus(EightSteps(x), EightSteps(y));
    RegisterEightSteps(x);
    RegisterEightSteps(y);
    RegisterPlus(x, y);
    FeedIsLinear(Register(x), Register(y), Repeat(false, 8), Repeat(false, 8));
    assert Add(Repeat(false, 8), Repeat(false, 8)) == Repeat(false, 8);
  }

  lemma {:induction false} FoldIsFeed(crc: bv32, data: seq<bv8>)
    ensures Register(Fold(crc, data)) == Feed(Register(crc), Coefficients(data))
    decreases |data|
  {
    if |data| > 0 {
      hide ByteStep, ByteBits, Register;
      ByteStepIsDivision(crc, data[0]);
      FeedAppend(Register(crc), ByteBits(data[0]), Coefficients(data[1..]));
      FoldIsFeed(ByteStep(crc, data[0]), data[1..]);
    } else {
      hide Register;
    }
  }

  lemma OnesRegister()
    ensures Register(ALL_ONES) == Repeat(true, 32)
  {
  }

  /** For every buffer the table-driven loop returns the remainder of
      polynomial long division, presets and complements included. */
  lemma TableLoopIsPolynomialDivision(data: seq<bv8>)
    ensures Register(Crc32C(data)) == Digest(Coefficients(data))
  {
    hide Register, Fold, Feed, Coefficients;
    OnesRegister();
    FoldIsFeed(ALL_ONES, data);
    RegisterPlus(Fold(ALL_ONES, data), ALL_ONES);
    RegisterIsRemainder(Repeat(true, 32), Coefficients(data));
  }

  // ------------------------------------------------------------------
  // What the digest promises
  // ------------------------------------------------------------------

  /** The state after a concatenation is the state of the second part started
      from the state of the first. */
  lemma {:induction false} FoldConcat(crc: bv32, a: seq<bv8>, b: seq<bv8>)
    ensures Fold(crc, a + b) == Fold(Fold(crc, a), b)
    decreases |a|
  {
    hide ByteStep;
    if |a| == 0 {
      assert a + b == b;
    } else {
      assert (a + b)[1..] == a[1..] + b;
      FoldConcat(ByteStep(crc, a[0]), a[1..], b);
    }
  }

  function XorByte(a: bv8, b: bv8): bv8 { a ^ b }

  function XorBytes(a: seq<bv8>, b: seq<bv8>): (c: seq<bv8>)
    requires |a| == |b|
    ensures |c| == |a|
  {
    seq(|a|, i requires 0 <= i < |a| => XorByte(a[i], b[i]))
  }

  lemma WidenXor(a: bv8, b: bv8)
    ensures Widen(XorByte(a, b)) == Plus(Widen(a), Widen(b))
  {
  }

  lemma ByteBitsXor(a: bv8, b: bv8)
    ensures ByteBits(XorByte(a, b)) == Add(ByteBits(a), ByteBits(b))
  {
    hide Register, Plus, Widen, XorByte;
    WidenXor(a, b);
    RegisterPlus(Widen(a), Widen(b));
    assert Add(Register(Widen(a)), Register(Widen(b)))[..8] == Add(ByteBits(a), ByteBits(b));
  }

  lemma XorBytesTail(a: seq<bv8>, b: seq<bv8>)
    requires |a| == |b| > 0
    ensures XorBytes(a, b)[0] == XorByte(a[0], b[0])
    ensures XorBytes(a, b)[1..] == XorBytes(a[1..], b[1..])
  {
    hide XorByte;
  }

  lemma AddConcat(a: Polynomial, b: Polynomial, c: Polynomial, d: Polynomial)
    requires |a| == |b| && |c| == |d|
    ensures Add(a + c, b + d) == Add(a, b) + Add(c, d)
  {
  }

  lemma {:induction false} CoefficientsXor(a: seq<bv8>, b: seq<bv8>)
    requires |a| == |b|
    ensures Coefficients(XorBytes(a, b)) == Add(Coefficients(a), Coefficients(b))
    decreases |a|
  {
    hide ByteBits, XorByte, XorBytes, Add;
    if |a| > 0 {
      ByteBitsXor(a[0], b[0]);
      XorBytesTail(a, b);
      CoefficientsXor(a[1..], b[1..]);
      AddConcat(ByteBits(a[0]), ByteBits(b[0]), Coefficients(a[1..]), Coefficients(b[1..]));
    }
  }

  /** The digest is affine: over equal lengths, digests of three buffers xor to
      the digest of the xor. */
  lemma DigestIsAffine(a: seq<bv8>, b: seq<bv8>, c: seq<bv8>)
    requires |a| == |b| == |c|
    ensures Plus(Plus(Crc32C(a), Crc32C(b)), Crc32C(c)) == Crc32C(XorBytes(XorBytes(a, b), c))
  {
    hide Plus, Fold, XorBytes;
    FoldIsAffine(a, b, c);
    OnesCancel(Fold(ALL_ONES, a), Fold(ALL_ONES, b), Fold(ALL_ONES, c));
  }

  lemma FoldIsAffine(a: seq<bv8>, b: seq<bv8>, c: seq<bv8>)
    requires |a| == |b| == |c|
    ensures Plus(Plus(Fold(ALL_ONES, a), Fold(ALL_ONES, b)), Fold(ALL_ONES, c))
            == Fold(ALL_ONES, XorBytes(XorBytes(a, b), c))
  {
    assert Plus(Plus(ALL_ONES, ALL_ONES), ALL_ONES) == ALL_ONES;
    hide *;
    FoldIsLinear(ALL_ONES, ALL_ONES, a, b);
    FoldIsLinear(Plus(ALL_ONES, ALL_ONES), ALL_ONES, XorBytes(a, b), c);
  }

  /** The loop is linear in its state and the buffer together. */
  lemma FoldIsLinear(s: bv32, t: bv32, a: seq<bv8>, b: seq<bv8>)
    requires |a| == |b|
    ensures Fold(Plus(s, t), XorBytes(a, b)) == Plus(Fold(s, a), Fold(t, b))
  {
    hide *;
    FoldIsFeed(s, a);
    FoldIsFeed(t, b);
    FoldIsFeed(Plus(s, t), XorBytes(a, b));
    CoefficientsXor(a, b);
    RegisterPlus(s, t);
    FeedIsLinear(Register(s), Register(t), Coefficients(a), Coefficients(b));
    RegisterPlus(Fold(s, a), Fold(t, b));
    RegisterIsInjective(Fold(Plus(s, t), XorBytes(a, b)), Plus(Fold(s, a), Fold(t, b)));
  }

  lemma OnesCancel(x: bv32, y: bv32, z: bv32)
    ensures Plus(Plus(Plus(x, ALL_ONES), Plus(y, ALL_ONES)), Plus(z, ALL_ONES))
            == Plus(Plus(Plus(x, y), z), ALL_ONES)
  {
  }

  /** A burst of errors inside any 32 consecutive bits changes the digest,
      whatever comes before and after. */
  lemma BurstIsDetected(a: seq<bv8>, b: seq<bv8>, before: Polynomial, u: Polynomial, v: Polynomial, after: Polynomial)
    requires Coefficients(a) == before + u + after
    requires Coefficients(b) == before + v + after
    requires |u| == |v| <= 32 && a != b
    ensures Crc32C(a) != Crc32C(b)
  {
    hide Register, Feed, Coefficients, Fold;
    if u == v {
      CoefficientsAreInjective(a, b);
    } else {
      FoldIsFeed(ALL_ONES, a);
      FoldIsFeed(ALL_ONES, b);
      BurstChangesRegister(Register(ALL_ONES), before, u, v, after);
      ComplementIsInjective(Fold(ALL_ONES, a), Fold(ALL_ONES, b));
    }
  }

  lemma ComplementIsInjective(x: bv32, y: bv32)
    requires x != y
    ensures Plus(x, ALL_ONES) != Plus(y, ALL_ONES)
  {
  }

  lemma {:induction false} CoefficientsConcat(a: seq<bv8>, b: seq<bv8>)
    ensures Coefficients(a + b) == Coefficients(a) + Coefficients(b)
    decreases |a|
  {
    hide ByteBits;
    if |a| == 0 {
      assert a + b == b;
    } else {
      assert (a + b)[1..] == a[1..] + b;
      CoefficientsConcat(a[1..], b);
    }
  }

  lemma ByteBitsAreInjective(a: bv8, b: bv8)
    requires ByteBits(a) == ByteBits(b)
    ensures a == b
  {
    ByteRegister(a);
    ByteRegister(b);
    hide Register, ByteBits;
    RegisterIsInjective(Widen(a), Widen(b));
  }

  lemma {:induction false} CoefficientsAreInjective(a: seq<bv8>, b: seq<bv8>)
    requires Coefficients(a) == Coefficients(b)
    ensures a == b
    decreases |a|
  {
    if |a| > 0 {
      hide ByteBits;
      var p, q := Coefficients(a), Coefficients(b);
      assert p[..8] == ByteBits(a[0]) && q[..8] == ByteBits(b[0]);
      assert p[8..] == Coefficients(a[1..]) && q[8..] == Coefficients(b[1..]);
      ByteBitsAreInjective(a[0], b[0]);
      CoefficientsAreInjective(a[1..], b[1..]);
      assert a == [a[0]] + a[1..] && b == [b[0]] + b[1..];
    }
  }

  /** Two buffers of equal length that differ only inside a window of at most
      four bytes have different digests. */
  lemma FourByteWindowIsDetected(a: seq<bv8>, b: seq<bv8>, start: nat, width: nat)
    requires |a| == |b| && start + width <= |a| && width <= 4 && a != b
    requires a[..start] == b[..start] && a[start + width..] == b[start + width..]
    ensures Crc32C(a) != Crc32C(b)
  {
    hide Coefficients, Crc32C;
    var end := start + width;
    assert a == a[..start] + a[start..end] + a[end..];
    assert b == b[..start] + b[start..end] + b[end..];
    CoefficientsConcat(a[..start], a[start..end]);
    CoefficientsConcat(a[..start] + a[start..end], a[end..]);
    CoefficientsConcat(b[..start], b[start..end]);
    CoefficientsConcat(b[..start] + b[start..end], b[end..]);
    BurstIsDetected(a, b, Coefficients(a[..start]), Coefficients(a[start..end]),
                    Coefficients(b[start..end]), Coefficients(a[end..]));
  }

  // ------------------------------------------------------------------
  // One bit more
  // ------------------------------------------------------------------

  function Unit(i: nat): bv8 {
    match i
    case 0 => 0x01 case 1 => 0x02 case 2 => 0x04 case 3 => 0x08
    case 4 => 0x10 case 5 => 0x20 case 6 => 0x40 case _ => 0x80
  }

  lemma UnitBit(i: nat, j: nat)
    requires i < 8 && j < 8
    ensures BitAt(Widen(Unit(i)), j) <==> i == j
  {
    match i
    case 0 => case 1 => case 2 => case 3 => case 4 => case 5 => case 6 => case _ =>
  }

  function UnitBits(i: nat): (bits: Polynomial)
    ensures |bits| == 8 && forall j :: 0 <= j < 8 ==> bits[j] == (i == j)
  {
    seq(8, j => i == j)
  }

  lemma ByteBitsOfUnit(i: nat)
    requires i < 8
    ensures ByteBits(Unit(i)) == UnitBits(i)
  {
    hide Unit, BitAt, UnitBits;
    forall j | 0 <= j < 8
      ensures ByteBits(Unit(i))[j] == UnitBits(i)[j]
    {
      UnitBit(i, j);
    }
  }

  // The byte whose first k bits are those given.
  function ByteOf(bits: Polynomial, k: nat): bv8
    requires |bits| == 8 && k <= 8
  {
    if k == 0 then 0 else if bits[k - 1] then XorByte(ByteOf(bits, k - 1), Unit(k - 1)) else ByteOf(bits, k - 1)
  }

  lemma NoBits()
    ensures ByteBits(0) == Repeat(false, 8)
  {
  }

  lemma NextBit(bits: Polynomial, k: nat)
    requires |bits| == 8 && k < 8
    ensures var before := bits[..k] + Repeat(false, 8 - k);
            bits[..k + 1] + Repeat(false, 7 - k) == if bits[k] then Add(before, UnitBits(k)) else before
  {
    hide UnitBits, Add;
    var before, after := bits[..k] + Repeat(false, 8 - k), bits[..k + 1] + Repeat(false, 7 - k);
    assert forall j :: 0 <= j < 8 ==> after[j] == if j == k then bits[k] else before[j];
    assert !before[k];
  }

  lemma {:induction false} ByteOfBits(bits: Polynomial, k: nat)
    requires |bits| == 8 && k <= 8
    ensures ByteBits(ByteOf(bits, k)) == bits[..k] + Repeat(false, 8 - k)
    decreases k
  {
    hide Unit, XorByte, ByteBits, Add, UnitBits;
    if k == 0 {
      NoBits();
      assert bits[..0] + Repeat(false, 8) == Repeat(false, 8);
    } else {
      ByteOfBits(bits, k - 1);
      ByteBitsXor(ByteOf(bits, k - 1), Unit(k - 1));
      ByteBitsOfUnit(k - 1);
      NextBit(bits, k - 1);
    }
  }

  function BytesOf(bits: Polynomial): (data: seq<bv8>)
    requires |bits| % 8 == 0
    ensures |data| == |bits| / 8
    decreases |bits|
  {
    if |bits| == 0 then [] else [ByteOf(bits[..8], 8)] + BytesOf(bits[8..])
  }

  /** Every polynomial of a multiple of eight coefficients is that of a buffer. */
  lemma {:induction false} BytesOfCoefficients(bits: Polynomial)
    requires |bits| % 8 == 0
    ensures Coefficients(BytesOf(bits)) == bits
    decreases |bits|
  {
    if |bits| > 0 {
      hide ByteOf, ByteBits;
      ByteOfBits(bits[..8], 8);
      assert bits[..8] + Repeat(false, 0) == bits[..8];
      BytesOfCoefficients(bits[8..]);
    }
  }

  /** A burst inside 33 consecutive bits is missed exactly when it is the pattern
      of the divisor. */
  lemma LongerBurstIsDetected(a: seq<bv8>, b: seq<bv8>, before: Polynomial, u: Polynomial, v: Polynomial,
                              after: Polynomial)
    requires Coefficients(a) == before + u + after
    requires Coefficients(b) == before + v + after
    requires |u| == |v| == 33
    ensures Crc32C(a) == Crc32C(b) <==> a == b || Add(u, v) == DIVISOR
  {
    hide Register, Feed, Coefficients, Fold, DIVISOR;
    FoldIsFeed(ALL_ONES, a);
    FoldIsFeed(ALL_ONES, b);
    LongerBurst(Register(ALL_ONES), before, u, v, after);
    if u == v { CoefficientsAreInjective(a, b); }
    if Fold(ALL_ONES, a) != Fold(ALL_ONES, b) {
      ComplementIsInjective(Fold(ALL_ONES, a), Fold(ALL_ONES, b));
    }
    if Register(Fold(ALL_ONES, a)) == Register(Fold(ALL_ONES, b)) {
      RegisterIsInjective(Fold(ALL_ONES, a), Fold(ALL_ONES, b));
    }
  }

  /** And it is missed at every bit position: any buffer has, for any 33
      consecutive bits of it, another with the same digest that differs there only. */
  lemma MissedAtEveryBit(a: seq<bv8>, position: nat) returns (b: seq<bv8>)
    requires position + 33 <= 8 * |a|
    ensures |b| == |a| && b != a && Crc32C(b) == Crc32C(a)
    ensures forall i :: 0 <= i < 8 * |a| && !(position <= i < position + 33) ==>
                          Coefficients(b)[i] == Coefficients(a)[i]
  {
    hide *;
    DivisorLeads();
    var p := Coefficients(a);
    var u := p[position..position + 33];
    var v := Add(u, DIVISOR);
    var q := p[..position] + v + p[position + 33..];
    b := BytesOf(q);
    BytesOfCoefficients(q);
    AddTwice(u, DIVISOR);
    WindowReplaced(p, position, v);
    LongerBurstIsDetected(a, b, p[..position], u, v, p[position + 33..]);
  }

  lemma WindowReplaced(p: Polynomial, position: nat, v: Polynomial)
    requires position + |v| <= |p|
    ensures p == p[..position] + p[position..position + |v|] + p[position + |v|..]
    ensures var q := p[..position] + v + p[position + |v|..];
            && |q| == |p|
            && (forall i :: 0 <= i < |p| && !(position <= i < position + |v|) ==> q[i] == p[i])
            && (forall i :: 0 <= i < |v| ==> q[position + i] == v[i])
  {
  }

  lemma AddTwice(u: Polynomial, d: Polynomial)
    requires |u| == |d|
    ensures Add(u, Add(u, d)) == d
    ensures |u| > 0 && d[0] ==> Add(u, d)[0] != u[0]
  {
  }

  // ------------------------------------------------------------------
  // Errors of an odd number of bits
  // ------------------------------------------------------------------

  /** The digest has an odd number of ones exactly when the buffer has. */
  lemma DigestKeepsParity(data: seq<bv8>)
    ensures Odd(Register(Crc32C(data))) == Odd(Coefficients(data))
  {
    assert Crc32C(data) == Plus(Fold(ALL_ONES, data), ALL_ONES);
    hide *;
    OnesRegister();
    OddOnes(32);
    FoldIsFeed(ALL_ONES, data);
    FeedParity(Register(ALL_ONES), Coefficients(data));
    RegisterPlus(Fold(ALL_ONES, data), ALL_ONES);
    OddAdd(Register(Fold(ALL_ONES, data)), Register(ALL_ONES));
  }

  /** Every error of an odd number of bits is detected, however far apart they are. */
  lemma OddErrorIsDetected(a: seq<bv8>, b: seq<bv8>)
    requires |a| == |b| && Odd(Add(Coefficients(a), Coefficients(b)))
    ensures Crc32C(a) != Crc32C(b)
  {
    hide *;
    DigestKeepsParity(a);
    DigestKeepsParity(b);
    OddAdd(Coefficients(a), Coefficients(b));
  }
}
