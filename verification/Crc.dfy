/** The CRC-32C of the safety layer: a byte-wise loop that agrees with the shift register fed bit by
  bit, is affine over exclusive or, and detects every error burst of at most 32 bits.
  */
module Crc {
  /** The Castagnoli polynomial, lowest degree in the highest bit. */
  const POLYNOMIAL: bv32 := 0x82F6_3B78
  const ALL_ONES: bv32 := 0xFFFF_FFFF

  // ---- Words ---------------------------------------------------------------------------------

  function Plus(a: bv32, b: bv32): bv32 {
    a ^ b
  }

  function Shift(x: bv32): bv32 {
    if x & 1 != 0 then (x >> 1) ^ POLYNOMIAL else x >> 1
  }

  function Bit(b: bool): bv32 {
    if b then 1 else 0
  }

  /** One more bit below the others. */
  function Join(b: bool, x: bv32): bv32 {
    Plus(Bit(b), x << 1)
  }

  predicate TopFree(x: bv32) {
    x & 0x8000_0000 == 0
  }

  function Widen(b: bv8): bv32 {
    b as bv32
  }

  lemma PlusLaws(a: bv32, b: bv32, c: bv32)
    ensures Plus(Plus(a, b), c) == Plus(a, Plus(b, c)) == Plus(Plus(a, c), b)
    ensures Plus(a, b) == Plus(b, a) && Plus(a, 0) == a && Plus(a, a) == 0
    ensures Plus(a, b) == 0 <==> a == b
    ensures Plus(a, c) == Plus(b, c) <==> a == b
  {
    PlusAssociates(a, b, c);
    PlusAssociates(a, c, b);
    PlusCommutes(b, c);
    PlusCommutes(a, b);
    PlusCancels(a, b, c);
  }

  lemma PlusAssociates(a: bv32, b: bv32, c: bv32)
    ensures Plus(Plus(a, b), c) == Plus(a, Plus(b, c))
  {
  }

  lemma PlusCommutes(a: bv32, b: bv32)
    ensures Plus(a, b) == Plus(b, a) && Plus(a, 0) == a && Plus(a, a) == 0
  {
  }

  lemma PlusUndoes(a: bv32, b: bv32)
    ensures Plus(Plus(a, b), b) == a
  {
  }

  lemma PlusCancels(a: bv32, b: bv32, c: bv32)
    ensures Plus(a, b) == 0 <==> a == b
    ensures Plus(a, c) == Plus(b, c) <==> a == b
  {
    hide Plus;
    PlusUndoes(a, b);
    PlusUndoes(a, c);
    PlusUndoes(b, c);
    PlusCommutes(b, b);
    PlusCommutes(0, b);
    PlusCommutes(b, 0);
  }

  lemma PlusPairs(s: bv32, t: bv32, x: bv32, y: bv32)
    ensures Plus(Plus(s, t), Plus(x, y)) == Plus(Plus(s, x), Plus(t, y))
  {
    hide Plus;
    PlusAssociates(s, t, Plus(x, y));
    PlusAssociates(t, x, y);
    PlusCommutes(t, x);
    PlusAssociates(x, t, y);
    PlusAssociates(s, x, Plus(t, y));
  }

  lemma ShiftIs(x: bv32)
    ensures x & 1 != 0 ==> Shift(x) == (x >> 1) ^ 0x82F6_3B78
    ensures x & 1 == 0 ==> Shift(x) == x >> 1
  {
  }

  lemma HalvesOfXor(x: bv32, y: bv32)
    ensures (x ^ y) >> 1 == (x >> 1) ^ (y >> 1)
    ensures (x ^ y) & 1 == 0 <==> (x & 1 == 0 <==> y & 1 == 0)
  {
  }

  lemma XorReorders(a: bv32, b: bv32, p: bv32)
    ensures (a ^ p) ^ (b ^ p) == a ^ b
    ensures (a ^ p) ^ b == (a ^ b) ^ p == a ^ (b ^ p)
  {
  }

  lemma ShiftIsLinear(x: bv32, y: bv32)
    ensures Shift(Plus(x, y)) == Plus(Shift(x), Shift(y))
  {
    hide Shift;
    ShiftIs(x);
    ShiftIs(y);
    ShiftIs(x ^ y);
    HalvesOfXor(x, y);
    XorReorders(x >> 1, y >> 1, 0x82F6_3B78);
  }

  /** Undoing a shift: the polynomial has its highest bit set, which tells whether it was added. */
  function Unshift(z: bv32): bv32 {
    if z & 0x8000_0000 != 0 then ((z ^ POLYNOMIAL) << 1) ^ 1 else z << 1
  }

  lemma ShiftIsUndone(x: bv32)
    ensures Unshift(Shift(x)) == x
  {
  }

  /** No two registers shift to the same one. */
  lemma ShiftIsInjective(x: bv32, y: bv32)
    requires Shift(x) == Shift(y)
    ensures x == y
  {
    hide Shift, Unshift;
    ShiftIsUndone(x);
    ShiftIsUndone(y);
  }

  lemma DoubledIsEven(x: bv32)
    ensures (x << 1) & 1 == 0
    ensures x & 0x8000_0000 == 0 ==> (x << 1) >> 1 == x
  {
  }

  lemma ShiftDropsJoined(x: bv32)
    requires TopFree(x)
    ensures Shift(x << 1) == x
  {
    hide Shift;
    DoubledIsEven(x);
    ShiftIs(x << 1);
  }

  /** Shifting a register that has met a joined word leaves the word without its lowest bit. */
  lemma ShiftOfJoin(s: bv32, b: bool, x: bv32)
    requires TopFree(x)
    ensures Shift(Plus(s, Join(b, x))) == Plus(Shift(Plus(s, Bit(b))), x)
  {
    hide Shift, Plus, Bit, TopFree;
    ShiftDropsJoined(x);
    PlusLaws(s, Bit(b), x << 1);
    ShiftIsLinear(Plus(s, Bit(b)), x << 1);
  }

  lemma JoinIsInjective(a: bool, x: bv32, b: bool, y: bv32)
    requires TopFree(x) && TopFree(y) && Join(a, x) == Join(b, y)
    ensures a == b && x == y
  {
  }

  // ---- The shift register --------------------------------------------------------------------

  function Shifts(n: nat, x: bv32): bv32 {
    if n == 0 then x else Shifts(n - 1, Shift(x))
  }

  /** The register of section 12.1 of RFC 3720, fed the lowest bit of each byte first: a bit meets the
    low end of the register, which then moves on by one place. */
  function Run(s: bv32, bits: seq<bool>): bv32
    decreases |bits|
  {
    if bits == [] then s else Run(Shift(Plus(s, Bit(bits[0]))), bits[1..])
  }

  function Mask(k: nat): (m: bv8)
    ensures m & (m - 1) == 0
  {
    match k
    case 0 => 0x01
    case 1 => 0x02
    case 2 => 0x04
    case 3 => 0x08
    case 4 => 0x10
    case 5 => 0x20
    case 6 => 0x40
    case 7 => 0x80
    case _ => 0
  }

  predicate Has(b: bv8, k: nat) {
    b & Mask(k) != 0
  }

  function BitsOf(b: bv8): (bits: seq<bool>)
    ensures |bits| == 8
  {
    seq(8, k requires 0 <= k < 8 => Has(b, k))
  }

  function Bits(data: seq<bv8>): (bits: seq<bool>)
    ensures |bits| == 8 * |data|
    decreases |data|
  {
    if data == [] then [] else Bits(data[..|data| - 1]) + BitsOf(data[|data| - 1])
  }

  /** The checksum by its definition on bits. */
  function Crc(data: seq<bv8>): bv32 {
    Plus(Run(ALL_ONES, Bits(data)), ALL_ONES)
  }

  lemma {:induction false} RunAppend(s: bv32, a: seq<bool>, b: seq<bool>)
    ensures Run(s, a + b) == Run(Run(s, a), b)
    decreases |a|
  {
    hide Shift, Bit, Plus;
    if a == [] {
      assert a + b == b;
    } else {
      assert (a + b)[1..] == a[1..] + b && (a + b)[0] == a[0];
      RunAppend(Shift(Plus(s, Bit(a[0]))), a[1..], b);
    }
  }

  lemma {:induction false} ShiftsAreInjective(n: nat, x: bv32, y: bv32)
    requires Shifts(n, x) == Shifts(n, y)
    ensures x == y
  {
    hide Shift;
    if n > 0 {
      ShiftsAreInjective(n - 1, Shift(x), Shift(y));
      ShiftIsInjective(x, y);
    }
  }

  /** Registers that differ stay different, whatever the same bits are fed to them. */
  lemma {:induction false} RunIsInjective(s: bv32, t: bv32, bits: seq<bool>)
    requires Run(s, bits) == Run(t, bits)
    ensures s == t
    decreases |bits|
  {
    hide Shift, Bit, Plus;
    if bits != [] {
      var b := Bit(bits[0]);
      RunIsInjective(Shift(Plus(s, b)), Shift(Plus(t, b)), bits[1..]);
      ShiftIsInjective(Plus(s, b), Plus(t, b));
      PlusLaws(s, t, b);
    }
  }

  // ---- Up to 32 bits at once -------------------------------------------------------------------

  /** The bits as one word, the first bit lowest. */
  function Packed(bits: seq<bool>): bv32
    decreases |bits|
  {
    if bits == [] then 0 else Join(bits[0], Packed(bits[1..]))
  }

  /** The word whose `n` lowest bits are set. */
  function Low(n: nat): bv32 {
    if n == 0 then 0 else Join(true, Low(n - 1))
  }

  predicate Within(x: bv32, mask: bv32) {
    x & mask == x
  }

  lemma LowOf31()
    ensures TopFree(Low(31))
  {
    assert Low(1) == 0x1; assert Low(2) == 0x3; assert Low(3) == 0x7; assert Low(4) == 0xf;
    assert Low(5) == 0x1f; assert Low(6) == 0x3f; assert Low(7) == 0x7f; assert Low(8) == 0xff;
    assert Low(9) == 0x1ff; assert Low(10) == 0x3ff; assert Low(11) == 0x7ff; assert Low(12) == 0xfff;
    assert Low(13) == 0x1fff; assert Low(14) == 0x3fff; assert Low(15) == 0x7fff; assert Low(16) == 0xffff;
    assert Low(17) == 0x1ffff; assert Low(18) == 0x3ffff; assert Low(19) == 0x7ffff; assert Low(20) == 0xfffff;
    assert Low(21) == 0x1fffff; assert Low(22) == 0x3fffff; assert Low(23) == 0x7fffff; assert Low(24) == 0xffffff;
    assert Low(25) == 0x1ffffff; assert Low(26) == 0x3ffffff; assert Low(27) == 0x7ffffff; assert Low(28) == 0xfffffff;
    assert Low(29) == 0x1fffffff; assert Low(30) == 0x3fffffff; assert Low(31) == 0x7fffffff;
  }

  lemma WithinJoin(b: bool, x: bv32, mask: bv32)
    requires Within(x, mask)
    ensures Within(Join(b, x), Join(true, mask))
  {
    Masked(x, if b then 1 else 0, mask);
  }

  lemma Masked(x: bv32, b: bv32, mask: bv32)
    requires x & mask == x && b <= 1
    ensures (b ^ (x << 1)) & (1 ^ (mask << 1)) == b ^ (x << 1)
  {
  }

  lemma WithinTransitive(x: bv32, y: bv32, z: bv32)
    requires Within(x, y) && Within(y, z)
    ensures Within(x, z) && (TopFree(z) ==> TopFree(x))
  {
  }

  lemma WithinItself(x: bv32)
    ensures Within(x, x) && Within(0, x)
  {
  }

  lemma {:induction false} LowGrows(n: nat)
    ensures Within(Low(n), Low(n + 1))
  {
    hide Join, Within;
    if n > 0 {
      LowGrows(n - 1);
      WithinJoin(true, Low(n - 1), Low(n));
    } else {
      WithinItself(Low(1));
    }
  }

  lemma {:induction false} LowNests(n: nat, m: nat)
    requires n <= m
    ensures Within(Low(n), Low(m))
  {
    hide Low, Within;
    if n < m {
      LowNests(n, m - 1);
      LowGrows(m - 1);
      WithinTransitive(Low(n), Low(m - 1), Low(m));
    } else {
      WithinItself(Low(n));
    }
  }

  lemma {:induction false} PackedFits(bits: seq<bool>)
    ensures Within(Packed(bits), Low(|bits|))
    decreases |bits|
  {
    hide Join, Within;
    if bits == [] {
      WithinItself(0);
    } else {
      PackedFits(bits[1..]);
      WithinJoin(bits[0], Packed(bits[1..]), Low(|bits| - 1));
    }
  }

  /** Fewer than 32 bits leave the top of the word free. */
  lemma PackedTopIsFree(bits: seq<bool>)
    requires |bits| < 32
    ensures TopFree(Packed(bits))
  {
    hide Packed, Low, Within, TopFree;
    PackedFits(bits);
    LowNests(|bits|, 31);
    LowOf31();
    WithinTransitive(Packed(bits), Low(|bits|), Low(31));
    WithinTransitive(Packed(bits), Low(31), Low(31)) by {
      WithinItself(Low(31));
    }
  }

  /** Feeding up to 32 bits one by one is meeting them all at once and shifting. */
  lemma {:induction false} RunIsShifts(s: bv32, bits: seq<bool>)
    requires |bits| <= 32
    ensures Run(s, bits) == Shifts(|bits|, Plus(s, Packed(bits)))
    decreases |bits|
  {
    hide Shift, Bit, Plus, Join, TopFree;
    if bits == [] {
      PlusLaws(s, 0, 0);
    } else {
      PackedTopIsFree(bits[1..]);
      RunIsShifts(Shift(Plus(s, Bit(bits[0]))), bits[1..]);
      ShiftOfJoin(s, bits[0], Packed(bits[1..]));
    }
  }

  lemma {:induction false} PackedIsInjective(a: seq<bool>, b: seq<bool>)
    requires |a| == |b| <= 32 && Packed(a) == Packed(b)
    ensures a == b
    decreases |a|
  {
    hide Join, TopFree;
    if a != [] {
      PackedTopIsFree(a[1..]);
      PackedTopIsFree(b[1..]);
      JoinIsInjective(a[0], Packed(a[1..]), b[0], Packed(b[1..]));
      PackedIsInjective(a[1..], b[1..]);
      assert a == [a[0]] + a[1..] && b == [b[0]] + b[1..];
    }
  }

  // ---- The byte-wise loop ----------------------------------------------------------------------

  lemma {:induction false} PackedFrom(bits: seq<bool>, k: nat)
    requires k < |bits|
    ensures Packed(bits[k..]) == Join(bits[k], Packed(bits[k + 1..]))
  {
    hide Join;
    assert bits[k..][1..] == bits[k + 1..];
  }

  function Eight(a: bool, b: bool, c: bool, d: bool, e: bool, f: bool, g: bool, h: bool): bv32 {
    Join(a, Join(b, Join(c, Join(d, Join(e, Join(f, Join(g, Join(h, 0))))))))
  }

  lemma PackedEight(bits: seq<bool>)
    requires |bits| == 8
    ensures Packed(bits) == Eight(bits[0], bits[1], bits[2], bits[3], bits[4], bits[5], bits[6], bits[7])
  {
    assert Packed(bits[8..]) == 0;
    assert bits[0..] == bits;
    hide Join, Packed;
    PackedFrom(bits, 0);
    PackedFrom(bits, 1);
    PackedFrom(bits, 2);
    PackedFrom(bits, 3);
    PackedFrom(bits, 4);
    PackedFrom(bits, 5);
    PackedFrom(bits, 6);
    PackedFrom(bits, 7);
  }

  lemma WidenedByte(b: bv8)
    ensures Widen(b) == Eight(Has(b, 0), Has(b, 1), Has(b, 2), Has(b, 3), Has(b, 4), Has(b, 5), Has(b, 6), Has(b, 7))
  {
  }

  lemma PackedByte(b: bv8)
    ensures Packed(BitsOf(b)) == Widen(b)
  {
    hide Packed, Has, Eight, Widen;
    PackedEight(BitsOf(b));
    WidenedByte(b);
  }

  /** Eight bits of a byte, one by one: eight shifts after the byte met the register. */
  lemma ByteStep(s: bv32, b: bv8)
    ensures Run(s, BitsOf(b)) == Shifts(8, Plus(s, Widen(b)))
  {
    hide Packed, BitsOf, Run, Shifts, Plus, Widen;
    RunIsShifts(s, BitsOf(b));
    PackedByte(b);
  }

  method FeedByte(register: bv32, byte: bv8) returns (crc: bv32)
    ensures crc == Run(register, BitsOf(byte))
  {
    hide Run, Shift, BitsOf;
    ByteStep(register, byte);
    crc := register ^ (byte as bv32);
    ghost var start := crc;
    for i := 0 to 8
      invariant Shifts(8, start) == Shifts(8 - i, crc)
    {
      ShiftIs(crc);
      if crc & 1 != 0 {
        crc := (crc >> 1) ^ 0x82F6_3B78;
      } else {
        crc := crc >> 1;
      }
    }
  }

  method CalculateCrc(data: seq<bv8>) returns (r: bv32)
    ensures r == Crc(data)
  {
    hide Shift, BitsOf, Bit;
    var crc: bv32 := 0xFFFF_FFFF;
    for n := 0 to |data|
      invariant crc == Run(ALL_ONES, Bits(data[..n]))
    {
      assert data[..n + 1][..n] == data[..n];
      RunAppend(ALL_ONES, Bits(data[..n]), BitsOf(data[n]));
      crc := FeedByte(crc, data[n]);
    }
    assert data[..|data|] == data;
    r := crc ^ 0xFFFF_FFFF;
  }

  // ---- Affine ------------------------------------------------------------------------------------

  function XorBits(a: seq<bool>, b: seq<bool>): (c: seq<bool>)
    requires |a| == |b|
    ensures |c| == |a|
  {
    seq(|a|, i requires 0 <= i < |a| => a[i] != b[i])
  }

  function XorByte(a: bv8, b: bv8): bv8 {
    a ^ b
  }

  function XorBytes(a: seq<bv8>, b: seq<bv8>): (c: seq<bv8>)
    requires |a| == |b|
    ensures |c| == |a|
  {
    seq(|a|, i requires 0 <= i < |a| => XorByte(a[i], b[i]))
  }

  lemma XorHas(a: bv8, b: bv8, k: nat)
    ensures Has(XorByte(a, b), k) == (Has(a, k) != Has(b, k))
  {
    var m := Mask(k);
    hide Mask;
    XorMask(a, b, m);
  }

  lemma XorMask(a: bv8, b: bv8, m: bv8)
    requires m & (m - 1) == 0
    ensures ((a ^ b) & m != 0) == ((a & m != 0) != (b & m != 0))
  {
  }

  lemma XorOfBytes(a: bv8, b: bv8)
    ensures BitsOf(XorByte(a, b)) == XorBits(BitsOf(a), BitsOf(b))
  {
    hide Has, XorByte;
    forall k: nat | k < 8
      ensures BitsOf(XorByte(a, b))[k] == (BitsOf(a)[k] != BitsOf(b)[k])
    {
      XorHas(a, b, k);
    }
  }

  lemma {:induction false} BitsOfXor(a: seq<bv8>, b: seq<bv8>)
    requires |a| == |b|
    ensures Bits(XorBytes(a, b)) == XorBits(Bits(a), Bits(b))
    decreases |a|
  {
    hide BitsOf, XorByte;
    if a != [] {
      var n := |a| - 1;
      BitsOfXor(a[..n], b[..n]);
      XorOfBytes(a[n], b[n]);
      assert XorBytes(a, b)[..n] == XorBytes(a[..n], b[..n]);
    }
  }

  lemma BitOfXor(a: bool, b: bool)
    ensures Bit(a != b) == Plus(Bit(a), Bit(b))
  {
  }

  /** The register is linear in where it starts and what it is fed. */
  lemma {:induction false} RunIsLinear(s: bv32, t: bv32, a: seq<bool>, b: seq<bool>)
    requires |a| == |b|
    ensures Run(Plus(s, t), XorBits(a, b)) == Plus(Run(s, a), Run(t, b))
    decreases |a|
  {
    hide Shift, Bit, Plus;
    if a != [] {
      var x, y := Bit(a[0]), Bit(b[0]);
      BitOfXor(a[0], b[0]);
      PlusPairs(s, t, x, y);
      ShiftIsLinear(Plus(s, x), Plus(t, y));
      RunIsLinear(Shift(Plus(s, x)), Shift(Plus(t, y)), a[1..], b[1..]);
      assert XorBits(a, b)[1..] == XorBits(a[1..], b[1..]);
    }
  }

  /** Two messages of one length have the same checksum exactly when their difference, fed to an empty
    register, leaves it empty. */
  lemma CollisionIffZeroSyndrome(x: seq<bv8>, y: seq<bv8>)
    requires |x| == |y|
    ensures Crc(x) == Crc(y) <==> Run(0, Bits(XorBytes(x, y))) == 0
  {
    hide Run, Bits, Plus, XorBytes, XorBits;
    BitsOfXor(x, y);
    RunIsLinear(ALL_ONES, ALL_ONES, Bits(x), Bits(y));
    PlusLaws(ALL_ONES, ALL_ONES, 0);
    PlusLaws(Run(ALL_ONES, Bits(x)), Run(ALL_ONES, Bits(y)), ALL_ONES);
  }

  /** The checksum is affine: it distributes over the exclusive or of three messages. */
  lemma CrcIsAffine(x: seq<bv8>, y: seq<bv8>, z: seq<bv8>)
    requires |x| == |y| == |z|
    ensures Crc(XorBytes(XorBytes(x, y), z)) == Plus(Plus(Crc(x), Crc(y)), Crc(z))
  {
    hide Run, Bits, Plus, XorBits;
    var i: bv32 := ALL_ONES;
    BitsOfXor(x, y);
    BitsOfXor(XorBytes(x, y), z);
    RunIsLinear(i, i, Bits(x), Bits(y));
    RunIsLinear(Plus(i, i), i, Bits(XorBytes(x, y)), Bits(z));
    ThreeOnes(i, Run(i, Bits(x)), Run(i, Bits(y)), Run(i, Bits(z)));
  }

  lemma ThreeOnes(i: bv32, a: bv32, b: bv32, c: bv32)
    ensures Plus(Plus(i, i), i) == i
    ensures Plus(Plus(Plus(a, b), c), i) == Plus(Plus(Plus(a, i), Plus(b, i)), Plus(c, i))
  {
  }

  // ---- Bursts --------------------------------------------------------------------------------------

  /** The messages differ, and only within `width` consecutive bits, lowest bit of each byte first. */
  ghost predicate BurstWithin(x: seq<bv8>, y: seq<bv8>, start: nat, width: nat) {
    && |x| == |y| && x != y
    && forall j | 0 <= j < 8 * |x| && !(start <= j < start + width) :: Bits(x)[j] == Bits(y)[j]
  }

  lemma {:induction false} BitsAreInjective(x: seq<bv8>, y: seq<bv8>)
    requires |x| == |y| && Bits(x) == Bits(y)
    ensures x == y
    decreases |x|
  {
    hide BitsOf;
    if x != [] {
      var n := |x| - 1;
      assert Bits(x)[..8 * n] == Bits(x[..n]) && Bits(x)[8 * n..] == BitsOf(x[n]);
      assert Bits(y)[..8 * n] == Bits(y[..n]) && Bits(y)[8 * n..] == BitsOf(y[n]);
      BitsAreInjective(x[..n], y[..n]);
      BitsOfIsInjective(x[n], y[n]);
      assert x == x[..n] + [x[n]] && y == y[..n] + [y[n]];
    }
  }

  lemma BitsOfIsInjective(a: bv8, b: bv8)
    requires BitsOf(a) == BitsOf(b)
    ensures a == b
  {
    hide Packed, BitsOf, Widen;
    PackedByte(a);
    PackedByte(b);
    WidenIsInjective(a, b);
  }

  lemma WidenIsInjective(a: bv8, b: bv8)
    ensures Widen(a) == Widen(b) <==> a == b
  {
  }

  /** Every burst of at most 32 bits is detected. */
  lemma BurstsAreDetected(x: seq<bv8>, y: seq<bv8>, start: nat)
    requires BurstWithin(x, y, start, 32)
    ensures Crc(x) != Crc(y)
  {
    hide Run, Bits, Plus;
    var a, b := Bits(x), Bits(y);
    var n := |a|;
    var from := if start <= n then start else n;
    var to := if start + 32 <= n then start + 32 else n;
    assert a[..from] == b[..from] && a[to..] == b[to..];
    assert a == a[..from] + (a[from..to] + a[to..]) && b == b[..from] + (b[from..to] + b[to..]);
    if Bits(x) == Bits(y) {
      BitsAreInjective(x, y);
    }
    WindowsTell(ALL_ONES, a[..from], a[from..to], b[from..to], a[to..]);
    PlusLaws(Run(ALL_ONES, a), Run(ALL_ONES, b), ALL_ONES);
  }

  lemma WindowsTell(s: bv32, before: seq<bool>, v: seq<bool>, w: seq<bool>, after: seq<bool>)
    requires |v| == |w| <= 32
    ensures Run(s, before + (v + after)) == Run(s, before + (w + after)) ==> v == w
  {
    hide Run, Shifts, Packed, Plus;
    var t := Run(s, before);
    RunAppend(s, before, v + after);
    RunAppend(s, before, w + after);
    RunAppend(t, v, after);
    RunAppend(t, w, after);
    if Run(s, before + (v + after)) == Run(s, before + (w + after)) {
      RunIsInjective(Run(t, v), Run(t, w), after);
      RunIsShifts(t, v);
      RunIsShifts(t, w);
      ShiftsAreInjective(|v|, Plus(t, Packed(v)), Plus(t, Packed(w)));
      PlusLaws(t, Packed(v), 0);
      PlusLaws(t, Packed(w), 0);
      PlusLaws(Packed(v), Packed(w), t);
      PackedIsInjective(v, w);
    }
  }

  // ---- A burst too long ----------------------------------------------------------------------------

  lemma EightShifts(x: bv32)
    ensures Shifts(8, x) == Shift(Shift(Shift(Shift(Shift(Shift(Shift(Shift(x))))))))
  {
    hide Shift;
    var y := Shift(Shift(Shift(Shift(x))));
    FourShifts(x, 4);
    FourShifts(y, 0);
  }

  lemma FourShifts(x: bv32, n: nat)
    ensures Shifts(n + 4, x) == Shifts(n, Shift(Shift(Shift(Shift(x)))))
    ensures Shifts(0, x) == x
  {
    hide Shift;
    assert Shifts(n + 4, x) == Shifts(n + 3, Shift(x));
    assert Shifts(n + 3, Shift(x)) == Shifts(n + 2, Shift(Shift(x)));
    assert Shifts(n + 2, Shift(Shift(x))) == Shifts(n + 1, Shift(Shift(Shift(x))));
  }

  lemma {:induction false} ShiftsOfZero(n: nat)
    ensures Shifts(n, 0) == 0
  {
    if n > 0 {
      ShiftsOfZero(n - 1);
    }
  }

  lemma PolynomialByte0()
    ensures Shifts(8, 0xF1) == 0x105EC76
  {
    assert Shift(0xF1) == 0x82F63B00; assert Shift(0x82F63B00) == 0x417B1D80;
    assert Shift(0x417B1D80) == 0x20BD8EC0; assert Shift(0x20BD8EC0) == 0x105EC760;
    assert Shift(0x105EC760) == 0x82F63B0; assert Shift(0x82F63B0) == 0x417B1D8;
    assert Shift(0x417B1D8) == 0x20BD8EC; assert Shift(0x20BD8EC) == 0x105EC76;
    EightShifts(0xF1);
  }

  lemma PolynomialByte1()
    ensures Shifts(8, 0x105EC00) == 0x105EC
  {
    assert Shift(0x105EC00) == 0x82F600; assert Shift(0x82F600) == 0x417B00;
    assert Shift(0x417B00) == 0x20BD80; assert Shift(0x20BD80) == 0x105EC0;
    assert Shift(0x105EC0) == 0x82F60; assert Shift(0x82F60) == 0x417B0;
    assert Shift(0x417B0) == 0x20BD8; assert Shift(0x20BD8) == 0x105EC;
    EightShifts(0x105EC00);
  }

  lemma PolynomialByte2()
    ensures Shifts(8, 0x10500) == 0x105
  {
    assert Shift(0x10500) == 0x8280; assert Shift(0x8280) == 0x4140;
    assert Shift(0x4140) == 0x20A0; assert Shift(0x20A0) == 0x1050;
    assert Shift(0x1050) == 0x828; assert Shift(0x828) == 0x414;
    assert Shift(0x414) == 0x20A; assert Shift(0x20A) == 0x105;
    EightShifts(0x10500);
  }

  lemma PolynomialByte3()
    ensures Shifts(8, 0x100) == 0x1
  {
    assert Shift(0x100) == 0x80; assert Shift(0x80) == 0x40; assert Shift(0x40) == 0x20; assert Shift(0x20) == 0x10;
    assert Shift(0x10) == 0x8; assert Shift(0x8) == 0x4; assert Shift(0x4) == 0x2; assert Shift(0x2) == 0x1;
    EightShifts(0x100);
  }

  lemma FeedLast(s: bv32, data: seq<bv8>, b: bv8)
    ensures Run(s, Bits(data + [b])) == Shifts(8, Plus(Run(s, Bits(data)), Widen(b)))
  {
    hide Run, Shifts, Plus, Widen, BitsOf;
    assert (data + [b])[..|data|] == data;
    RunAppend(s, Bits(data), BitsOf(b));
    ByteStep(Run(s, Bits(data)), b);
  }

  const POLYNOMIAL_BYTES: seq<bv8> := [0xF1, 0x76, 0xEC, 0x05, 0x01]

  lemma PolynomialLeavesNothing()
    ensures Run(0, Bits(POLYNOMIAL_BYTES)) == 0
  {
    hide Run, Shifts, Bits, Shift;
    assert Run(0, Bits([])) == 0 by {
      RunNothing(0);
    }
    var a: seq<bv8>, b: seq<bv8>, c: seq<bv8>, d: seq<bv8> := [0xF1], [0xF1, 0x76], [0xF1, 0x76, 0xEC], [0xF1, 0x76, 0xEC, 0x05];
    assert a == [] + [0xF1] && b == a + [0x76] && c == b + [0xEC] && d == c + [0x05] && POLYNOMIAL_BYTES == d + [0x01];
    FeedLast(0, [], 0xF1);
    FeedLast(0, a, 0x76);
    FeedLast(0, b, 0xEC);
    FeedLast(0, c, 0x05);
    FeedLast(0, d, 0x01);
    PolynomialByte0();
    PolynomialByte1();
    PolynomialByte2();
    PolynomialByte3();
    ShiftsOfZero(8);
  }

  lemma RunNothing(s: bv32)
    ensures Run(s, Bits([])) == s
  {
  }

  /** The bound is tight: one bit more, and the polynomial itself goes unnoticed. */
  lemma LongerBurstsMayPass()
    ensures BurstWithin([0, 0, 0, 0, 0], POLYNOMIAL_BYTES, 0, 33) && Crc([0, 0, 0, 0, 0]) == Crc(POLYNOMIAL_BYTES)
  {
    hide Run, Bits, Plus;
    var zeros: seq<bv8> := [0, 0, 0, 0, 0];
    assert XorBytes(zeros, POLYNOMIAL_BYTES) == POLYNOMIAL_BYTES;
    PolynomialLeavesNothing();
    CollisionIffZeroSyndrome(zeros, POLYNOMIAL_BYTES);
    assert zeros[0] != POLYNOMIAL_BYTES[0];
    forall j | 33 <= j < 40
      ensures Bits(zeros)[j] == Bits(POLYNOMIAL_BYTES)[j]
    {
      LastByteBits(zeros, j - 32);
      LastByteBits(POLYNOMIAL_BYTES, j - 32);
      HighBitsOfOne(j - 32);
    }
  }

  lemma LastByteBits(data: seq<bv8>, k: nat)
    requires |data| == 5 && k < 8
    ensures Bits(data)[32 + k] == Has(data[4], k)
  {
    hide Has;
  }

  lemma HighBitsOfOne(k: nat)
    requires 0 < k < 8
    ensures !Has(0, k) && !Has(1, k)
  {
  }

  // ---- The checksum sent along ---------------------------------------------------------------------

  /** Room for one more byte below. */
  function Above(x: bv32): bv32 {
    x << 8
  }

  function Up(x: bv32): bv32 {
    x << 1
  }

  function Ups(n: nat, x: bv32): bv32 {
    if n == 0 then x else Up(Ups(n - 1, x))
  }

  /** Bytes as a word, the first byte lowest. */
  function Little(bytes: seq<bv8>): bv32
    decreases |bytes|
  {
    if bytes == [] then 0 else Plus(Widen(bytes[0]), Above(Little(bytes[1..])))
  }

  predicate LowThree(x: bv32) {
    x & 0xFF00_0000 == 0
  }

  lemma ThreeAreLow(a: bv8, b: bv8, c: bv8)
    ensures
      var z := Widen(c);
      var y := Plus(Widen(b), Above(z));
      var x := Plus(Widen(a), Above(y));
      LowThree(x) && LowThree(y) && LowThree(z)
  {
  }

  lemma UpEightTimes(x: bv32)
    ensures Up(Up(Up(Up(Up(Up(Up(Up(x)))))))) == Above(x)
  {
  }

  lemma StaysFree(x: bv32)
    requires LowThree(x)
    ensures TopFree(x) && TopFree(Up(x)) && TopFree(Up(Up(x))) && TopFree(Up(Up(Up(x))))
    ensures TopFree(Up(Up(Up(Up(x))))) && TopFree(Up(Up(Up(Up(Up(x)))))) && TopFree(Up(Up(Up(Up(Up(Up(x)))))))
    ensures TopFree(Up(Up(Up(Up(Up(Up(Up(x))))))))
  {
  }

  lemma EightUps(x: bv32)
    requires LowThree(x)
    ensures Ups(8, x) == Above(x) && forall i: nat | i < 8 :: TopFree(Ups(i, x))
  {
    UpEightTimes(x);
    StaysFree(x);
    hide Up, TopFree, LowThree, Above;
    assert Ups(0, x) == x && Ups(1, x) == Up(x);
    assert Ups(2, x) == Up(Up(x));
    assert Ups(3, x) == Up(Up(Up(x)));
    assert Ups(4, x) == Up(Up(Up(Up(x))));
    assert Ups(5, x) == Up(Up(Up(Up(Up(x)))));
    assert Ups(6, x) == Up(Up(Up(Up(Up(Up(x))))));
    assert Ups(7, x) == Up(Up(Up(Up(Up(Up(Up(x)))))));
  }

  lemma OneThrough(x: bv32, y: bv32)
    requires TopFree(y)
    ensures Shift(Plus(x, Up(y))) == Plus(Shift(x), y)
  {
    hide Shift, Plus, TopFree;
    ShiftIsLinear(x, Up(y));
    ShiftDropsJoined(y);
  }

  lemma {:induction false} Through(n: nat, x: bv32, y: bv32)
    requires forall i: nat | i < n :: TopFree(Ups(i, y))
    ensures Shifts(n, Plus(x, Ups(n, y))) == Plus(Shifts(n, x), y)
  {
    hide Shift, Plus, TopFree, Up;
    if n > 0 {
      OneThrough(x, Ups(n - 1, y));
      Through(n - 1, Shift(x), y);
    }
  }

  /** Eight shifts bring the bytes above the lowest down by one. */
  lemma EightThrough(x: bv32, y: bv32)
    requires LowThree(y)
    ensures Shifts(8, Plus(x, Above(y))) == Plus(Shifts(8, x), y)
  {
    hide Shifts, Plus, TopFree, LowThree, Above, Ups;
    EightUps(y);
    Through(8, x, y);
  }

  lemma OnesByte0()
    ensures Shifts(8, 0xFFFFFFFF) == 0xAD82ACAE
  {
    assert Shift(0xFFFFFFFF) == 0xFD09C487; assert Shift(0xFD09C487) == 0xFC72D93B;
    assert Shift(0xFC72D93B) == 0xFCCF57E5; assert Shift(0xFCCF57E5) == 0xFC91908A;
    assert Shift(0xFC91908A) == 0x7E48C845; assert Shift(0x7E48C845) == 0xBDD25F5A;
    assert Shift(0xBDD25F5A) == 0x5EE92FAD; assert Shift(0x5EE92FAD) == 0xAD82ACAE;
    EightShifts(0xFFFFFFFF);
  }

  lemma OnesByte1()
    ensures Shifts(8, 0xAD82ACAE) == 0xE9E882D
  {
    assert Shift(0xAD82ACAE) == 0x56C15657; assert Shift(0x56C15657) == 0xA9969053;
    assert Shift(0xA9969053) == 0xD63D7351; assert Shift(0xD63D7351) == 0xE9E882D0;
    assert Shift(0xE9E882D0) == 0x74F44168; assert Shift(0x74F44168) == 0x3A7A20B4;
    assert Shift(0x3A7A20B4) == 0x1D3D105A; assert Shift(0x1D3D105A) == 0xE9E882D;
    EightShifts(0xAD82ACAE);
  }

  lemma OnesByte2()
    ensures Shifts(8, 0xE9E882D) == 0x9F9B5C85
  {
    assert Shift(0xE9E882D) == 0x85B97F6E; assert Shift(0x85B97F6E) == 0x42DCBFB7;
    assert Shift(0x42DCBFB7) == 0xA39864A3; assert Shift(0xA39864A3) == 0xD33A0929;
    assert Shift(0xD33A0929) == 0xEB6B3FEC; assert Shift(0xEB6B3FEC) == 0x75B59FF6;
    assert Shift(0x75B59FF6) == 0x3ADACFFB; assert Shift(0x3ADACFFB) == 0x9F9B5C85;
    EightShifts(0xE9E882D);
  }

  lemma OnesByte3()
    ensures Shifts(8, 0x9F9B5C85) == 0xB798B438
  {
    assert Shift(0x9F9B5C85) == 0xCD3B953A; assert Shift(0xCD3B953A) == 0x669DCA9D;
    assert Shift(0x669DCA9D) == 0xB1B8DE36; assert Shift(0xB1B8DE36) == 0x58DC6F1B;
    assert Shift(0x58DC6F1B) == 0xAE980CF5; assert Shift(0xAE980CF5) == 0xD5BA3D02;
    assert Shift(0xD5BA3D02) == 0x6ADD1E81; assert Shift(0x6ADD1E81) == 0xB798B438;
    EightShifts(0x9F9B5C85);
  }

  /** One byte of the checksum meets the register: what is left of the checksum moves down. */
  lemma MeetsItself(x: bv32, b: bv8, rest: bv32)
    requires LowThree(rest)
    ensures Shifts(8, Plus(Plus(x, Plus(Widen(b), Above(rest))), Widen(b))) == Plus(Shifts(8, x), rest)
  {
    hide Shifts, Plus, Widen, LowThree, Above;
    var w, r := Widen(b), Above(rest);
    PlusCommutes(w, r);
    PlusAssociates(x, r, w);
    PlusUndoes(Plus(x, r), w);
    EightThrough(x, rest);
  }

  lemma FeedChecksum(s: bv32, data: seq<bv8>, a: bv8, b: bv8, c: bv8, d: bv8)
    requires Run(s, Bits(data)) == Plus(ALL_ONES, Little([a, b, c, d]))
    ensures Run(s, Bits(data + [a, b, c, d])) == 0xB798_B438
  {
    var z := Widen(d);
    var y := Plus(Widen(c), Above(z));
    var x := Plus(Widen(b), Above(y));
    FourLittle(a, b, c, d);
    ThreeAreLow(b, c, d);
    hide Run, Shifts, Bits, Plus, Widen, LowThree, Little, Above;
    assert data + [a] + [b] + [c] + [d] == data + [a, b, c, d];
    FeedLast(s, data, a);
    FeedLast(s, data + [a], b);
    FeedLast(s, data + [a] + [b], c);
    FeedLast(s, data + [a] + [b] + [c], d);
    MeetsItself(0xFFFF_FFFF, a, x);
    OnesByte0();
    MeetsItself(0xAD82_ACAE, b, y);
    OnesByte1();
    MeetsItself(0xE9E_882D, c, z);
    OnesByte2();
    PlusUndoes(0x9F9B_5C85, z);
    OnesByte3();
  }

  lemma FourLittle(a: bv8, b: bv8, c: bv8, d: bv8)
    ensures Little([a, b, c, d]) == Plus(Widen(a), Above(Plus(Widen(b), Above(Plus(Widen(c), Above(Widen(d)))))))
  {
    LastLittle(d);
    LittleFirst(a, [b, c, d]);
    LittleFirst(b, [c, d]);
    LittleFirst(c, [d]);
    hide Plus, Widen, Above, Little;
    assert [a] + [b, c, d] == [a, b, c, d] && [b] + [c, d] == [b, c, d] && [c] + [d] == [c, d];
  }

  lemma LittleFirst(a: bv8, rest: seq<bv8>)
    ensures Little([a] + rest) == Plus(Widen(a), Above(Little(rest)))
  {
    hide Plus, Widen, Above;
    assert ([a] + rest)[1..] == rest;
  }

  lemma LastLittle(d: bv8)
    ensures Little([d]) == Widen(d)
  {
    assert [d][1..] == [];
  }

  /** A message followed by its own checksum, lowest byte first, always has this checksum; the empty
    message has zero. */
  lemma ChecksumOfChecked(data: seq<bv8>, a: bv8, b: bv8, c: bv8, d: bv8)
    requires Little([a, b, c, d]) == Crc(data)
    ensures Crc(data + [a, b, c, d]) == 0x4867_4BC7
    ensures Crc([]) == 0
  {
    var s := Run(ALL_ONES, Bits(data));
    RunNothing(ALL_ONES);
    assert Plus(0xB798_B438, ALL_ONES) == 0x4867_4BC7 && Plus(ALL_ONES, ALL_ONES) == 0;
    hide Run, Bits, Little, Plus;
    PlusUndoes(s, ALL_ONES);
    PlusCommutes(Plus(s, ALL_ONES), ALL_ONES);
    FeedChecksum(ALL_ONES, data, a, b, c, d);
  }
}
