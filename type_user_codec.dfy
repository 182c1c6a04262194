/**
  The packed Type/User ID of a TUIO 2.0 token (`/tuio2/tok`).

  A token carries two C++ `short` fields, `type_id` and `user_id`, that travel
  on the wire as one 32-bit `int`, the `type_user_id`. The header fixes only
  these widths; the layout is a modelling choice:

      bits 31..16  type_id  (two's complement, 16 bits)
      bits 15..0   user_id  (two's complement, 16 bits)

  that is, `type_user_id = (type_id << 16) | (user_id & 0xFFFF)`, and back
  `type_id = (short)(type_user_id >> 16)`, `user_id = (short)(type_user_id & 0xFFFF)`.

  The C++ integer promotion of a `short` operand to `int` keeps its value, so a
  negative `user_id` arrives with its upper sixteen bits set; the explicit mask
  clears them before the halves are combined (`UnmaskedUserClobbersType` shows
  what happens without it). Every C++ operator used is written out below on
  mathematical integers: `|` and `&` bit by bit on the 32-bit two's complement
  patterns, the shifts and the conversion to `short` with their wrap-around
  explicit. The model assumes two's complement narrowing and an arithmetic
  right shift, as C++20 prescribes.
*/
module TypeUserCodec {

  /** A C++ `short`: a 16-bit two's complement integer. */
  newtype Short = x: int | -0x8000 <= x < 0x8000

  /** A C++ `int`: a 32-bit two's complement integer. */
  newtype Int32 = x: int | -0x8000_0000 <= x < 0x8000_0000

  /** The decoded pair. */
  datatype TypeUser = TypeUser(typeId: Short, userId: Short)

  /** 2^16: the weight of the type half, and one more than the largest 16-bit pattern. */
  const Half: int := 0x1_0000

  /** 2^32: the modulus of 32-bit wrap-around. */
  const Word: int := 0x1_0000_0000

  /** The mask `0xFFFF` that selects the user half. */
  const LowMask: Int32 := 0xFFFF

  // ---------------------------------------------------------------------
  // Bitwise operations on unsigned bit patterns

  function Pow2(k: nat): (p: nat)
    ensures p >= 1
  {
    if k == 0 then 1 else 2 * Pow2(k - 1)
  }

  /** Bitwise OR of two unsigned bit patterns, lowest bit first. */
  function Or(a: nat, b: nat): (r: nat)
    ensures a <= r <= a + b
    decreases a + b
  {
    if a == 0 && b == 0 then 0
    else 2 * Or(a / 2, b / 2) + (if a % 2 == 1 || b % 2 == 1 then 1 else 0)
  }

  /** Bitwise AND of two unsigned bit patterns, lowest bit first. */
  function And(a: nat, b: nat): (r: nat)
    ensures r <= a && r <= b
    decreases a + b
  {
    if a == 0 || b == 0 then 0
    else 2 * And(a / 2, b / 2) + (if a % 2 == 1 && b % 2 == 1 then 1 else 0)
  }

  lemma MulAtLeast(e: int, m: int)
    requires m > 0 && e > 0
    ensures e * m >= m
  {
    assert e * m == (e - 1) * m + m;
  }

  lemma MulSub(q: int, d: int, m: int)
    ensures (q - d) * m == q * m - d * m
  {
  }

  /** Quotient and remainder are the only such pair. */
  lemma DivModUnique(a: int, m: int, q: int, r: int)
    requires m > 0 && a == q * m + r && 0 <= r < m
    ensures a / m == q && a % m == r
  {
    var d := a / m;
    MulSub(q, d, m);
    if q > d {
      MulAtLeast(q - d, m);
    } else if q < d {
      MulSub(d, q, m);
      MulAtLeast(d - q, m);
    }
  }

  /** A multiple of 2^k, for k > 0, is even, and its half is a multiple of 2^(k-1). */
  lemma HalveMultiple(a: nat, k: nat)
    requires k > 0 && a % Pow2(k) == 0
    ensures a % 2 == 0 && (a / 2) % Pow2(k - 1) == 0
  {
    var p := Pow2(k - 1);
    var q := a / (2 * p);
    assert a == (q * p) * 2;
    DivModUnique(a / 2, p, q, 0);
  }

  /** The low k bits of `a` are its lowest bit under the low k - 1 bits of `a / 2`. */
  lemma HalveMod(a: nat, k: nat)
    requires k > 0
    ensures a % Pow2(k) == 2 * ((a / 2) % Pow2(k - 1)) + a % 2
  {
    var p := Pow2(k - 1);
    var h := a / 2;
    var q := h / p;
    assert 2 * (q * p) == q * (2 * p);
    DivModUnique(a, 2 * p, q, 2 * (h % p) + a % 2);
  }

  /** OR of a pattern with its low k bits clear and a pattern below 2^k adds them. */
  lemma {:induction false} OrDisjoint(a: nat, b: nat, k: nat)
    requires a % Pow2(k) == 0 && b < Pow2(k)
    ensures Or(a, b) == a + b
    decreases k
  {
    if k > 0 && (a != 0 || b != 0) {
      HalveMultiple(a, k);
      OrDisjoint(a / 2, b / 2, k - 1);
    }
  }

  /** AND with an odd mask keeps the lowest bit and continues with the mask's upper bits. */
  lemma AndOddMask(a: nat, upper: nat)
    requires a != 0
    ensures And(a, 2 * upper + 1) == 2 * And(a / 2, upper) + a % 2
  {
    assert (2 * upper + 1) / 2 == upper;
  }

  /** One bit of `AndLowMask`: from the low k - 1 bits of `a / 2` to the low k bits of `a`. */
  lemma AndLowMaskStep(a: nat, k: nat)
    requires k > 0 && a != 0
    requires And(a / 2, Pow2(k - 1) - 1) == (a / 2) % Pow2(k - 1)
    ensures And(a, Pow2(k) - 1) == a % Pow2(k)
  {
    var upper := Pow2(k - 1) - 1;
    assert Pow2(k) - 1 == 2 * upper + 1;
    AndOddMask(a, upper);
    HalveMod(a, k);
  }

  /** AND with k one-bits keeps the low k bits. */
  lemma {:induction false} AndLowMask(a: nat, k: nat)
    ensures And(a, Pow2(k) - 1) == a % Pow2(k)
    decreases k
  {
    if k == 0 {
      assert Pow2(k) == 1;
      DivModUnique(a, 1, a, 0);
    } else if a == 0 {
      DivModUnique(0, Pow2(k), 0, 0);
    } else {
      AndLowMask(a / 2, k - 1);
      AndLowMaskStep(a, k);
    }
  }

  /** OR with an odd mask sets the lowest bit and continues with the mask's upper bits. */
  lemma OrOddMask(a: nat, upper: nat)
    ensures Or(a, 2 * upper + 1) == 2 * Or(a / 2, upper) + 1
  {
    assert (2 * upper + 1) / 2 == upper;
  }

  /** One bit of `OrAllOnes`: from k - 1 one-bits to k one-bits. */
  lemma OrAllOnesStep(a: nat, k: nat)
    requires k > 0
    requires Or(a / 2, Pow2(k - 1) - 1) == Pow2(k - 1) - 1
    ensures Or(a, Pow2(k) - 1) == Pow2(k) - 1
  {
    var upper := Pow2(k - 1) - 1;
    assert Pow2(k) - 1 == 2 * upper + 1;
    OrOddMask(a, upper);
  }

  /** OR with k one-bits gives k one-bits. */
  lemma {:induction false} OrAllOnes(a: nat, k: nat)
    requires a < Pow2(k)
    ensures Or(a, Pow2(k) - 1) == Pow2(k) - 1
    decreases k
  {
    if k > 0 {
      OrAllOnes(a / 2, k - 1);
      OrAllOnesStep(a, k);
    }
  }

  lemma Pow2Values()
    ensures Pow2(16) == Half && Pow2(32) == Word
  {
    assert Pow2(4) == 16;
    assert Pow2(8) == 256;
    assert Pow2(12) == 4096;
    assert Pow2(16) == Half;
    assert Pow2(20) == 0x10_0000;
    assert Pow2(24) == 0x100_0000;
    assert Pow2(28) == 0x1000_0000;
  }

  // ---------------------------------------------------------------------
  // C++ `int` and `short` operations, written out

  /** Wrap-around of a mathematical integer into a 32-bit `int`. */
  function Wrap32(x: int): (r: Int32)
    ensures (r as int - x) % Word == 0
  {
    var m := x % Word;
    if m < 0x8000_0000 then m as Int32 else (m - Word) as Int32
  }

  /** The unsigned reading of a 32-bit `int`: the number its bit pattern spells. */
  function Unsigned32(i: Int32): (n: nat)
    ensures n < Word
    ensures (n - i as int) % Word == 0
  {
    if i < 0 then i as int + Word else i as int
  }

  /** Conversion to `short`: keeps the low sixteen bits, read in two's complement. */
  function Narrow(x: int): (s: Short)
    ensures (s as int - x) % Half == 0
  {
    var m := x % Half;
    if m < 0x8000 then m as Short else (m - Half) as Short
  }

  /** `x << 16` on a 32-bit `int`. */
  function ShiftLeft16(x: Int32): (r: Int32)
    ensures r as int % Half == 0
  {
    Wrap32(x as int * Half)
  }

  /** `x >> 16` on a 32-bit `int`: an arithmetic shift, that is, division rounding down. */
  function ShiftRight16(x: Int32): (r: Int32)
    ensures -0x8000 <= r < 0x8000
  {
    (x as int / Half) as Int32
  }

  /** `x | y` on 32-bit `int`s. */
  function BitOr(x: Int32, y: Int32): Int32
  {
    Wrap32(Or(Unsigned32(x), Unsigned32(y)))
  }

  /** `x & y` on 32-bit `int`s. */
  function BitAnd(x: Int32, y: Int32): Int32
  {
    Wrap32(And(Unsigned32(x), Unsigned32(y)))
  }

  // ---------------------------------------------------------------------
  // The codec

  /** `getTypeUserID`: the packed value of a (type, user) pair. */
  function Encode(typeId: Short, userId: Short): Int32
  {
    BitOr(ShiftLeft16(typeId as int as Int32), BitAnd(userId as int as Int32, LowMask))
  }

  /** `setTypeUserID`: the (type, user) pair a packed value carries. */
  function Decode(typeUserId: Int32): TypeUser
  {
    TypeUser(Narrow(ShiftRight16(typeUserId) as int), Narrow(BitAnd(typeUserId, LowMask) as int))
  }

  // ---------------------------------------------------------------------
  // An arithmetic reference for the layout

  /** The unsigned reading of a 16-bit `short`. */
  function Unsigned16(s: Short): (n: nat)
    ensures n < Half
    ensures (n - s as int) % Half == 0
  {
    if s < 0 then s as int + Half else s as int
  }

  /** Two values below `m` that are congruent modulo `m` are equal. */
  lemma CongruentEqual(a: int, b: int, m: int)
    requires m > 0 && 0 <= a < m && 0 <= b < m
    requires (a - b) % m == 0
    ensures a == b
  {
  }

  /** `x & 0xFFFF` is the low half of the bit pattern of `x`. */
  lemma MaskedLowHalf(x: Int32)
    ensures BitAnd(x, LowMask) as int == Unsigned32(x) % Half
  {
    Pow2Values();
    AndLowMask(Unsigned32(x), 16);
  }

  /** Shifting a `short` left by sixteen puts its 16-bit pattern in the high half. */
  lemma ShiftedHalf(s: Short)
    ensures Unsigned32(ShiftLeft16(s as int as Int32)) == Unsigned16(s) * Half
  {
    var r := ShiftLeft16(s as int as Int32);
    // r and s * 2^16 differ by a multiple of 2^32, and s and Unsigned16(s) by a multiple of 2^16
    assert (Unsigned16(s) * Half - s as int * Half) % Word == 0 by {
      if s < 0 {
        assert Unsigned16(s) * Half - s as int * Half == Word;
      }
    }
    CongruentEqual(Unsigned32(r), Unsigned16(s) * Half, Word);
  }

  /** Wrapping a number that fits in 32 bits gives the `int` with that bit pattern. */
  lemma UnsignedWrap(x: int)
    requires 0 <= x < Word
    ensures Unsigned32(Wrap32(x)) == x
  {
    CongruentEqual(Unsigned32(Wrap32(x)), x, Word);
  }

  /** A `short` promoted to `int` keeps its 16-bit pattern in the low half. */
  lemma PromotedLowHalf(s: Short)
    ensures Unsigned32(s as int as Int32) % Half == Unsigned16(s)
  {
    if s < 0 {
      DivModUnique(Unsigned32(s as int as Int32), Half, 0xFFFF, s as int + Half);
    }
  }

  /** `high | low`, where `high` has its low half clear and `low` fits in it, spells their sum. */
  lemma OrHalves(high: Int32, low: Int32)
    requires Unsigned32(high) % Half == 0 && 0 <= low as int < Half
    ensures Unsigned32(BitOr(high, low)) == Unsigned32(high) + low as int
  {
    var h, l := Unsigned32(high), Unsigned32(low);
    assert Or(h, l) == h + l by {
      Pow2Values();
      OrDisjoint(h, l, 16);
    }
    UnsignedWrap(h + l);
  }

  /**
    The layout, stated arithmetically: the word `Encode` builds spells the type
    half times 2^16 plus the user half.
  */
  lemma EncodeLayout(typeId: Short, userId: Short)
    ensures Unsigned32(Encode(typeId, userId)) == Unsigned16(typeId) * Half + Unsigned16(userId)
  {
    var high := ShiftLeft16(typeId as int as Int32);
    var low := BitAnd(userId as int as Int32, LowMask);
    ShiftedHalf(typeId);
    MaskedLowHalf(userId as int as Int32);
    PromotedLowHalf(userId);
    OrHalves(high, low);
  }

  /** `(short)(x >> 16)` is the high half of the bit pattern of `x`. */
  lemma ShiftedDownHalf(x: Int32)
    ensures Unsigned16(Narrow(ShiftRight16(x) as int)) == Unsigned32(x) / Half
  {
    var n := Unsigned32(x);
    var q := x as int / Half;
    // The arithmetic shift and the unsigned quotient agree modulo 2^16.
    assert (n / Half - q) % Half == 0 by {
      if x < 0 {
        assert n == x as int + Word;
        assert n / Half == q + Half;
      }
    }
    CongruentEqual(Unsigned16(Narrow(ShiftRight16(x) as int)), n / Half, Half);
  }

  /** `(short)(x & 0xFFFF)` is the low half of the bit pattern of `x`. */
  lemma NarrowedLowHalf(x: Int32)
    ensures Unsigned16(Narrow(BitAnd(x, LowMask) as int)) == Unsigned32(x) % Half
  {
    MaskedLowHalf(x);
    CongruentEqual(Unsigned16(Narrow(BitAnd(x, LowMask) as int)), Unsigned32(x) % Half, Half);
  }

  /** Every word is its decoded type half times 2^16 plus its decoded user half. */
  lemma DecodeLayout(typeUserId: Int32)
    ensures Unsigned32(typeUserId)
         == Unsigned16(Decode(typeUserId).typeId) * Half + Unsigned16(Decode(typeUserId).userId)
  {
    ShiftedDownHalf(typeUserId);
    NarrowedLowHalf(typeUserId);
  }

  /** Two (type, user) pairs with the same unsigned halves are the same pair. */
  lemma UnsignedHalvesEqual(t1: Short, u1: Short, t2: Short, u2: Short)
    requires Unsigned16(t1) * Half + Unsigned16(u1) == Unsigned16(t2) * Half + Unsigned16(u2)
    ensures t1 == t2 && u1 == u2
  {
    assert Unsigned16(t1) == Unsigned16(t2) && Unsigned16(u1) == Unsigned16(u2) by {
      var a, b := Unsigned16(t1) * Half + Unsigned16(u1), Unsigned16(t2) * Half + Unsigned16(u2);
      assert a / Half == Unsigned16(t1) && a % Half == Unsigned16(u1);
      assert b / Half == Unsigned16(t2) && b % Half == Unsigned16(u2);
    }
  }

  /** Decoding undoes encoding, for every pair of `short`s. */
  lemma DecodeEncode(typeId: Short, userId: Short)
    ensures Decode(Encode(typeId, userId)) == TypeUser(typeId, userId)
  {
    var e := Encode(typeId, userId);
    EncodeLayout(typeId, userId);
    DecodeLayout(e);
    var d := Decode(e);
    UnsignedHalvesEqual(d.typeId, d.userId, typeId, userId);
  }

  /** Encoding undoes decoding, for every 32-bit value. */
  lemma EncodeDecode(typeUserId: Int32)
    ensures Encode(Decode(typeUserId).typeId, Decode(typeUserId).userId) == typeUserId
  {
    var d := Decode(typeUserId);
    var e := Encode(d.typeId, d.userId);
    EncodeLayout(d.typeId, d.userId);
    DecodeLayout(typeUserId);
    assert Unsigned32(e) == Unsigned32(typeUserId);
  }

  /** Distinct pairs never share a packed value. */
  lemma EncodeInjective(t1: Short, u1: Short, t2: Short, u2: Short)
    requires Encode(t1, u1) == Encode(t2, u2)
    ensures t1 == t2 && u1 == u2
  {
    DecodeEncode(t1, u1);
    DecodeEncode(t2, u2);
  }

  /** The packed value is negative exactly when the type ID is: the type half holds the sign bit. */
  lemma EncodeSign(typeId: Short, userId: Short)
    ensures Encode(typeId, userId) < 0 <==> typeId < 0
  {
    EncodeLayout(typeId, userId);
  }

  /** ORing with -1, all 32 bits set, gives -1 whatever the other operand. */
  lemma BitOrAllOnes(x: Int32)
    ensures BitOr(x, -1) == -1
  {
    var h := Unsigned32(x);
    assert Or(h, Word - 1) == Word - 1 by {
      Pow2Values();
      OrAllOnes(h, 32);
    }
    assert Unsigned32(-1) == Word - 1;
  }

  /**
    Why the user half is masked: without the mask, the promoted user ID -1 has
    all 32 bits set and ORing it in erases the type ID, whatever it was.
  */
  lemma UnmaskedUserClobbersType(typeId: Short)
    ensures BitOr(ShiftLeft16(typeId as int as Int32), -1) == -1
    ensures Decode(BitOr(ShiftLeft16(typeId as int as Int32), -1)).typeId == -1
  {
    BitOrAllOnes(ShiftLeft16(typeId as int as Int32));
    assert ShiftRight16(-1) == -1;
  }
}
