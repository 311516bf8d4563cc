/** The hash against machine words: HASH_JEN_MIX on 32-bit vectors with their own operators, and known hash values. */
module JenkinsWords {
  import opened Words
  import opened Jenkins

  /** A vector shifted right by one. */
  function Half(x: bv32): bv32 { x >> 1 }

  /** The lowest bit of a vector. */
  function Low(x: bv32): nat { if x & 1 == 1 then 1 else 0 }

  /** The number the lowest `n` bits of a vector stand for. */
  function Value(x: bv32, n: nat): (v: nat)
    ensures v < Pow2(n)
  {
    if n == 0 then 0 else Low(x) + 2 * Value(Half(x), n - 1)
  }

  /** The word a vector stands for. */
  function WordOf(x: bv32): Word
  {
    WordBits();
    Value(x, 32)
  }

  // The bits of an exclusive or.

  /** Bit `i` of a number. */
  function Bit(a: nat, i: nat): nat { (a / Pow2(i)) % 2 }

  lemma BitUp(a: nat, i: nat)
    ensures Bit(a, i + 1) == Bit(a / 2, i) && Bit(a, 0) == a % 2
  {
    HalfQuotient(a, Pow2(i));
    assert Pow2(0) == 1;
  }

  lemma XorUnfold(a: nat, b: nat, n: nat)
    requires n > 0 && a < Pow2(n) && b < Pow2(n)
    ensures a / 2 < Pow2(n - 1) && b / 2 < Pow2(n - 1)
    ensures XorBits(a, b, n) / 2 == XorBits(a / 2, b / 2, n - 1)
    ensures XorBits(a, b, n) % 2 == if a % 2 == b % 2 then 0 else 1
  {}

  lemma {:induction false} XorBitsBitwise(a: nat, b: nat, n: nat, i: nat)
    requires a < Pow2(n) && b < Pow2(n) && i < n
    ensures Bit(XorBits(a, b, n), i) == 1 <==> Bit(a, i) != Bit(b, i)
    decreases n
  {
    hide Bit, XorBits, Pow2;
    XorUnfold(a, b, n);
    BitUp(a, if i > 0 then i - 1 else 0);
    BitUp(b, if i > 0 then i - 1 else 0);
    BitUp(XorBits(a, b, n), if i > 0 then i - 1 else 0);
    if i > 0 {
      XorBitsBitwise(a / 2, b / 2, n - 1, i - 1);
    }
  }

  /** A bit of an exclusive or is set exactly when the bits of the operands differ. */
  lemma XorIsBitwise(a: Word, b: Word, i: nat)
    requires i < 32
    ensures Bit(Xor(a, b), i) == 1 <==> Bit(a, i) != Bit(b, i)
  {
    WordBits();
    XorBitsBitwise(a, b, 32, i);
  }

  // The operators on words are those on vectors.

  lemma Unfold(x: bv32, n: nat)
    requires n > 0
    ensures Value(x, n) == Low(x) + 2 * Value(Half(x), n - 1)
    ensures Value(x, n) / 2 == Value(Half(x), n - 1) && Value(x, n) % 2 == Low(x) <= 1
  {}

  lemma NoBits(x: bv32)
    ensures Value(x, 0) == 0 && Pow2(0) == 1
  {}

  function XorOf(x: bv32, y: bv32): bv32 { x ^ y }

  lemma XorHalf(x: bv32, y: bv32)
    ensures Half(XorOf(x, y)) == XorOf(Half(x), Half(y))
    ensures Low(XorOf(x, y)) == if Low(x) == Low(y) then 0 else 1
  {}

  lemma {:induction false} XorValue(x: bv32, y: bv32, n: nat)
    ensures Value(XorOf(x, y), n) == XorBits(Value(x, n), Value(y, n), n)
    decreases n
  {
    hide Value, Low, XorBits, Pow2, Half, XorOf;
    if n == 0 {
      NoBits(XorOf(x, y));
      NoBits(x);
      NoBits(y);
    } else {
      Unfold(XorOf(x, y), n);
      Unfold(x, n);
      Unfold(y, n);
      XorHalf(x, y);
      XorUnfold(Value(x, n), Value(y, n), n);
      XorValue(Half(x), Half(y), n - 1);
    }
  }

  /** `m` is 2^n - 1. */
  predicate Ones(m: bv32, n: nat) { if n == 0 then m == 0 else m & 1 == 1 && Ones(Half(m), n - 1) }

  lemma Ones31()
    ensures Ones(0x7fff_ffff, 31)
  {
    assert Ones(0, 0) && Ones(1, 1) && Ones(3, 2) && Ones(7, 3) && Ones(0xf, 4) && Ones(0x1f, 5) && Ones(0x3f, 6);
    assert Ones(0x7f, 7) && Ones(0xff, 8) && Ones(0x1ff, 9) && Ones(0x3ff, 10) && Ones(0x7ff, 11) && Ones(0xfff, 12);
    assert Ones(0x1fff, 13) && Ones(0x3fff, 14) && Ones(0x7fff, 15) && Ones(0xffff, 16) && Ones(0x1_ffff, 17);
    assert Ones(0x3_ffff, 18) && Ones(0x7_ffff, 19) && Ones(0xf_ffff, 20) && Ones(0x1f_ffff, 21) && Ones(0x3f_ffff, 22);
    assert Ones(0x7f_ffff, 23) && Ones(0xff_ffff, 24) && Ones(0x1ff_ffff, 25) && Ones(0x3ff_ffff, 26);
    assert Ones(0x7ff_ffff, 27) && Ones(0xfff_ffff, 28) && Ones(0x1fff_ffff, 29) && Ones(0x3fff_ffff, 30);
  }

  lemma OnesStep(m: bv32, n: nat)
    requires Ones(m, n)
    ensures n > 0 ==> Odd(m) && Ones(Half(m), n - 1)
    ensures n == 0 ==> m == 0
  {}

  predicate Odd(m: bv32) { m & 1 == 1 }

  function AndOf(x: bv32, m: bv32): bv32 { x & m }

  lemma AndHalf(x: bv32, m: bv32)
    requires Odd(m)
    ensures Half(AndOf(x, m)) == AndOf(Half(x), Half(m)) && Low(AndOf(x, m)) == Low(x)
  {}

  /** Bits above the lowest `n` do not matter to their value. */
  lemma {:induction false} MaskedValue(x: bv32, m: bv32, k: nat, n: nat)
    requires Ones(m, k) && n <= k
    ensures Value(AndOf(x, m), n) == Value(x, n)
    decreases n
  {
    hide Value, Low, Ones, Half, AndOf, Odd;
    if n == 0 {
      NoBits(x);
      NoBits(AndOf(x, m));
    } else {
      OnesStep(m, k);
      Unfold(AndOf(x, m), n);
      Unfold(x, n);
      AndHalf(x, m);
      MaskedValue(Half(x), Half(m), k - 1, n - 1);
    }
  }

  predicate AtMost(x: bv32, m: bv32) { x <= m }

  lemma HalfAtMost(x: bv32, m: bv32)
    requires AtMost(x, m)
    ensures AtMost(Half(x), Half(m)) && (m == 0 ==> x == 0 && Half(x) == 0 && Low(x) == 0)
  {}

  /** A vector without bits above the lowest `n`. */
  lemma {:induction false} ShortValue(x: bv32, m: bv32, n: nat)
    requires Ones(m, n) && AtMost(x, m)
    ensures Value(x, n + 1) == Value(x, n)
    decreases n
  {
    hide Value, Low, Ones, Half, AtMost, Odd;
    OnesStep(m, n);
    HalfAtMost(x, m);
    Unfold(x, n + 1);
    if n == 0 {
      NoBits(x);
      NoBits(Half(x));
    } else {
      Unfold(x, n);
      ShortValue(Half(x), Half(m), n - 1);
    }
  }

  // Shifts.

  lemma HalfIsShort(x: bv32)
    ensures AtMost(Half(x), 0x7fff_ffff)
  {}

  lemma RightOne(x: bv32)
    ensures WordOf(Half(x)) == WordOf(x) / 2
  {
    hide Value, Ones, Half, AtMost;
    Ones31();
    HalfIsShort(x);
    ShortValue(Half(x), 0x7fff_ffff, 31);
    Unfold(x, 32);
  }

  function Twice(x: bv32): bv32 { x << 1 }

  lemma HalfOfTwice(x: bv32)
    ensures Half(Twice(x)) == AndOf(x, 0x7fff_ffff) && Low(Twice(x)) == 0
  {}

  lemma LeftOne(x: bv32)
    ensures WordOf(Twice(x)) == (2 * WordOf(x)) % WORD_RANGE
  {
    hide Value, Ones, Low, Half, Twice, AndOf, Pow2;
    Ones31();
    HalfOfTwice(x);
    Unfold(Twice(x), 32);
    MaskedValue(x, 0x7fff_ffff, 31, 31);
    MoreBit(x, 31);
    WordBits();
    PowStep(32);
  }

  lemma {:induction false} MoreBit(x: bv32, n: nat)
    ensures Value(x, n + 1) == Value(x, n) || Value(x, n + 1) == Value(x, n) + Pow2(n)
    decreases n
  {
    hide Value, Low, Pow2, Half;
    Unfold(x, n + 1);
    if n == 0 {
      NoBits(x);
      NoBits(Half(x));
    } else {
      Unfold(x, n);
      PowStep(n);
      MoreBit(Half(x), n - 1);
    }
  }

  lemma PowStep(n: nat)
    requires n > 0
    ensures Pow2(n) == 2 * Pow2(n - 1)
  {}

  function RightBy(x: bv32, k: nat): bv32
    decreases k
  {
    if k == 0 then x else RightBy(Half(x), k - 1)
  }

  lemma {:induction false} RightValue(x: bv32, k: nat)
    ensures WordOf(RightBy(x, k)) == Shr(WordOf(x), k)
    decreases k
  {
    hide WordOf, Half;
    if k > 0 {
      RightOne(x);
      RightValue(Half(x), k - 1);
    }
  }

  function LeftBy(x: bv32, k: nat): bv32
    decreases k
  {
    if k == 0 then x else Twice(LeftBy(x, k - 1))
  }

  lemma {:induction false} LeftValue(x: bv32, k: nat)
    ensures WordOf(LeftBy(x, k)) == Shl(WordOf(x), k)
    decreases k
  {
    hide WordOf, Twice;
    if k == 0 {
      ShiftNothing(WordOf(x));
    } else {
      LeftOne(LeftBy(x, k - 1));
      LeftValue(x, k - 1);
      ShiftMore(WordOf(x), k);
    }
  }

  lemma ShiftNothing(a: Word)
    ensures Shl(a, 0) == a
  {}

  lemma ShiftMore(a: Word, k: nat)
    requires k > 0
    ensures (2 * Shl(a, k - 1)) % WORD_RANGE == Shl(a, k)
  {
    hide Pow2;
    PowStep(k);
    var p := a * Pow2(k - 1);
    assert a * Pow2(k) == 2 * p;
    DoubledRemainder(p);
  }

  lemma DoubledRemainder(p: nat)
    ensures (2 * (p % WORD_RANGE)) % WORD_RANGE == (2 * p) % WORD_RANGE
  {}

  lemma {:induction false} RightAdd(x: bv32, j: nat, k: nat)
    ensures RightBy(x, j + k) == RightBy(RightBy(x, j), k)
    decreases j
  {
    hide Half;
    if j > 0 {
      RightAdd(Half(x), j - 1, k);
    }
  }

  lemma {:induction false} LeftAdd(x: bv32, j: nat, k: nat)
    ensures LeftBy(x, j + k) == LeftBy(LeftBy(x, j), k)
    decreases k
  {
    hide Twice;
    if k > 0 {
      LeftAdd(x, j, k - 1);
    }
  }

  lemma TwiceHalved(x: bv32)
    ensures Half(x) == x >> 1 && Half(Half(x)) == x >> 2 && Half(Half(Half(x))) == x >> 3
  {}

  lemma RightThree(x: bv32)
    ensures RightBy(x, 1) == x >> 1 && RightBy(x, 2) == x >> 2 && RightBy(x, 3) == x >> 3
  {
    hide Half;
    TwiceHalved(x);
    assert RightBy(x, 1) == Half(x);
    assert RightBy(x, 2) == Half(Half(x));
    assert RightBy(x, 3) == RightBy(Half(x), 2) == Half(Half(Half(x)));
  }

  lemma TwiceDoubled(x: bv32)
    ensures Twice(Twice(x)) == x << 2
  {}

  lemma LeftTwo(x: bv32)
    ensures LeftBy(x, 2) == x << 2
  {
    hide Twice;
    TwiceDoubled(x);
    assert LeftBy(x, 1) == Twice(x);
  }

  // Subtraction.

  function Minus(x: bv32, y: bv32): bv32 { x - y }

  function MinusOne(x: bv32, y: bv32): bv32 { x - y - 1 }

  /** A vector put together from its upper bits and its lowest. */
  function Sum(h: bv32, l: bv32): bv32 { h + h + l }

  function LowBit(x: bv32): bv32 { x & 1 }

  lemma SumOfHalf(x: bv32)
    ensures x == Sum(Half(x), LowBit(x))
  {}

  lemma LowBits(x: bv32)
    ensures LowBit(x) == 0 || LowBit(x) == 1
    ensures Low(x) == if LowBit(x) == 0 then 0 else 1
  {}

  lemma MinusIs(x: bv32, y: bv32)
    ensures Minus(x, y) == x - y
  {}

  lemma MinusOneIs(x: bv32, y: bv32)
    ensures MinusOne(x, y) == x - y - 1
  {}

  // The differences of vectors put together from their parts.

  function Parts(h: bv32, l: bv32, k: bv32, m: bv32): bv32 { Minus(h + h + l, k + k + m) }

  function PartsOne(h: bv32, l: bv32, k: bv32, m: bv32): bv32 { MinusOne(h + h + l, k + k + m) }

  lemma PartsOfSums(h: bv32, l: bv32, k: bv32, m: bv32)
    ensures Minus(Sum(h, l), Sum(k, m)) == Parts(h, l, k, m) && MinusOne(Sum(h, l), Sum(k, m)) == PartsOne(h, l, k, m)
  {
    hide Minus, MinusOne;
  }

  lemma EqualLow(h: bv32, k: bv32)
    ensures Parts(h, 0, k, 0) == Sum(h - k, 0) && Parts(h, 1, k, 1) == Sum(h - k, 0)
  {}

  lemma UnequalLow(h: bv32, k: bv32)
    ensures Parts(h, 1, k, 0) == Sum(h - k, 1) && Parts(h, 0, k, 1) == Sum(h - k - 1, 1)
  {}

  lemma EqualLowOne(h: bv32, k: bv32)
    ensures PartsOne(h, 0, k, 0) == Sum(h - k - 1, 1) && PartsOne(h, 1, k, 1) == Sum(h - k - 1, 1)
  {}

  lemma UnequalLowOne(h: bv32, k: bv32)
    ensures PartsOne(h, 1, k, 0) == Sum(h - k, 0) && PartsOne(h, 0, k, 1) == Sum(h - k - 1, 0)
  {}

  lemma HalfOfSum(e: bv32)
    ensures Half(Sum(e, 0)) == AndOf(e, 0x7fff_ffff) && Low(Sum(e, 0)) == 0
    ensures Half(Sum(e, 1)) == AndOf(e, 0x7fff_ffff) && Low(Sum(e, 1)) == 1
  {}

  /** `x - y`, or `x - y - 1` with a borrow. */
  function Diff(x: bv32, y: bv32, borrow: bool): bv32 { if borrow then MinusOne(x, y) else Minus(x, y) }

  function Int(b: bool): nat { if b then 1 else 0 }

  /** The borrow into the next bit. */
  predicate Borrows(x: bv32, y: bv32, borrow: bool) { Low(x) < Low(y) + Int(borrow) }

  lemma DiffOfSums(h: bv32, l: bv32, k: bv32, m: bv32, borrow: bool) returns (r: bv32)
    requires (l == 0 || l == 1) && (m == 0 || m == 1)
    ensures var b := (if l == 0 then 0 else 1) < (if m == 0 then 0 else 1) + Int(borrow);
            && Diff(Sum(h, l), Sum(k, m), borrow) == Sum(Diff(h, k, b), r)
            && (r == 0 || r == 1)
            && (if r == 0 then 0 else 1) ==
               (if l == 0 then 0 else 1) - (if m == 0 then 0 else 1) - Int(borrow) + 2 * Int(b)
  {
    hide Sum, Minus, MinusOne, Parts, PartsOne;
    PartsOfSums(h, l, k, m);
    MinusIs(h, k);
    MinusOneIs(h, k);
    EqualLow(h, k);
    UnequalLow(h, k);
    EqualLowOne(h, k);
    UnequalLowOne(h, k);
    r := if (l == m) == borrow then 1 else 0;
  }

  lemma DiffHalf(x: bv32, y: bv32, borrow: bool)
    ensures Half(Diff(x, y, borrow)) == AndOf(Diff(Half(x), Half(y), Borrows(x, y, borrow)), 0x7fff_ffff)
    ensures Low(Diff(x, y, borrow)) == Low(x) - Low(y) - Int(borrow) + 2 * Int(Borrows(x, y, borrow))
  {
    hide Half, Low, LowBit, Sum, Diff, AndOf;
    SumOfHalf(x);
    SumOfHalf(y);
    LowBits(x);
    LowBits(y);
    var r := DiffOfSums(Half(x), LowBit(x), Half(y), LowBit(y), borrow);
    HalfOfSum(Diff(Half(x), Half(y), Borrows(x, y, borrow)));
  }

  lemma {:induction false} DiffValue(x: bv32, y: bv32, borrow: bool, n: nat) returns (q: int)
    requires n <= 32
    ensures Value(Diff(x, y, borrow), n) == Value(x, n) - Value(y, n) - Int(borrow) + q * Pow2(n)
    decreases n
  {
    hide Value, Low, Half, Diff, Borrows, AndOf, Pow2, Ones;
    if n == 0 {
      NoBits(x);
      NoBits(y);
      NoBits(Diff(x, y, borrow));
      q := Int(borrow);
    } else {
      var b := Borrows(x, y, borrow);
      DiffHalf(x, y, borrow);
      Unfold(Diff(x, y, borrow), n);
      Unfold(x, n);
      Unfold(y, n);
      q := DiffValue(Half(x), Half(y), b, n - 1);
      Ones31();
      MaskedValue(Diff(Half(x), Half(y), b), 0x7fff_ffff, 31, n - 1);
      PowStep(n);
      Reassociated(q, Pow2(n - 1));
    }
  }

  lemma Reassociated(q: int, p: nat)
    ensures 2 * (q * p) == q * (2 * p)
  {}

  lemma SubValue(x: bv32, y: bv32)
    ensures WordOf(Minus(x, y)) == Sub(WordOf(x), WordOf(y))
  {
    hide Value, Minus, MinusOne, Pow2;
    var q := DiffValue(x, y, false, 32);
    WordBits();
    RemainderUnique(WordOf(x) as int - WordOf(y) as int, WORD_RANGE, -q, WordOf(Minus(x, y)));
  }

  // The mix.

  /** One line of HASH_JEN_MIX: `x -= y; x -= z; x ^= s`. */
  function LineOf(x: bv32, y: bv32, z: bv32, s: bv32): bv32 { (x - y - z) ^ s }

  lemma MinusTwice(x: bv32, y: bv32, z: bv32)
    ensures Minus(x - y, z) == x - y - z
  {}

  lemma MinusMinus(x: bv32, y: bv32, z: bv32)
    ensures Minus(Minus(x, y), z) == x - y - z
  {
    hide Minus;
    MinusIs(x, y);
    MinusTwice(x, y, z);
  }

  lemma XorIs(w: bv32, s: bv32)
    ensures XorOf(w, s) == w ^ s
  {}

  lemma XorMinus(x: bv32, y: bv32, z: bv32, s: bv32)
    ensures XorOf(Minus(Minus(x, y), z), s) == (x - y - z) ^ s
  {
    hide Minus, XorOf;
    MinusMinus(x, y, z);
    XorIs(x - y - z, s);
  }

  lemma LineIs(x: bv32, y: bv32, z: bv32, s: bv32)
    ensures LineOf(x, y, z, s) == (x - y - z) ^ s
  {}

  lemma LineValue(x: bv32, y: bv32, z: bv32, s: bv32)
    ensures WordOf(LineOf(x, y, z, s)) == Line(WordOf(x), WordOf(y), WordOf(z), WordOf(s))
  {
    hide LineOf, Minus, XorOf, Value, Sub;
    LineIs(x, y, z, s);
    XorMinus(x, y, z, s);
    SubValue(x, y);
    SubValue(Minus(x, y), z);
    WordBits();
    XorValue(Minus(Minus(x, y), z), s, 32);
  }

  // The shifts of the mix.

  lemma Right3(x: bv32)
    ensures RightBy(x, 3) == x >> 3
  {
    RightThree(x);
  }

  lemma Right5(x: bv32)
    ensures RightBy(x, 5) == x >> 5
  {
    hide RightBy;
    RightThree(x);
    RightThree(x >> 3);
    RightAdd(x, 3, 2);
    assert (x >> 3) >> 2 == x >> 5;
  }

  lemma Right6(x: bv32)
    ensures RightBy(x, 6) == x >> 6
  {
    hide RightBy;
    Right3(x);
    Right3(x >> 3);
    RightAdd(x, 3, 3);
    assert (x >> 3) >> 3 == x >> 6;
  }

  lemma Right12(x: bv32)
    ensures RightBy(x, 12) == x >> 12
  {
    hide RightBy;
    Right6(x);
    Right6(x >> 6);
    RightAdd(x, 6, 6);
    assert (x >> 6) >> 6 == x >> 12;
  }

  lemma Right1(x: bv32)
    ensures RightBy(x, 1) == x >> 1
  {
    RightThree(x);
  }

  lemma Right13(x: bv32)
    ensures RightBy(x, 13) == x >> 13
  {
    hide RightBy;
    Right12(x);
    Right1(x >> 12);
    RightAdd(x, 12, 1);
    assert (x >> 12) >> 1 == x >> 13;
  }

  lemma Right15(x: bv32)
    ensures RightBy(x, 15) == x >> 15
  {
    hide RightBy;
    Right12(x);
    Right3(x >> 12);
    RightAdd(x, 12, 3);
    assert (x >> 12) >> 3 == x >> 15;
  }

  lemma RightShifts(x: bv32)
    ensures WordOf(x >> 3) == ShiftRight(WordOf(x), 3) && WordOf(x >> 5) == ShiftRight(WordOf(x), 5)
    ensures WordOf(x >> 12) == ShiftRight(WordOf(x), 12) && WordOf(x >> 13) == ShiftRight(WordOf(x), 13)
    ensures WordOf(x >> 15) == ShiftRight(WordOf(x), 15)
  {
    hide WordOf, RightBy, Shr;
    Right3(x);
    Right5(x);
    Right12(x);
    Right13(x);
    Right15(x);
    RightValue(x, 3);
    RightValue(x, 5);
    RightValue(x, 12);
    RightValue(x, 13);
    RightValue(x, 15);
  }

  lemma Left4(x: bv32)
    ensures LeftBy(x, 4) == x << 4
  {
    hide LeftBy;
    LeftTwo(x);
    LeftTwo(x << 2);
    LeftAdd(x, 2, 2);
    assert (x << 2) << 2 == x << 4;
  }

  lemma Left8(x: bv32)
    ensures LeftBy(x, 8) == x << 8
  {
    hide LeftBy;
    Left4(x);
    Left4(x << 4);
    LeftAdd(x, 4, 4);
    assert (x << 4) << 4 == x << 8;
  }

  lemma Left10(x: bv32)
    ensures LeftBy(x, 10) == x << 10
  {
    hide LeftBy;
    Left8(x);
    LeftTwo(x << 8);
    LeftAdd(x, 8, 2);
    assert (x << 8) << 2 == x << 10;
  }

  lemma Left16(x: bv32)
    ensures LeftBy(x, 16) == x << 16
  {
    hide LeftBy;
    Left8(x);
    Left8(x << 8);
    LeftAdd(x, 8, 8);
    assert (x << 8) << 8 == x << 16;
  }

  lemma LeftShifts(x: bv32)
    ensures WordOf(x << 8) == Shl(WordOf(x), 8) && WordOf(x << 10) == Shl(WordOf(x), 10)
    ensures WordOf(x << 16) == Shl(WordOf(x), 16)
  {
    hide WordOf, LeftBy, Shl;
    Left8(x);
    Left10(x);
    Left16(x);
    LeftValue(x, 8);
    LeftValue(x, 10);
    LeftValue(x, 16);
  }

  lemma FirstRound(a: bv32, b: bv32, c: bv32) returns (a': bv32, b': bv32, c': bv32)
    ensures a' == LineOf(a, b, c, c >> 13) && b' == LineOf(b, c, a', a' << 8) && c' == LineOf(c, a', b', b' >> 13)
    ensures State(WordOf(a'), WordOf(b'), WordOf(c')) == Round(State(WordOf(a), WordOf(b), WordOf(c)), 13, 8, 13)
  {
    hide LineOf, WordOf, Line, Shl, ShiftRight;
    a' := LineOf(a, b, c, c >> 13);
    b' := LineOf(b, c, a', a' << 8);
    c' := LineOf(c, a', b', b' >> 13);
    RightShifts(c);
    LeftShifts(a');
    RightShifts(b');
    LineValue(a, b, c, c >> 13);
    LineValue(b, c, a', a' << 8);
    LineValue(c, a', b', b' >> 13);
  }

  lemma SecondRound(a: bv32, b: bv32, c: bv32) returns (a': bv32, b': bv32, c': bv32)
    ensures a' == LineOf(a, b, c, c >> 12) && b' == LineOf(b, c, a', a' << 16) && c' == LineOf(c, a', b', b' >> 5)
    ensures State(WordOf(a'), WordOf(b'), WordOf(c')) == Round(State(WordOf(a), WordOf(b), WordOf(c)), 12, 16, 5)
  {
    hide LineOf, WordOf, Line, Shl, ShiftRight;
    a' := LineOf(a, b, c, c >> 12);
    b' := LineOf(b, c, a', a' << 16);
    c' := LineOf(c, a', b', b' >> 5);
    RightShifts(c);
    LeftShifts(a');
    RightShifts(b');
    LineValue(a, b, c, c >> 12);
    LineValue(b, c, a', a' << 16);
    LineValue(c, a', b', b' >> 5);
  }

  lemma ThirdRound(a: bv32, b: bv32, c: bv32) returns (a': bv32, b': bv32, c': bv32)
    ensures a' == LineOf(a, b, c, c >> 3) && b' == LineOf(b, c, a', a' << 10) && c' == LineOf(c, a', b', b' >> 15)
    ensures State(WordOf(a'), WordOf(b'), WordOf(c')) == Round(State(WordOf(a), WordOf(b), WordOf(c)), 3, 10, 15)
  {
    hide LineOf, WordOf, Line, Shl, ShiftRight;
    a' := LineOf(a, b, c, c >> 3);
    b' := LineOf(b, c, a', a' << 10);
    c' := LineOf(c, a', b', b' >> 15);
    RightShifts(c);
    LeftShifts(a');
    RightShifts(b');
    LineValue(a, b, c, c >> 3);
    LineValue(b, c, a', a' << 10);
    LineValue(c, a', b', b' >> 15);
  }

  /** HASH_JEN_MIX on words is its nine lines on vectors. */
  lemma MixValue(a0: bv32, b0: bv32, c0: bv32)
    returns (a1: bv32, b1: bv32, c1: bv32, a2: bv32, b2: bv32, c2: bv32, a3: bv32, b3: bv32, c3: bv32)
    ensures a1 == LineOf(a0, b0, c0, c0 >> 13)
    ensures b1 == LineOf(b0, c0, a1, a1 << 8)
    ensures c1 == LineOf(c0, a1, b1, b1 >> 13)
    ensures a2 == LineOf(a1, b1, c1, c1 >> 12)
    ensures b2 == LineOf(b1, c1, a2, a2 << 16)
    ensures c2 == LineOf(c1, a2, b2, b2 >> 5)
    ensures a3 == LineOf(a2, b2, c2, c2 >> 3)
    ensures b3 == LineOf(b2, c2, a3, a3 << 10)
    ensures c3 == LineOf(c2, a3, b3, b3 >> 15)
    ensures Mix(State(WordOf(a0), WordOf(b0), WordOf(c0))) == State(WordOf(a3), WordOf(b3), WordOf(c3))
  {
    hide LineOf, WordOf, Round;
    a1, b1, c1 := FirstRound(a0, b0, c0);
    a2, b2, c2 := SecondRound(a1, b1, c1);
    a3, b3, c3 := ThirdRound(a2, b2, c2);
  }

  // Known hash values.

  /** Four binary digits. */
  function Digit(x: bv32): nat { Low(x) + 2 * Low(x >> 1) + 4 * Low(x >> 2) + 8 * Low(x >> 3) }

  lemma DigitStep(x: bv32, n: nat)
    requires n >= 4
    ensures Value(x, n) == Digit(x) + 16 * Value(x >> 4, n - 4)
  {
    hide Value, Low, Half;
    TwiceHalved(x);
    assert Half(x >> 3) == x >> 4 by { HalfOnce(x >> 3); assert (x >> 3) >> 1 == x >> 4; }
    Unfold(x, n);
    Unfold(Half(x), n - 1);
    Unfold(Half(Half(x)), n - 2);
    Unfold(x >> 3, n - 3);
  }

  lemma HalfOnce(x: bv32)
    ensures Half(x) == x >> 1
  {}

  function Digits(x: bv32, k: nat): nat
    decreases k
  {
    if k == 0 then 0 else Digit(x) + 16 * Digits(x >> 4, k - 1)
  }

  lemma {:induction false} DigitsValue(x: bv32, k: nat)
    ensures Value(x, 4 * k) == Digits(x, k)
    decreases k
  {
    hide Value, Digit;
    if k == 0 {
      NoBits(x);
    } else {
      DigitStep(x, 4 * k);
      DigitsValue(x >> 4, k - 1);
    }
  }

  lemma DigitsUnfold(x: bv32, k: nat)
    requires k > 0
    ensures Digits(x, k) == Digit(x) + 16 * Digits(x >> 4, k - 1)
  {}

  lemma NoDigits(x: bv32)
    ensures Digits(x, 0) == 0
  {}

  function ByteOf(x: bv32): nat { Digit(x) + 16 * Digit(x >> 4) }

  lemma ByteStep(x: bv32, k: nat)
    requires k >= 2
    ensures Digits(x, k) == ByteOf(x) + 256 * Digits(x >> 8, k - 2)
  {
    hide Digits, Digit;
    DigitsUnfold(x, k);
    DigitsUnfold(x >> 4, k - 1);
    assert (x >> 4) >> 4 == x >> 8;
  }

  /** The word of a vector, byte by byte. */
  lemma WordInBytes(x: bv32)
    ensures WordOf(x) == ByteOf(x) + 0x100 * ByteOf(x >> 8) + 0x1_0000 * ByteOf(x >> 16) + 0x100_0000 * ByteOf(x >> 24)
  {
    hide Value, Digits, ByteOf;
    DigitsValue(x, 8);
    ByteStep(x, 8);
    ByteStep(x >> 8, 6);
    assert (x >> 8) >> 8 == x >> 16;
    ByteStep(x >> 16, 4);
    assert (x >> 16) >> 8 == x >> 24;
    ByteStep(x >> 24, 2);
    NoDigits((x >> 24) >> 8);
  }

  lemma FourByteMix()
    ensures Mix(State(0x9e37_79ba, 0x9e37_79b9, 0xfeed_bef3)) == State(0x92e9_ac74, 0x19dd_c421, 0x6217_f7a5)
  {
    hide WordOf, Mix;
    WordInBytes(0x9e37_79ba);
    WordInBytes(0x9e37_79b9);
    WordInBytes(0xfeed_bef3);
    WordInBytes(0x92e9_ac74);
    WordInBytes(0x19dd_c421);
    WordInBytes(0x6217_f7a5);
    var a1, b1, c1, a2, b2, c2, a3, b3, c3 := MixValue(0x9e37_79ba, 0x9e37_79b9, 0xfeed_bef3);
    assert a1 == 0x115_b663 && b1 == 0x8b82_6763 && c1 == 0x7251_fd3e;
    assert a2 == 0x346_74dd && b2 == 0x6134_f548 && c2 == 0xedf_34b3;
    assert a3 == 0x92e9_ac74 && b3 == 0x19dd_c421 && c3 == 0x6217_f7a5;
  }

  lemma BlockMix()
    ensures Mix(State(0xa23a_7bba, 0xa63e_7fbe, 0xaf8_c8f8)) == State(0x38a5_4bbb, 0x76cc_088b, 0x8e4c_dee9)
  {
    hide WordOf, Mix;
    WordInBytes(0xa23a_7bba);
    WordInBytes(0xa63e_7fbe);
    WordInBytes(0xaf8_c8f8);
    WordInBytes(0x38a5_4bbb);
    WordInBytes(0x76cc_088b);
    WordInBytes(0x8e4c_dee9);
    var a1, b1, c1, a2, b2, c2, a3, b3, c3 := MixValue(0xa23a_7bba, 0xa63e_7fbe, 0xaf8_c8f8);
    assert a1 == 0xf103_64c2 && b1 == 0xa926_9004 && c1 == 0x70cb_9d06;
    assert a2 == 0xd716_3b01 && b2 == 0x5a45_b7fd && c2 == 0x3dbd_87b7;
    assert a3 == 0x38a5_4bbb && b3 == 0x76cc_088b && c3 == 0x8e4c_dee9;
  }

  lemma TwelveByteMix()
    ensures Mix(State(0x38a5_4bbb, 0x76cc_088b, 0x8e4c_def5)) == State(0x9cc9_7c0f, 0x5b9a_1a41, 0x9f47_346a)
  {
    hide WordOf, Mix;
    WordInBytes(0x38a5_4bbb);
    WordInBytes(0x76cc_088b);
    WordInBytes(0x8e4c_def5);
    WordInBytes(0x9cc9_7c0f);
    WordInBytes(0x5b9a_1a41);
    WordInBytes(0x9f47_346a);
    var a1, b1, c1, a2, b2, c2, a3, b3, c3 := MixValue(0x38a5_4bbb, 0x76cc_088b, 0x8e4c_def5);
    assert a1 == 0x3388_165d && b1 == 0x3ce1_4e39 && c1 == 0x1de2_9d55;
    assert a2 == 0xd8c5_f4e6 && b2 == 0xb2de_bbfe && c2 == 0x97ab_19ae;
    assert a3 == 0x9cc9_7c0f && b3 == 0x5b9a_1a41 && c3 == 0x9f47_346a;
  }

  lemma LongKeyMix()
    ensures Mix(State(0x48b4_59c8, 0x8adf_1a9c, 0xa562_f400)) == State(0x58f3_24d4, 0xfe2e_a471, 0x8728_63ac)
  {
    hide WordOf, Mix;
    WordInBytes(0x48b4_59c8);
    WordInBytes(0x8adf_1a9c);
    WordInBytes(0xa562_f400);
    WordInBytes(0x58f3_24d4);
    WordInBytes(0xfe2e_a471);
    WordInBytes(0x8728_63ac);
    var a1, b1, c1, a2, b2, c2, a3, b3, c3 := MixValue(0x48b4_59c8, 0x8adf_1a9c, 0xa562_f400);
    assert a1 == 0x1877_603b && b1 == 0xba64_fd61 && c1 == 0xd283_4543;
    assert a2 == 0x8b82_35a3 && b2 == 0x69fc_827b && c2 == 0xde4b_6936;
    assert a3 == 0x58f3_24d4 && b3 == 0xfe2e_a471 && c3 == 0x8728_63ac;
  }

  lemma ShortKey(t: State, key: seq<Byte>, keylen: nat)
    requires |key| < 12
    ensures FinalState(t, key, keylen) == Finish(t, key, keylen)
  {}

  lemma FullBlock(t: State, key: seq<Byte>, keylen: nat)
    requires |key| >= 12
    ensures FinalState(t, key, keylen) == FinalState(Absorb(t, key[..12]), key[12..], keylen)
  {
    hide Absorb, Finish;
  }

  lemma WordOfBytes(b0: Byte, b1: Byte, b2: Byte, b3: Byte)
    requires b1 == b2 == b3 == 0
    ensures LittleWord(b0, b1, b2, b3) == b0
  {}

  lemma FourByteWords(key: seq<Byte>)
    requires key == [1, 0, 0, 0]
    ensures Little(key, 0) == 1 && Little(key, 4) == 0 && Shifted(key) == 0
  {
    hide LittleWord;
    WordOfBytes(At(key, 0), At(key, 1), At(key, 2), At(key, 3));
    WordOfBytes(At(key, 4), At(key, 5), At(key, 6), At(key, 7));
    WordOfBytes(0, At(key, 8), At(key, 9), At(key, 10));
  }

  lemma FourByteAdds(x: Word, y: Word, z: Word)
    requires x == 1 && y == 0 && z == 0
    ensures Add(START.a, x) == 0x9e37_79ba && Add(START.b, y) == 0x9e37_79b9
    ensures Add(Add(START.c, 4 % WORD_RANGE), z) == 0xfeed_bef3
  {}

  lemma FourByteFinish(key: seq<Byte>)
    requires key == [1, 0, 0, 0]
    ensures Finish(START, key, 4) == State(0x92e9_ac74, 0x19dd_c421, 0x6217_f7a5)
  {
    hide Mix, Little, Shifted, Add;
    FourByteWords(key);
    FourByteAdds(Little(key, 0), Little(key, 4), Shifted(key));
    FourByteMix();
  }

  lemma FourByteHash(key: seq<Byte>)
    requires key == [1, 0, 0, 0]
    ensures HashValue(key) == 0x6217_f7a5
  {
    hide Finish, FinalState;
    ShortKey(START, key, 4);
    FourByteFinish(key);
  }

  lemma FiveBits()
    ensures Pow2(5) == 32
  {}

  /** The key of thread id 1 hashes to 0x6217f7a5, bucket 5 of 32. */
  lemma FourByteBucket(key: seq<Byte>)
    requires key == [1, 0, 0, 0]
    ensures HashValue(key) == 0x6217_f7a5 && And(HashValue(key), 31) == 5
  {
    hide HashValue, And, Pow2;
    FourByteHash(key);
    FiveBits();
    MaskIsRemainder(HashValue(key), 5);
  }

  lemma FirstBlock(key: seq<Byte>)
    requires |key| >= 12 && key[..12] == [1, 2, 3, 4, 5, 6, 7, 8, 9, 10, 11, 12]
    ensures Absorb(START, key[..12]) == State(0x38a5_4bbb, 0x76cc_088b, 0x8e4c_dee9)
  {
    hide Mix;
    BlockMix();
  }

  lemma TwelveByteFinish(t: State, rest: seq<Byte>)
    requires t == State(0x38a5_4bbb, 0x76cc_088b, 0x8e4c_dee9) && rest == []
    ensures Finish(t, rest, 12).c == 0x9f47_346a
  {
    hide Mix, LittleWord;
    WordOfBytes(At(rest, 0), At(rest, 1), At(rest, 2), At(rest, 3));
    WordOfBytes(At(rest, 4), At(rest, 5), At(rest, 6), At(rest, 7));
    WordOfBytes(0, At(rest, 8), At(rest, 9), At(rest, 10));
    TwelveByteMix();
  }

  lemma TwelveByteHash(key: seq<Byte>)
    requires key == [1, 2, 3, 4, 5, 6, 7, 8, 9, 10, 11, 12]
    ensures HashValue(key) == 0x9f47_346a
  {
    hide Mix, FinalState, Absorb, Finish;
    var rest := key[12..];
    FullBlock(START, key, 12);
    assert key[..12] == key;
    FirstBlock(key);
    var t := Absorb(START, key[..12]);
    ShortKey(t, rest, 12);
    TwelveByteFinish(t, rest);
  }

  lemma LongKeyHash(key: seq<Byte>)
    requires key == [1, 2, 3, 4, 5, 6, 7, 8, 9, 10, 11, 12, 13, 14, 15, 16, 17, 18, 19, 20, 21, 22, 23]
    ensures HashValue(key) == 0x8728_63ac
  {
    hide Mix, FinalState, Absorb;
    var rest := key[12..];
    assert rest == [13, 14, 15, 16, 17, 18, 19, 20, 21, 22, 23];
    FullBlock(START, key, 23);
    assert key[..12] == [1, 2, 3, 4, 5, 6, 7, 8, 9, 10, 11, 12];
    FirstBlock(key);
    ShortKey(State(0x38a5_4bbb, 0x76cc_088b, 0x8e4c_dee9), rest, 23);
    LongKeyMix();
  }
}
