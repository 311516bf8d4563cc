/** 32-bit machine words and the C operators on them that uthash uses.  The
    operators are defined on integers, bit by bit where C works bit by bit, so
    that hash arithmetic and array indices live in the same type. */
module Words {

  const WORD_RANGE := 0x1_0000_0000

  type Byte = b: int | 0 <= b < 256
  type Word = w: int | 0 <= w < 0x1_0000_0000

  function Pow2(k: nat): (p: nat)
    ensures p >= 1
  {
    if k == 0 then 1 else 2 * Pow2(k - 1)
  }

  /** `a + b`, modulo 2^32. */
  function Add(a: Word, b: Word): Word { (a + b) % WORD_RANGE }

  /** `a - b`, modulo 2^32. */
  function Sub(a: Word, b: Word): Word { (a - b) % WORD_RANGE }

  /** `a << k`, modulo 2^32. */
  function Shl(a: Word, k: nat): Word { (a * Pow2(k)) % WORD_RANGE }

  /** `a >> k`. */
  function Shr(a: nat, k: nat): (r: nat)
    ensures r <= a
  {
    if k == 0 then a else Shr(a / 2, k - 1)
  }

  /** `a & b`. */
  function And(a: nat, b: nat): (r: nat)
    ensures r <= a && r <= b
  {
    if a == 0 || b == 0 then 0
    else 2 * And(a / 2, b / 2) + (if a % 2 == 1 && b % 2 == 1 then 1 else 0)
  }

  /** `a ^ b`, on operands of `n` bits. */
  function XorBits(a: nat, b: nat, n: nat): (r: nat)
    requires a < Pow2(n) && b < Pow2(n)
    ensures r < Pow2(n)
  {
    if n == 0 then 0
    else 2 * XorBits(a / 2, b / 2, n - 1) + (if a % 2 == b % 2 then 0 else 1)
  }

  lemma {:induction false} XorBitsCancels(a: nat, b: nat, n: nat)
    requires a < Pow2(n) && b < Pow2(n)
    ensures XorBits(XorBits(a, b, n), b, n) == a
  {
    if n > 0 {
      XorBitsCancels(a / 2, b / 2, n - 1);
    }
  }

  lemma WordBits()
    ensures Pow2(32) == WORD_RANGE
  {
    assert Pow2(8) == 256;
    assert Pow2(16) == 65536;
    assert Pow2(24) == 0x100_0000;
  }

  function Xor(a: Word, b: Word): Word
  {
    WordBits();
    XorBits(a, b, 32)
  }

  lemma XorCancels(a: Word, b: Word)
    ensures Xor(Xor(a, b), b) == a
  {
    WordBits();
    XorBitsCancels(a, b, 32);
  }

  lemma SubCancels(a: Word, b: Word)
    ensures Add(Sub(a, b), b) == a && Sub(Add(a, b), b) == a
  {}

  /** Masking with 2^k - 1 is the remainder modulo 2^k: the fact behind every
      bucket computation of uthash. */
  lemma {:induction false} MaskIsRemainder(a: nat, k: nat)
    ensures And(a, Pow2(k) - 1) == a % Pow2(k)
  {
    if k == 0 {
      assert Pow2(k) == 1;
    } else {
      var p := Pow2(k - 1);
      calc {
        And(a, Pow2(k) - 1);
        { assert Pow2(k) - 1 == 2 * (p - 1) + 1; }
        And(a, 2 * (p - 1) + 1);
        { AndOdd(a, p - 1); }
        2 * And(a / 2, p - 1) + a % 2;
        { MaskIsRemainder(a / 2, k - 1); }
        2 * ((a / 2) % p) + a % 2;
        { RemainderSplits(a, p); }
        a % (2 * p);
      }
    }
  }

  lemma AndOdd(a: nat, b: nat)
    ensures And(a, 2 * b + 1) == 2 * And(a / 2, b) + a % 2
  {}

  lemma RemainderSplits(a: nat, p: nat)
    requires p > 0
    ensures a % (2 * p) == 2 * ((a / 2) % p) + a % 2
  {
    var q, r := (a / 2) / p, (a / 2) % p;
    assert a == 2 * (q * p + r) + a % 2;
    assert a == q * (2 * p) + (2 * r + a % 2);
    RemainderUnique(a, 2 * p, q, 2 * r + a % 2);
  }

  lemma RemainderUnique(a: int, m: int, q: int, r: int)
    requires m > 0 && 0 <= r < m && a == q * m + r
    ensures a / m == q && a % m == r
  {
    var d := q - a / m;
    assert d * m == a % m - r by {
      assert d * m == q * m - (a / m) * m;
    }
    if d >= 1 {
      MulGrows(d, m);
    } else if d <= -1 {
      MulGrows(-d, m);
    }
  }

  lemma MulGrows(d: int, m: int)
    requires d >= 1 && m > 0
    ensures d * m >= m
  {}

  /** Shifting right by k is the quotient by 2^k. */
  lemma {:induction false} ShiftIsQuotient(a: nat, k: nat)
    ensures Shr(a, k) == a / Pow2(k)
  {
    if k > 0 {
      ShiftIsQuotient(a / 2, k - 1);
      HalfQuotient(a, Pow2(k - 1));
    }
  }

  lemma HalfQuotient(a: nat, p: nat)
    requires p > 0
    ensures (a / 2) / p == a / (2 * p)
  {
    var q, r := (a / 2) / p, (a / 2) % p;
    assert a == 2 * (q * p + r) + a % 2;
    assert a == q * (2 * p) + (2 * r + a % 2);
    RemainderUnique(a, 2 * p, q, 2 * r + a % 2);
  }
}
