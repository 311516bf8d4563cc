/** The string hash of the adaptive filter: its closed form, and which strings collide under it. */
module AdaptiveHash {
  import opened Words

  /** A C string without its terminating zero. */
  type Str = s: seq<Byte> | 0 !in s witness []

  const ULONG := 0x1_0000_0000_0000_0000

  /** The hash loop of kieker_adaptive_hash, entered with `hash`. */
  function HashFrom(hash: nat, s: seq<Byte>): (h: nat)
    requires hash < ULONG
    ensures h < ULONG
    decreases |s|
  {
    if s == [] then hash else HashFrom((hash * 33 + s[0]) % ULONG, s[1..])
  }

  function NameHash(s: seq<Byte>): (h: nat)
    ensures h < ULONG
  {
    HashFrom(5381, s)
  }

  /** 33^n. */
  function Power33(n: nat): (p: nat)
    ensures p >= 1
  {
    if n == 0 then 1 else 33 * Power33(n - 1)
  }

  /** The sum of s[i] * 33^(|s| - 1 - i). */
  function Poly(s: seq<Byte>): nat
  {
    if s == [] then 0 else s[0] * Power33(|s| - 1) + Poly(s[1..])
  }

  lemma Congruent(a: int, b: int, c: int)
    ensures ((a % ULONG) * b + c) % ULONG == (a * b + c) % ULONG
  {
    var q, r := a / ULONG, a % ULONG;
    assert a * b + c == (q * b) * ULONG + (r * b + c) by { assert (q * ULONG + r) * b == (q * b) * ULONG + r * b; }
    ShiftedRemainder(q * b, r * b + c);
  }

  lemma ShiftedRemainder(k: int, x: int)
    ensures (k * ULONG + x) % ULONG == x % ULONG
  {}

  /** The hash loop is a polynomial modulo 2^64. */
  lemma {:induction false} HashIsPolynomial(hash: nat, s: seq<Byte>)
    requires hash < ULONG
    ensures HashFrom(hash, s) == (hash * Power33(|s|) + Poly(s)) % ULONG
    decreases |s|, 1
  {
    if s == [] {
      assert Power33(0) == 1;
    } else {
      Unfold(hash, s);
      PolynomialStep(hash, s);
    }
  }

  lemma Unfold(hash: nat, s: seq<Byte>)
    requires hash < ULONG && s != []
    ensures HashFrom(hash, s) == HashFrom((hash * 33 + s[0]) % ULONG, s[1..])
    ensures Power33(|s|) == 33 * Power33(|s| - 1) && Poly(s) == s[0] * Power33(|s| - 1) + Poly(s[1..])
  {}

  lemma PolynomialStep(hash: nat, s: seq<Byte>)
    requires hash < ULONG && s != []
    ensures HashFrom((hash * 33 + s[0]) % ULONG, s[1..]) == (hash * Power33(|s|) + Poly(s)) % ULONG
    decreases |s|, 0
  {
    hide HashFrom, Poly, Power33;
    var p := Power33(|s| - 1);
    Unfold(hash, s);
    HashIsPolynomial((hash * 33 + s[0]) % ULONG, s[1..]);
    Congruent(hash * 33 + s[0], p, Poly(s[1..]));
    Regroup(hash, s[0], p);
  }

  lemma Regroup(h: nat, c: nat, p: nat)
    ensures (h * 33 + c) * p == h * (33 * p) + c * p
  {}

  /** Concatenation law of the hash. */
  lemma HashOfConcatenation(s: seq<Byte>, t: seq<Byte>)
    ensures NameHash(s + t) == (NameHash(s) * Power33(|t|) + Poly(t)) % ULONG
  {
    hide HashFrom, Poly, Power33;
    HashInTwo(5381, s, t);
    HashIsPolynomial(NameHash(s), t);
  }

  lemma {:induction false} HashInTwo(hash: nat, s: seq<Byte>, t: seq<Byte>)
    requires hash < ULONG
    ensures HashFrom(hash, s + t) == HashFrom(HashFrom(hash, s), t)
    decreases |s|
  {
    if s == [] {
      assert s + t == t;
    } else {
      assert (s + t)[1..] == s[1..] + t;
      HashInTwo((hash * 33 + s[0]) % ULONG, s[1..], t);
    }
  }

  /** kieker_adaptive_hash. */
  method Hash(str: Str) returns (hash: nat)
    ensures hash == NameHash(str)
  {
    hash := 5381;
    var i := 0;
    while i < |str|
      invariant i <= |str| && hash < ULONG
      invariant HashFrom(hash, str[i..]) == NameHash(str)
    {
      var c := str[i];
      assert str[i..][1..] == str[i + 1..];
      Congruent(hash * 32, 1, hash);
      Congruent(hash * 33, 1, c);
      hash := (((hash * 32) % ULONG + hash) % ULONG + c) % ULONG;
      i := i + 1;
    }
  }

  // What separates two strings.

  /** The inverse of 33 modulo 2^64. */
  const INVERSE33 := 0xf83_e0f8_3e0f_83e1

  lemma SameRemainder(a: int, b: int)
    ensures a % ULONG == b % ULONG <==> (a - b) % ULONG == 0
  {}

  lemma MultipleInRange(d: int)
    requires -ULONG < d < ULONG && d % ULONG == 0
    ensures d == 0
  {}

  lemma TimesRemainder(a: int, b: int)
    requires a % ULONG == 0
    ensures (a * b) % ULONG == 0
  {
    Congruent(a, b, 0);
    assert 0 * b == 0;
  }

  /** Multiplying by 33 loses nothing modulo 2^64. */
  lemma Times33Injective(d: int)
    requires (33 * d) % ULONG == 0
    ensures d % ULONG == 0
  {
    TimesRemainder(33 * d, INVERSE33);
    assert 33 * INVERSE33 == 2 * ULONG + 1;
    assert 33 * d * INVERSE33 == (2 * d) * ULONG + d;
    ShiftedRemainder(2 * d, d);
  }

  /** Different registers stay different whatever characters follow. */
  lemma {:induction false} RegistersStayDifferent(h: nat, k: nat, s: seq<Byte>)
    requires h < ULONG && k < ULONG && h != k
    ensures HashFrom(h, s) != HashFrom(k, s)
    decreases |s|
  {
    if s != [] {
      var h', k' := (h * 33 + s[0]) % ULONG, (k * 33 + s[0]) % ULONG;
      if h' == k' {
        SameRemainder(h * 33 + s[0], k * 33 + s[0]);
        Times33Injective(h - k);
        MultipleInRange(h - k);
      }
      RegistersStayDifferent(h', k', s[1..]);
    }
  }

  /** A common beginning and a common end cancel: only the strings between them decide. */
  lemma PrefixAndSuffixCancel(p: seq<Byte>, x: seq<Byte>, y: seq<Byte>, t: seq<Byte>)
    ensures NameHash(p + x + t) == NameHash(p + y + t) <==> HashFrom(NameHash(p), x) == HashFrom(NameHash(p), y)
  {
    HashInTwo(5381, p + x, t);
    HashInTwo(5381, p, x);
    HashInTwo(5381, p + y, t);
    HashInTwo(5381, p, y);
    if HashFrom(NameHash(p), x) != HashFrom(NameHash(p), y) {
      RegistersStayDifferent(HashFrom(NameHash(p), x), HashFrom(NameHash(p), y), t);
    }
  }

  /** What a string weighs: its polynomial behind the initial register, before any reduction. */
  function Weight(s: seq<Byte>): nat { 5381 * Power33(|s|) + Poly(s) }

  /** Two strings collide exactly when 2^64 divides the difference of their weights. */
  lemma CollideExactly(s: seq<Byte>, t: seq<Byte>)
    ensures NameHash(s) == NameHash(t) <==> (Weight(s) - Weight(t)) % ULONG == 0
  {
    hide HashFrom, Poly, Power33;
    HashIsPolynomial(5381, s);
    HashIsPolynomial(5381, t);
    SameRemainder(Weight(s), Weight(t));
  }

  /** The polynomial of `n` characters is below 255 / 32 * 33^n. */
  lemma {:induction false} PolyBound(s: seq<Byte>)
    ensures 32 * Poly(s) <= 255 * (Power33(|s|) - 1)
  {
    if s != [] {
      var p := Power33(|s| - 1);
      PolyBound(s[1..]);
      ByteTimes(s[0], p);
    }
  }

  lemma ByteTimes(b: Byte, p: nat)
    ensures 0 <= b * p <= 255 * p
  {}

  lemma {:induction false} Power33Monotone(m: nat, n: nat)
    requires m <= n
    ensures Power33(m) <= Power33(n)
  {
    if m < n {
      Power33Monotone(m, n - 1);
    }
  }

  lemma Power33Values()
    ensures Power33(2) == 1089 && Power33(12) == 1667889514952984961 && Power33(13) == 55040353993448503713
  {
    assert Power33(2) == 33 * Power33(1);
    assert Power33(4) == 33 * (33 * Power33(2));
    assert Power33(6) == 33 * (33 * Power33(4));
    assert Power33(8) == 33 * (33 * Power33(6));
    assert Power33(10) == 33 * (33 * Power33(8));
    assert Power33(12) == 33 * (33 * Power33(10));
    assert Power33(13) == 33 * Power33(12);
  }

  /** Strings of the same length, wherever they stand: they collide exactly when their polynomials are congruent, and up
      to twelve characters exactly when their polynomials are equal. */
  lemma SameLengthCollideExactly(p: seq<Byte>, x: seq<Byte>, y: seq<Byte>, t: seq<Byte>)
    requires |x| == |y|
    ensures NameHash(p + x + t) == NameHash(p + y + t) <==> (Poly(x) - Poly(y)) % ULONG == 0
    ensures |x| <= 12 ==> (NameHash(p + x + t) == NameHash(p + y + t) <==> Poly(x) == Poly(y))
  {
    hide HashFrom, NameHash, Poly, Power33;
    PrefixAndSuffixCancel(p, x, y, t);
    SameStart(NameHash(p), x, y);
    if |x| <= 12 {
      ShortPoly(x);
      ShortPoly(y);
      if (Poly(x) - Poly(y)) % ULONG == 0 {
        MultipleInRange(Poly(x) - Poly(y));
      }
    }
  }

  lemma SameStart(h: nat, x: seq<Byte>, y: seq<Byte>)
    requires h < ULONG && |x| == |y|
    ensures HashFrom(h, x) == HashFrom(h, y) <==> (Poly(x) - Poly(y)) % ULONG == 0
  {
    hide HashFrom, Poly, Power33;
    HashIsPolynomial(h, x);
    HashIsPolynomial(h, y);
    SameRemainder(h * Power33(|x|) + Poly(x), h * Power33(|x|) + Poly(y));
  }

  lemma ShortPoly(x: seq<Byte>)
    requires |x| <= 12
    ensures Poly(x) < ULONG
  {
    hide Poly, Power33;
    PolyBound(x);
    Power33Monotone(|x|, 12);
    Power33Values();
  }

  /** Names that differ in exactly one character never collide, however long they are. */
  lemma OneByteApart(s: seq<Byte>, i: nat, b: Byte)
    requires i < |s| && b != s[i]
    ensures NameHash(s[i := b]) != NameHash(s)
  {
    assert s == s[..i] + [s[i]] + s[i + 1..] && s[i := b] == s[..i] + [b] + s[i + 1..];
    PolyOne(b);
    PolyOne(s[i]);
    SameLengthCollideExactly(s[..i], [b], [s[i]], s[i + 1..]);
  }

  lemma PolyOne(b: Byte)
    ensures Poly([b]) == b
  {
    assert [b][1..] == [] && Power33(0) == 1;
  }

  /** The characters of the two strings are pairwise less than 33 apart. */
  predicate Close(x: seq<Byte>, y: seq<Byte>)
  {
    |x| == |y| && forall i :: 0 <= i < |x| ==> -33 < x[i] as int - y[i] as int < 33
  }

  /** Strings of up to twelve characters that are pairwise less than 33 apart, as letters of one case are, do not
      collide wherever they stand. */
  lemma CloseNamesDiffer(p: seq<Byte>, x: seq<Byte>, y: seq<Byte>, t: seq<Byte>)
    requires Close(x, y) && x != y && |x| <= 12
    ensures NameHash(p + x + t) != NameHash(p + y + t)
  {
    CloseAreDigits(x, y);
    SameLengthCollideExactly(p, x, y, t);
  }

  lemma {:induction false} CloseAreDigits(x: seq<Byte>, y: seq<Byte>)
    requires Close(x, y)
    ensures Poly(x) < Poly(y) + Power33(|x|) && Poly(y) < Poly(x) + Power33(|x|)
    ensures Poly(x) == Poly(y) ==> x == y
  {
    if x != [] {
      CloseAreDigits(x[1..], y[1..]);
      DigitAhead(x[0], y[0], Power33(|x| - 1), Poly(x[1..]), Poly(y[1..]));
      assert x == [x[0]] + x[1..] && y == [y[0]] + y[1..];
    }
  }

  lemma DigitAhead(a: Byte, b: Byte, p: nat, u: nat, v: nat)
    requires -33 < a as int - b as int < 33 && u < v + p && v < u + p
    ensures a * p + u < b * p + v + 33 * p && b * p + v < a * p + u + 33 * p
    ensures a * p + u == b * p + v ==> a == b && u == v
  {
    var d: int := a as int - b as int;
    assert a * p - b * p == d * p;
    DigitTimes(d, p);
  }

  lemma DigitTimes(d: int, p: nat)
    requires -33 < d < 33
    ensures -32 * (p as int) <= d * p <= 32 * p
    ensures d >= 1 ==> d * p >= p
    ensures d <= -1 ==> d * p + p <= 0
  {}

  // Every value is a hash.

  /** The last `n` digits of `w` to the base 33, as the characters 1, ..., 33. */
  function Digits(w: nat, n: nat): (s: Str)
    ensures |s| == n
  {
    if n == 0 then [] else Digits(w / 33, n - 1) + [1 + w % 33]
  }

  lemma {:induction false} PolySnoc(s: seq<Byte>, b: Byte)
    ensures Poly(s + [b]) == 33 * Poly(s) + b
  {
    if s == [] {
      assert s + [b] == [b];
      PolyOne(b);
    } else {
      assert (s + [b])[1..] == s[1..] + [b];
      PolySnoc(s[1..], b);
      Shift33(s[0], Power33(|s| - 1));
    }
  }

  lemma Shift33(b: nat, p: nat)
    ensures b * (33 * p) == 33 * (b * p)
  {}

  lemma {:induction false} PolyOfDigits(w: nat, n: nat)
    requires w < Power33(n)
    ensures 32 * Poly(Digits(w, n)) == 32 * w + Power33(n) - 1
  {
    if n > 0 {
      PolyOfDigits(w / 33, n - 1);
      PolySnoc(Digits(w / 33, n - 1), 1 + w % 33);
    }
  }

  lemma {:induction false} OnesDivide(n: nat) returns (q: nat)
    ensures Power33(n) - 1 == 32 * q
  {
    if n == 0 {
      q := 0;
    } else {
      q := OnesDivide(n - 1);
      q := 33 * q + 1;
    }
  }

  /** The hash is onto: from any register every value is reached, by a string of any length from thirteen on. */
  lemma HashIsOnto(h: nat, target: nat, n: nat) returns (s: Str)
    requires h < ULONG && target < ULONG && n >= 13
    ensures |s| == n && HashFrom(h, s) == target
  {
    hide HashFrom, Poly, Power33, Digits;
    var ones := OnesDivide(n);
    var w := Remainder(target - h * Power33(n) - ones);
    Power33Values();
    Power33Monotone(13, n);
    s := Digits(w, n);
    PolyOfDigits(w, n);
    HashIsPolynomial(h, s);
    assert Poly(s) == w + ones;
    SameRemainder(h * Power33(n) + (w + ones), target);
    SameRemainder(w, target - h * Power33(n) - ones);
  }

  function Remainder(a: int): (r: nat)
    ensures r < ULONG && r % ULONG == a % ULONG
  {
    a % ULONG
  }

  // Known values.

  lemma HashStep(hash: nat, c: Byte, next: nat, s: seq<Byte>, k: nat)
    requires hash < ULONG && k < |s| && s[k] == c && next == (hash * 33 + c) % ULONG
    ensures HashFrom(hash, s[k..]) == HashFrom(next, s[k + 1..])
  {
    assert s[k..][1..] == s[k + 1..];
  }

  lemma Package(s: seq<Byte>)
    requires |s| == 16 && s[0..4] == [106, 97, 118, 97]
    ensures HashFrom(5381, s[0..]) == HashFrom(6385359847, s[4..])
  {
    hide HashFrom;
    assert s[0] == s[0..4][0];
    assert s[1] == s[0..4][1];
    assert s[2] == s[0..4][2];
    assert s[3] == s[0..4][3];
    HashStep(5381, 106, 177679, s, 0);
    HashStep(177679, 97, 5863504, s, 1);
    HashStep(5863504, 118, 193495750, s, 2);
    HashStep(193495750, 97, 6385359847, s, 3);
  }

  lemma SubPackage(s: seq<Byte>)
    requires |s| == 16 && s[4..10] == [46, 108, 97, 110, 103, 46]
    ensures HashFrom(6385359847, s[4..]) == HashFrom(8246487714871157413, s[10..])
  {
    hide HashFrom;
    assert s[4] == s[4..10][0];
    assert s[5] == s[4..10][1];
    assert s[6] == s[4..10][2];
    assert s[7] == s[4..10][3];
    assert s[8] == s[4..10][4];
    assert s[9] == s[4..10][5];
    HashStep(6385359847, 46, 210716874997, s, 4);
    HashStep(210716874997, 108, 6953656875009, s, 5);
    HashStep(6953656875009, 97, 229470676875394, s, 6);
    HashStep(229470676875394, 110, 7572532336888112, s, 7);
    HashStep(7572532336888112, 103, 249893567117307799, s, 8);
    HashStep(249893567117307799, 46, 8246487714871157413, s, 9);
  }

  lemma ClassName(s: seq<Byte>)
    requires |s| == 16 && s[10..16] == [79, 98, 106, 101, 99, 116]
    ensures HashFrom(8246487714871157413, s[10..]) == HashFrom(9953754338162643068, s[16..])
  {
    hide HashFrom;
    assert s[10] == s[10..16][0];
    assert s[11] == s[10..16][1];
    assert s[12] == s[10..16][2];
    assert s[13] == s[10..16][3];
    assert s[14] == s[10..16][4];
    assert s[15] == s[10..16][5];
    HashStep(8246487714871157413, 79, 13879677558814472084, s, 10);
    HashStep(13879677558814472084, 98, 15307501671848340086, s, 11);
    HashStep(15307501671848340086, 106, 7085465180837329312, s, 12);
    HashStep(7085465180837329312, 101, 12459422083117248005, s, 13);
    HashStep(12459422083117248005, 99, 5332559121259048712, s, 14);
    HashStep(5332559121259048712, 116, 9953754338162643068, s, 15);
  }

  /** The hash of "java.lang.Object", in the course of which the register wraps around. */
  lemma KnownNameHash(s: Str)
    requires s == [106, 97, 118, 97, 46, 108, 97, 110, 103, 46, 79, 98, 106, 101, 99, 116]
    ensures NameHash(s) == 9953754338162643068
  {
    hide HashFrom;
    assert s[0..] == s && s[16..] == [];
    Package(s);
    SubPackage(s);
    ClassName(s);
    EndOfName(9953754338162643068, s[16..]);
  }

  lemma EndOfName(hash: nat, s: seq<Byte>)
    requires hash < ULONG && s == []
    ensures HashFrom(hash, s) == hash
  {}
}
