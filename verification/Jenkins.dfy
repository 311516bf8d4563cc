/** HASH_JEN and HASH_JEN_MIX: the Jenkins hash behind the bucket index. */
module Jenkins {
  import opened Words

  /** The three registers of the hash: `_hj_i`, `_hj_j` and `hashv`. */
  datatype State = State(a: Word, b: Word, c: Word)

  // One line of the mix, `x -= y; x -= z; x ^= s`, and its undoing.

  function Line(x: Word, y: Word, z: Word, s: Word): Word
  {
    Xor(Sub(Sub(x, y), z), s)
  }

  function UndoLine(x: Word, y: Word, z: Word, s: Word): Word
  {
    Add(Add(Xor(x, s), z), y)
  }

  lemma LineUndone(x: Word, y: Word, z: Word, s: Word)
    ensures UndoLine(Line(x, y, z, s), y, z, s) == x
    ensures Line(UndoLine(x, y, z, s), y, z, s) == x
  {
    XorCancels(Sub(Sub(x, y), z), s);
    SubCancels(Sub(x, y), z);
    SubCancels(x, y);
    SubCancels(Add(Xor(x, s), z), y);
    SubCancels(Xor(x, s), z);
    XorCancels(x, s);
  }

  /** `x >> k` as a word. */
  function ShiftRight(x: Word, k: nat): Word { Shr(x, k) }

  /** Three lines of HASH_JEN_MIX: shifts right by `k`, left by `l` and right by `m`. */
  function Round(t: State, k: nat, l: nat, m: nat): State
  {
    var a := Line(t.a, t.b, t.c, ShiftRight(t.c, k));
    var b := Line(t.b, t.c, a, Shl(a, l));
    State(a, b, Line(t.c, a, b, ShiftRight(b, m)))
  }

  function UndoRound(t: State, k: nat, l: nat, m: nat): State
  {
    var c := UndoLine(t.c, t.a, t.b, ShiftRight(t.b, m));
    var b := UndoLine(t.b, c, t.a, Shl(t.a, l));
    State(UndoLine(t.a, b, c, ShiftRight(c, k)), b, c)
  }

  lemma RoundUndone(t: State, k: nat, l: nat, m: nat)
    ensures UndoRound(Round(t, k, l, m), k, l, m) == t
    ensures Round(UndoRound(t, k, l, m), k, l, m) == t
  {
    hide Line, UndoLine, Shl, ShiftRight;
    var r := Round(t, k, l, m);
    LineUndone(t.a, t.b, t.c, ShiftRight(t.c, k));
    LineUndone(t.b, t.c, r.a, Shl(r.a, l));
    LineUndone(t.c, r.a, r.b, ShiftRight(r.b, m));
    var u := UndoRound(t, k, l, m);
    LineUndone(t.c, t.a, t.b, ShiftRight(t.b, m));
    LineUndone(t.b, u.c, t.a, Shl(t.a, l));
    LineUndone(t.a, u.b, u.c, ShiftRight(u.c, k));
  }

  /** HASH_JEN_MIX. */
  function Mix(t: State): State
  {
    Round(Round(Round(t, 13, 8, 13), 12, 16, 5), 3, 10, 15)
  }

  function Unmix(t: State): State
  {
    UndoRound(UndoRound(UndoRound(t, 3, 10, 15), 12, 16, 5), 13, 8, 13)
  }

  /** The mix is a bijection on triples of words, with an explicit inverse. */
  lemma MixIsBijective(t: State)
    ensures Unmix(Mix(t)) == t && Mix(Unmix(t)) == t
  {
    hide Round, UndoRound;
    var r1 := Round(t, 13, 8, 13);
    var r2 := Round(r1, 12, 16, 5);
    RoundUndone(t, 13, 8, 13);
    RoundUndone(r1, 12, 16, 5);
    RoundUndone(r2, 3, 10, 15);
    var u3 := UndoRound(t, 3, 10, 15);
    var u2 := UndoRound(u3, 12, 16, 5);
    RoundUndone(t, 3, 10, 15);
    RoundUndone(u3, 12, 16, 5);
    RoundUndone(u2, 13, 8, 13);
  }

  // The specification: little-endian words, the last block padded with zeros.

  function At(s: seq<Byte>, i: nat): Byte { if i < |s| then s[i] else 0 }

  function LittleWord(b0: Byte, b1: Byte, b2: Byte, b3: Byte): Word
  {
    0x100_0000 * b3 + 0x1_0000 * b2 + 0x100 * b1 + b0
  }

  /** Bytes `i`, ..., `i + 3` of `s` as a little-endian word. */
  function Little(s: seq<Byte>, i: nat): Word
  {
    LittleWord(At(s, i), At(s, i + 1), At(s, i + 2), At(s, i + 3))
  }

  /** Bytes 8, 9 and 10 of `s` as the upper three bytes of a word. */
  function Shifted(s: seq<Byte>): Word
  {
    LittleWord(0, At(s, 8), At(s, 9), At(s, 10))
  }

  /** Adds a full block of twelve bytes and mixes. */
  function Absorb(t: State, block: seq<Byte>): State
  {
    Mix(State(Add(t.a, Little(block, 0)), Add(t.b, Little(block, 4)), Add(t.c, Little(block, 8))))
  }

  /** Adds the last, short block and the key length; the lowest byte of `c` is left to the length. */
  function Finish(t: State, rest: seq<Byte>, keylen: nat): State
  {
    Mix(State(Add(t.a, Little(rest, 0)), Add(t.b, Little(rest, 4)),
              Add(Add(t.c, keylen % WORD_RANGE), Shifted(rest))))
  }

  function FinalState(t: State, key: seq<Byte>, keylen: nat): State
    decreases |key|
  {
    hide Absorb, Finish;
    if |key| >= 12 then FinalState(Absorb(t, key[..12]), key[12..], keylen) else Finish(t, key, keylen)
  }

  const START := State(0x9e37_79b9, 0x9e37_79b9, 0xfeed_beef)

  /** The value HASH_JEN leaves in `hashv`. */
  function HashValue(key: seq<Byte>): Word
  {
    FinalState(START, key, |key|).c
  }

  /** HASH_JEN: word-wise over full blocks, then byte by byte through the falling switch. */
  method Jen(key: seq<Byte>, numBuckets: nat) returns (hashv: Word, bkt: nat)
    requires numBuckets > 0
    ensures hashv == HashValue(key)
    ensures bkt == And(hashv, numBuckets - 1) < numBuckets
  {
    hide Mix, LittleWord, Add, And, Little, Shifted;
    var i, j := 0x9e37_79b9, 0x9e37_79b9;
    hashv := 0xfeed_beef;
    var off, k := 0, |key|;
    assert key[0..] == key;
    while k >= 12
      invariant 0 <= off && k >= 0 && off + k == |key|
      invariant FinalState(State(i, j, hashv), key[off..], |key|) == FinalState(START, key, |key|)
    {
      BlockAt(key, off);
      i := Add(i, LittleWord(key[off], key[off + 1], key[off + 2], key[off + 3]));
      j := Add(j, LittleWord(key[off + 4], key[off + 5], key[off + 6], key[off + 7]));
      hashv := Add(hashv, LittleWord(key[off + 8], key[off + 9], key[off + 10], key[off + 11]));
      var t := Mix(State(i, j, hashv));
      i, j, hashv := t.a, t.b, t.c;
      off, k := off + 12, k - 12;
    }
    hashv := Add(hashv, |key| % WORD_RANGE);
    var rest := key[off..];
    hashv := SwitchHash(hashv, rest);
    j := SwitchSecond(j, rest);
    i := SwitchFirst(i, rest);
    var t := Mix(State(i, j, hashv));
    hashv := t.c;
    bkt := And(hashv, numBuckets - 1);
  }

  lemma BlockAt(key: seq<Byte>, off: nat)
    requires off + 12 <= |key|
    ensures key[off..][12..] == key[off + 12..]
    ensures var b := key[off..][..12];
            && Little(b, 0) == LittleWord(key[off], key[off + 1], key[off + 2], key[off + 3])
            && Little(b, 4) == LittleWord(key[off + 4], key[off + 5], key[off + 6], key[off + 7])
            && Little(b, 8) == LittleWord(key[off + 8], key[off + 9], key[off + 10], key[off + 11])
  {
    hide LittleWord;
  }

  // The falling switch of HASH_JEN, register by register.

  method SwitchHash(hashv: Word, key: seq<Byte>) returns (r: Word)
    requires |key| < 12
    ensures r == Add(hashv, Shifted(key))
  {
    hide Add, AddShifted;
    var b0, b1, b2 := 0x100 * At(key, 8), 0x1_0000 * At(key, 9), 0x100_0000 * At(key, 10);
    AddZero(hashv);
    r := hashv;
    if |key| >= 11 { r := AddShifted(r, key[10], 24); }
    assert r == Add(hashv, b2);
    AddAgain(hashv, b2, b1);
    AddZero(r);
    if |key| >= 10 { r := AddShifted(r, key[9], 16); }
    assert r == Add(hashv, b2 + b1);
    AddAgain(hashv, b2 + b1, b0);
    AddZero(r);
    if |key| >= 9 { r := AddShifted(r, key[8], 8); }
    assert r == Add(hashv, b2 + b1 + b0);
  }

  method SwitchSecond(j: Word, key: seq<Byte>) returns (r: Word)
    requires |key| < 12
    ensures r == Add(j, Little(key, 4))
  {
    hide Add, AddShifted;
    var b1, b2, b3 := 0x100 * At(key, 5), 0x1_0000 * At(key, 6), 0x100_0000 * At(key, 7);
    AddZero(j);
    r := j;
    if |key| >= 8 { r := AddShifted(r, key[7], 24); }
    AddAgain(j, b3, b2);
    AddZero(r);
    if |key| >= 7 { r := AddShifted(r, key[6], 16); }
    AddAgain(j, b3 + b2, b1);
    AddZero(r);
    if |key| >= 6 { r := AddShifted(r, key[5], 8); }
    AddAgain(j, b3 + b2 + b1, At(key, 4));
    AddZero(r);
    if |key| >= 5 { r := Add(r, key[4]); }
  }

  method SwitchFirst(i: Word, key: seq<Byte>) returns (r: Word)
    requires |key| < 12
    ensures r == Add(i, Little(key, 0))
  {
    hide Add, AddShifted;
    var b1, b2, b3 := 0x100 * At(key, 1), 0x1_0000 * At(key, 2), 0x100_0000 * At(key, 3);
    AddZero(i);
    r := i;
    if |key| >= 4 { r := AddShifted(r, key[3], 24); }
    AddAgain(i, b3, b2);
    AddZero(r);
    if |key| >= 3 { r := AddShifted(r, key[2], 16); }
    AddAgain(i, b3 + b2, b1);
    AddZero(r);
    if |key| >= 2 { r := AddShifted(r, key[1], 8); }
    AddAgain(i, b3 + b2 + b1, At(key, 0));
    AddZero(r);
    if |key| >= 1 { r := Add(r, key[0]); }
  }

  lemma AddZero(x: Word)
    ensures Add(x, 0) == x
  {}

  lemma AddAgain(x: Word, p: Word, q: Word)
    requires p + q < WORD_RANGE
    ensures Add(Add(x, p), q) == Add(x, p + q)
  {}

  /** `x + ((unsigned) b << k)`. */
  function AddShifted(x: Word, b: Byte, k: nat): (w: Word)
    ensures k == 8 ==> w == Add(x, b * 0x100)
    ensures k == 16 ==> w == Add(x, b * 0x1_0000)
    ensures k == 24 ==> w == Add(x, b * 0x100_0000)
  {
    hide Add, Shl;
    ShiftedByte(b);
    Add(x, Shl(b, k))
  }

  lemma ShiftedByte(b: Byte)
    ensures Shl(b, 8) == b * 0x100 && Shl(b, 16) == b * 0x1_0000 && Shl(b, 24) == b * 0x100_0000
  {
    hide Pow2;
    Pow2Doubles(0);
    Pow2Doubles(8);
    Pow2Doubles(16);
    assert Pow2(0) == 1 by { PowerOfNothing(); }
  }

  lemma PowerOfNothing()
    ensures Pow2(0) == 1
  {}

  lemma Pow2Doubles(k: nat)
    ensures Pow2(k + 8) == 0x100 * Pow2(k)
  {
    assert Pow2(k + 2) == 4 * Pow2(k);
    assert Pow2(k + 4) == 4 * Pow2(k + 2);
    assert Pow2(k + 6) == 4 * Pow2(k + 4);
  }

  // Every byte of the key counts.

  lemma AddInjective(x: Word, y: Word, p: Word, q: Word)
    ensures Add(x, p) == Add(x, q) ==> p == q
    ensures Add(x, p) == Add(y, p) ==> x == y
  {}

  lemma MixInjective(t: State, u: State)
    requires Mix(t) == Mix(u)
    ensures t == u
  {
    MixIsBijective(t);
    MixIsBijective(u);
  }

  /** Different register states stay different whatever key bytes follow. */
  lemma {:induction false} StatesStayDifferent(t: State, u: State, key: seq<Byte>, keylen: nat)
    requires t != u
    ensures FinalState(t, key, keylen) != FinalState(u, key, keylen)
    decreases |key|
  {
    hide Mix, Little, Add;
    if |key| >= 12 {
      AbsorbSeparates(t, u, key[..12], key[..12]);
      StatesStayDifferent(Absorb(t, key[..12]), Absorb(u, key[..12]), key[12..], keylen);
    } else {
      FinishSeparates(t, u, key, key, keylen);
    }
  }

  lemma AbsorbSeparates(t: State, u: State, p: seq<Byte>, q: seq<Byte>)
    requires |p| == |q| == 12 && ((t != u && p == q) || (t == u && p != q))
    ensures Absorb(t, p) != Absorb(u, q)
  {
    hide Mix, Add;
    var t' := State(Add(t.a, Little(p, 0)), Add(t.b, Little(p, 4)), Add(t.c, Little(p, 8)));
    var u' := State(Add(u.a, Little(q, 0)), Add(u.b, Little(q, 4)), Add(u.c, Little(q, 8)));
    if Mix(t') == Mix(u') {
      MixInjective(t', u');
      AddInjective(t.a, u.a, Little(p, 0), Little(q, 0));
      AddInjective(t.b, u.b, Little(p, 4), Little(q, 4));
      AddInjective(t.c, u.c, Little(p, 8), Little(q, 8));
      LittleInjective(p, q, 0);
      LittleInjective(p, q, 4);
      LittleInjective(p, q, 8);
      SameBytes(p, q);
    }
  }

  lemma PeelByte(b: Byte, x: nat, b': Byte, x': nat)
    requires 0x100 * x + b == 0x100 * x' + b'
    ensures b == b' && x == x'
  {}

  lemma LittleWordInjective(p0: Byte, p1: Byte, p2: Byte, p3: Byte, q0: Byte, q1: Byte, q2: Byte, q3: Byte)
    requires LittleWord(p0, p1, p2, p3) == LittleWord(q0, q1, q2, q3)
    ensures p0 == q0 && p1 == q1 && p2 == q2 && p3 == q3
  {
    PeelByte(p0, 0x1_0000 * p3 + 0x100 * p2 + p1, q0, 0x1_0000 * q3 + 0x100 * q2 + q1);
    PeelByte(p1, 0x100 * p3 + p2, q1, 0x100 * q3 + q2);
    PeelByte(p2, p3, q2, q3);
  }

  lemma LittleInjective(p: seq<Byte>, q: seq<Byte>, i: nat)
    ensures Little(p, i) == Little(q, i) ==>
              && At(p, i) == At(q, i) && At(p, i + 1) == At(q, i + 1)
              && At(p, i + 2) == At(q, i + 2) && At(p, i + 3) == At(q, i + 3)
  {
    hide LittleWord;
    if Little(p, i) == Little(q, i) {
      LittleWordInjective(At(p, i), At(p, i + 1), At(p, i + 2), At(p, i + 3),
                          At(q, i), At(q, i + 1), At(q, i + 2), At(q, i + 3));
    }
  }

  lemma FinishSeparates(t: State, u: State, p: seq<Byte>, q: seq<Byte>, keylen: nat)
    requires |p| == |q| < 12 && ((t != u && p == q) || (t == u && p != q))
    ensures Finish(t, p, keylen) != Finish(u, q, keylen)
  {
    hide Mix, Add;
    var n := keylen % WORD_RANGE;
    var x, y := Shifted(p), Shifted(q);
    var t' := State(Add(t.a, Little(p, 0)), Add(t.b, Little(p, 4)), Add(Add(t.c, n), x));
    var u' := State(Add(u.a, Little(q, 0)), Add(u.b, Little(q, 4)), Add(Add(u.c, n), y));
    if Mix(t') == Mix(u') {
      MixInjective(t', u');
      AddInjective(t.a, u.a, Little(p, 0), Little(q, 0));
      AddInjective(t.b, u.b, Little(p, 4), Little(q, 4));
      AddInjective(Add(t.c, n), Add(u.c, n), x, y);
      AddInjective(t.c, u.c, n, n);
      LittleInjective(p, q, 0);
      LittleInjective(p, q, 4);
      LittleWordInjective(0, At(p, 8), At(p, 9), At(p, 10), 0, At(q, 8), At(q, 9), At(q, 10));
      SameBytes(p, q);
    }
  }

  lemma SameBytes(p: seq<Byte>, q: seq<Byte>)
    requires |p| == |q| <= 12 && forall i: nat :: i < |p| ==> At(p, i) == At(q, i)
    ensures p == q
  {
    forall i | 0 <= i < |p| ensures p[i] == q[i] { assert At(p, i) == At(q, i); }
  }

  /** Changing any one byte of any key changes the registers HASH_JEN ends with: no byte is skipped. */
  lemma {:induction false} EveryByteCounts(t: State, key: seq<Byte>, i: nat, b: Byte, keylen: nat)
    requires i < |key| && b != key[i]
    ensures FinalState(t, key, keylen) != FinalState(t, key[i := b], keylen)
    decreases |key|
  {
    hide Mix, Little, Add, Absorb, Finish;
    var other := key[i := b];
    if |key| < 12 {
      FinishSeparates(t, t, key, other, keylen);
    } else if i < 12 {
      assert other[..12] != key[..12] by { assert other[..12][i] == b; }
      AbsorbSeparates(t, t, key[..12], other[..12]);
      assert other[12..] == key[12..];
      StatesStayDifferent(Absorb(t, key[..12]), Absorb(t, other[..12]), key[12..], keylen);
    } else {
      assert other[..12] == key[..12] && other[12..] == key[12..][i - 12 := b];
      EveryByteCounts(Absorb(t, key[..12]), key[12..], i - 12, b, keylen);
    }
  }
}
