/** Byte order: how the serializers lay an integer out in memory. */
module Bytes {
  import opened Words

  /** 256^w. */
  function Base(w: nat): (p: nat)
    ensures p >= 1
  {
    if w == 0 then 1 else 0x100 * Base(w - 1)
  }

  /** The low `w` bytes of `n`, least significant first: what `memcpy` copies on a little-endian host. */
  function LittleBytes(n: nat, w: nat): (s: seq<Byte>)
    ensures |s| == w
  {
    if w == 0 then [] else [n % 0x100] + LittleBytes(n / 0x100, w - 1)
  }

  /** The low `w` bytes of `n`, most significant first: network order. */
  function BigBytes(n: nat, w: nat): (s: seq<Byte>)
    ensures |s| == w
  {
    if w == 0 then [] else BigBytes(n / 0x100, w - 1) + [n % 0x100]
  }

  /** The number a big-endian byte string stands for. */
  function FromBig(s: seq<Byte>): (n: nat)
  {
    if s == [] then 0 else 0x100 * FromBig(s[..|s| - 1]) + s[|s| - 1]
  }

  /** Reverses the low `w` bytes of `n`: `htons`, `htonl` and `bswap_64` for 2, 4 and 8. */
  function SwapBytes(n: nat, w: nat): (r: nat)
    ensures r < Base(w)
  {
    if w == 0 then 0
    else
      var r := SwapBytes(n / 0x100, w - 1);
      MulBound(n % 0x100, Base(w - 1));
      (n % 0x100) * Base(w - 1) + r
  }

  lemma MulBound(a: Byte, b: nat)
    ensures 0 <= a * b <= 0xff * b
  {}

  lemma {:induction false} LittleTop(a: Byte, r: nat, w: nat)
    requires r < Base(w)
    ensures LittleBytes(a * Base(w) + r, w + 1) == LittleBytes(r, w) + [a]
  {
    if w > 0 {
      var m := a * Base(w - 1);
      Reassociate(a, Base(w - 1));
      LowByte(m, r);
      LittleTop(a, r / 0x100, w - 1);
    }
  }

  lemma Reassociate(a: nat, b: nat)
    ensures a * (0x100 * b) == 0x100 * (a * b)
  {}

  lemma LowByte(m: nat, r: nat)
    ensures (0x100 * m + r) % 0x100 == r % 0x100 && (0x100 * m + r) / 0x100 == m + r / 0x100
  {}

  /** Swapping and then copying little-endian leaves network order. */
  lemma {:induction false} SwapThenCopyIsBig(n: nat, w: nat)
    ensures LittleBytes(SwapBytes(n, w), w) == BigBytes(n, w)
  {
    if w > 0 {
      SwapThenCopyIsBig(n / 0x100, w - 1);
      LittleTop(n % 0x100, SwapBytes(n / 0x100, w - 1), w - 1);
    }
  }

  /** Reading network order back gives the number modulo the width. */
  lemma {:induction false} FromBigInverts(n: nat, w: nat)
    ensures FromBig(BigBytes(n, w)) == n % Base(w)
  {
    if w > 0 {
      var s := BigBytes(n, w);
      assert s[..|s| - 1] == BigBytes(n / 0x100, w - 1);
      FromBigInverts(n / 0x100, w - 1);
      RemainderPeels(n, Base(w - 1));
    }
  }

  lemma RemainderPeels(n: nat, b: nat)
    requires b > 0
    ensures n % (0x100 * b) == 0x100 * ((n / 0x100) % b) + n % 0x100
  {
    var q, r := (n / 0x100) / b, (n / 0x100) % b;
    assert n == 0x100 * (q * b + r) + n % 0x100;
    assert n == q * (0x100 * b) + (0x100 * r + n % 0x100);
    RemainderUnique(n, 0x100 * b, q, 0x100 * r + n % 0x100);
  }

  /** `v` in two's complement of `w` bytes. */
  function Wrapped(v: int, w: nat): (n: nat)
    ensures n < Base(w)
  {
    RemainderRange(v, Base(w));
    v % (Base(w) as int)
  }

  lemma RemainderRange(v: int, b: int)
    requires b > 0
    ensures 0 <= v % b < b
  {}

  /** `n`, read as a signed integer of `w > 0` bytes. */
  function Signed(n: nat, w: nat): int
  {
    if 2 * n < Base(w) then n else n - Base(w)
  }

  /** The value a signed field of `w` bytes shows to a reader when `v` was written to it. */
  function WireView(v: int, w: nat): int
  {
    Signed(Wrapped(v, w), w)
  }

  predicate InRange(v: int, w: nat)
  {
    -(Base(w) as int) <= 2 * v < Base(w)
  }

  /** A reader sees exactly the written value if and only if it is in range. */
  lemma WireViewExact(v: int, w: nat)
    ensures WireView(v, w) == v <==> InRange(v, w)
    ensures WireView(v, w) % Base(w) == v % Base(w)
  {
    var b := Base(w);
    var n := v % b;
    if 0 <= v < b {
      assert n == v by { RemainderUnique(v, b, 0, v); }
    }
    if -b <= v < 0 {
      assert n == v + b by { RemainderUnique(v, b, -1, v + b); }
    }
    var x := Signed(n, w);
    assert x == n || x == n - b;
    RemainderUnique(v, b, v / b, n);
    if x == n {
      RemainderUnique(x, b, 0, n);
    } else {
      RemainderUnique(x, b, -1, n);
    }
  }

  /** What a reader sees is in range, whatever was written. */
  lemma WireViewInRange(v: int, w: nat)
    ensures InRange(WireView(v, w), w)
  {
    RemainderRange(v, Base(w));
  }

  /** The bytes of a `w`-byte field holding `v`. */
  function IntBytes(v: int, w: nat): (s: seq<Byte>)
    ensures |s| == w
  {
    BigBytes(Wrapped(v, w), w)
  }

  function IntOf(s: seq<Byte>): int
  {
    Signed(FromBig(s), |s|)
  }

  lemma IntRoundTrip(v: int, w: nat)
    ensures IntOf(IntBytes(v, w)) == WireView(v, w)
  {
    FromBigInverts(Wrapped(v, w), w);
    RemainderUnique(Wrapped(v, w), Base(w), 0, Wrapped(v, w));
  }
}
