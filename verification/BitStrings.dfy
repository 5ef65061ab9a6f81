/** Bit strings, their numeric value, and the fixed-width big-endian codes that
    cell builders and slices exchange. */
module BitStrings {

  type Bits = seq<bool>
  type Byte = x: nat | x < 256

  /** A C# long. */
  predicate IsLong(k: int) {
    -0x8000_0000_0000_0000 <= k < 0x8000_0000_0000_0000
  }

  lemma ConcatAssociative(a: Bits, b: Bits, c: Bits)
    ensures (a + b) + c == a + (b + c)
  {
  }

  function Pow2(n: nat): (p: nat)
    ensures p >= 1
  {
    if n == 0 then 1 else 2 * Pow2(n - 1)
  }

  lemma {:induction false} Pow2Add(a: nat, b: nat)
    ensures Pow2(a + b) == Pow2(a) * Pow2(b)
  {
    if a == 0 {
    } else {
      Pow2Add(a - 1, b);
      assert Pow2(a + b) == 2 * Pow2(a - 1 + b);
      assert 2 * (Pow2(a - 1) * Pow2(b)) == (2 * Pow2(a - 1)) * Pow2(b);
    }
  }

  lemma Pow2Values()
    ensures Pow2(8) == 0x100 && Pow2(16) == 0x1_0000
    ensures Pow2(32) == 0x1_0000_0000 && Pow2(64) == 0x1_0000_0000_0000_0000
  {
    assert Pow2(4) == 16;
    Pow2Add(4, 4);
    Pow2Add(8, 8);
    Pow2Add(16, 16);
    Pow2Add(32, 32);
  }

  lemma {:induction false} Pow2Monotone(a: nat, b: nat)
    requires a <= b
    ensures Pow2(a) <= Pow2(b)
  {
    if a == b {
    } else {
      Pow2Monotone(a, b - 1);
    }
  }

  lemma {:induction false} Pow2Exceeds(n: nat)
    ensures n < Pow2(n)
  {
    if n == 0 {
    } else {
      Pow2Exceeds(n - 1);
    }
  }

  /** The n low-order bits of v, most significant first. Division and remainder
      by 2 round down, so this is two's complement for a negative v. */
  function ToBits(v: int, n: nat): (b: Bits)
    ensures |b| == n
    decreases n, v
  {
    if n == 0 then [] else ToBits(v / 2, n - 1) + [v % 2 == 1]
  }

  function FromBits(b: Bits): nat {
    if b == [] then 0 else 2 * FromBits(b[..|b| - 1]) + (if b[|b| - 1] then 1 else 0)
  }

  lemma {:induction false} FromBitsBound(b: Bits)
    ensures FromBits(b) < Pow2(|b|)
  {
    if b == [] {
    } else {
      FromBitsBound(b[..|b| - 1]);
    }
  }

  lemma ScaledGap(d: int, k: int)
    requires d > 0
    ensures k >= 1 ==> d * k >= d
    ensures k <= -1 ==> d * k <= -d
  {
    if k >= 1 {
      assert d * (k - 1) >= 0;
    } else if k <= -1 {
      assert d * (k + 1) <= 0;
    }
  }

  /** Quotient and remainder are unique. */
  lemma DivModUnique(v: int, d: int, q: int, r: int)
    requires d > 0 && 0 <= r < d && v == d * q + r
    ensures v / d == q && v % d == r
  {
    var q', r' := v / d, v % d;
    assert v == d * q' + r';
    assert d * (q - q') == r' - r;
    ScaledGap(d, q - q');
  }

  lemma ModCompose(v: int, p: int, q: int)
    requires p > 0 && q > 0
    ensures p * q > 0
    ensures v % (p * q) == ((v / q) % p) * q + v % q
  {
    var h, r := (v / q) / p, (v / q) % p;
    var low := r * q + v % q;
    assert v == (p * q) * h + low by {
      assert v / q == p * h + r;
      assert q * (p * h + r) == (p * q) * h + r * q;
    }
    assert 0 <= low < p * q by {
      assert r * q <= (p - 1) * q;
      assert (p - 1) * q == p * q - q;
    }
    DivModUnique(v, p * q, h, low);
  }

  lemma {:induction false} FromToBits(v: int, n: nat)
    ensures FromBits(ToBits(v, n)) == v % Pow2(n)
    decreases n
  {
    if n == 0 {
    } else {
      FromToBits(v / 2, n - 1);
      assert ToBits(v, n)[..n - 1] == ToBits(v / 2, n - 1);
      ModCompose(v, Pow2(n - 1), 2);
    }
  }

  lemma {:induction false} ToFromBits(b: Bits)
    ensures ToBits(FromBits(b), |b|) == b
  {
    if b == [] {
    } else {
      ToFromBits(b[..|b| - 1]);
    }
  }

  /** Equal length and equal value: equal bit strings. */
  lemma BitsByValue(a: Bits, b: Bits)
    requires |a| == |b| && FromBits(a) == FromBits(b)
    ensures a == b
  {
    ToFromBits(a);
    ToFromBits(b);
  }

  lemma DoubledFactor(f: nat, p: nat)
    ensures f * (2 * p) == 2 * (f * p)
  {
  }

  lemma {:induction false} FromBitsConcat(a: Bits, b: Bits)
    ensures FromBits(a + b) == FromBits(a) * Pow2(|b|) + FromBits(b)
  {
    if b == [] {
      assert a + b == a;
    } else {
      var b' := b[..|b| - 1];
      FromBitsConcat(a, b');
      assert (a + b)[..|a + b| - 1] == a + b';
      assert FromBits(a + b) == 2 * FromBits(a + b') + (if b[|b| - 1] then 1 else 0);
      DoubledFactor(FromBits(a), Pow2(|b'|));
    }
  }

  /** A code of a + b bits is the code of the quotient followed by the code of
      the remainder. */
  lemma ToBitsSplit(v: int, a: nat, b: nat)
    ensures ToBits(v, a + b) == ToBits(v / Pow2(b), a) + ToBits(v, b)
  {
    FromToBits(v / Pow2(b), a);
    FromToBits(v, b);
    FromToBits(v, a + b);
    FromBitsConcat(ToBits(v / Pow2(b), a), ToBits(v, b));
    Pow2Add(a, b);
    ModCompose(v, Pow2(a), Pow2(b));
    BitsByValue(ToBits(v, a + b), ToBits(v / Pow2(b), a) + ToBits(v, b));
  }

  /** The low bits only depend on v modulo a power of two. */
  lemma ToBitsMod(v: int, w: int, n: nat)
    requires v % Pow2(n) == w % Pow2(n)
    ensures ToBits(v, n) == ToBits(w, n)
  {
    FromToBits(v, n);
    FromToBits(w, n);
    BitsByValue(ToBits(v, n), ToBits(w, n));
  }

  lemma SmallRoundTrip(v: nat, n: nat)
    requires v < Pow2(n)
    ensures FromBits(ToBits(v, n)) == v
  {
    FromToBits(v, n);
    DivModUnique(v, Pow2(n), 0, v);
  }

  // ----- bytes

  /** Fixed-width digits, one after the other. */
  function Pack(s: seq<nat>, w: nat): Bits {
    if s == [] then [] else ToBits(s[0], w) + Pack(s[1..], w)
  }

  lemma {:induction false} OctetsPacked(s: seq<nat>)
    ensures |Pack(s, 8)| == 8 * |s|
  {
    if s == [] {
    } else {
      OctetsPacked(s[1..]);
    }
  }

  /** The whole digits at the front of a bit string; an incomplete last digit is
      ignored. */
  function Unpack(b: Bits, w: nat): (s: seq<nat>)
    requires w > 0
    ensures forall i :: 0 <= i < |s| ==> s[i] < Pow2(w)
  {
    if |b| < w then [] else
      FromBitsBound(b[..w]);
      [FromBits(b[..w])] + Unpack(b[w..], w)
  }

  lemma {:induction false} PackRoundTrip(s: seq<nat>, w: nat, tail: Bits)
    requires |tail| < w
    requires forall i :: 0 <= i < |s| ==> s[i] < Pow2(w)
    ensures Unpack(Pack(s, w) + tail, w) == s
  {
    hide ToBits, FromBits, Pow2;
    if s == [] {
      assert Pack(s, w) + tail == tail;
    } else {
      var h, rest := ToBits(s[0], w), Pack(s[1..], w) + tail;
      assert Pack(s, w) + tail == h + rest;
      assert (h + rest)[..w] == h && (h + rest)[w..] == rest;
      SmallRoundTrip(s[0], w);
      PackRoundTrip(s[1..], w, tail);
    }
  }

  lemma {:induction false} PackConcat(s: seq<nat>, t: seq<nat>, w: nat)
    ensures Pack(s + t, w) == Pack(s, w) + Pack(t, w)
  {
    if s == [] {
      assert s + t == t;
    } else {
      PackConcat(s[1..], t, w);
      assert (s + t)[1..] == s[1..] + t;
      assert Pack(s + t, w) == ToBits(s[0], w) + Pack(s[1..] + t, w);
    }
  }

  function BytesToBits(s: seq<Byte>): (b: Bits)
    ensures |b| == 8 * |s|
  {
    OctetsPacked(s);
    Pack(s, 8)
  }

  function BitsToBytes(b: Bits): seq<Byte> {
    assert Pow2(8) == 256;
    Unpack(b, 8)
  }

  lemma BytesRoundTrip(s: seq<Byte>, tail: Bits)
    requires |tail| < 8
    ensures BitsToBytes(BytesToBits(s) + tail) == s
  {
    assert Pow2(8) == 256;
    PackRoundTrip(s, 8, tail);
  }

  // ----- logarithms

  /** The least k with n <= 2^k (see CeilLog2Least). */
  function CeilLog2(n: nat): nat {
    if n <= 1 then 0 else 1 + CeilLog2((n + 1) / 2)
  }

  /** The number of binary digits of m; 0 for 0. */
  function BitLength(m: nat): nat {
    if m == 0 then 0 else 1 + BitLength(m / 2)
  }

  lemma {:induction false} CeilLog2Least(n: nat)
    requires n >= 1
    ensures n <= Pow2(CeilLog2(n))
    ensures n > 1 ==> CeilLog2(n) >= 1 && Pow2(CeilLog2(n) - 1) < n
  {
    if n <= 1 {
    } else {
      CeilLog2Least((n + 1) / 2);
      if n == 2 {
        assert CeilLog2(1) == 0 && CeilLog2(2) == 1;
      }
    }
  }

  lemma {:induction false} BitLengthBounds(m: nat)
    ensures m < Pow2(BitLength(m))
    ensures m > 0 ==> BitLength(m) >= 1 && Pow2(BitLength(m) - 1) <= m
  {
    if m == 0 {
    } else {
      BitLengthBounds(m / 2);
    }
  }

  lemma BitLengthUnique(m: nat, k: nat)
    requires m < Pow2(k)
    requires k > 0 ==> Pow2(k - 1) <= m
    ensures BitLength(m) == k
  {
    BitLengthBounds(m);
    if BitLength(m) < k {
      Pow2Monotone(BitLength(m), k - 1);
    } else if BitLength(m) > k {
      Pow2Monotone(k, BitLength(m) - 1);
    }
  }

  /** The field width ceil(log2(m + 1)) is the number of binary digits of m. */
  lemma CeilLog2IsBitLength(m: nat)
    ensures CeilLog2(m + 1) == BitLength(m)
  {
    CeilLog2Least(m + 1);
    if m > 0 {
      BitLengthUnique(m, CeilLog2(m + 1));
    }
  }

  lemma {:induction false} BitLengthMonotone(a: nat, b: nat)
    requires a <= b
    ensures BitLength(a) <= BitLength(b)
  {
    if a == 0 {
    } else {
      BitLengthMonotone(a / 2, b / 2);
    }
  }
}
