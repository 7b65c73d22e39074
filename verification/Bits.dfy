/**
  Unsigned machine bytes and words as natural numbers, and their bits.
  `x << 1`, `x & 1`, `x >> 1` and `~x` on a byte are `2 * x % 256`, `x % 2`, `x / 2` and `255 - x`.
 */
module Bits {

  type byte = x: int | 0 <= x < 0x100
  type word16 = x: int | 0 <= x < 0x1_0000
  type word32 = x: int | 0 <= x < 0x1_0000_0000

  datatype Option<T> = None | Some(value: T)

  function Bit(b: bool): byte { if b then 1 else 0 }

  function Pow2(n: nat): (p: nat)
    ensures p > 0
  {
    if n == 0 then 1 else 2 * Pow2(n - 1)
  }

  /** The `n` low bits of `x`, most significant first. */
  function BitsOf(x: nat, n: nat): (s: seq<bool>)
    ensures |s| == n
  {
    if n == 0 then [] else BitsOf(x / 2, n - 1) + [x % 2 == 1]
  }

  /** The `n` low bits of `x`, least significant first. */
  function BitsUp(x: nat, n: nat): (s: seq<bool>)
    ensures |s| == n
  {
    if n == 0 then [] else [x % 2 == 1] + BitsUp(x / 2, n - 1)
  }

  /** The number whose binary digits, most significant first, are `s`. */
  function Value(s: seq<bool>): nat {
    if s == [] then 0 else 2 * Value(s[..|s| - 1]) + Bit(s[|s| - 1])
  }

  function MsbFirst(b: byte): (s: seq<bool>)
    ensures |s| == 8
  {
    BitsOf(b, 8)
  }

  function LsbFirst(b: byte): (s: seq<bool>)
    ensures |s| == 8
  {
    BitsUp(b, 8)
  }

  function Flip(s: seq<bool>): (r: seq<bool>)
    ensures |r| == |s|
  {
    seq(|s|, i requires 0 <= i < |s| => !s[i])
  }

  function Zeros(n: nat): (r: seq<bool>)
    ensures |r| == n
  {
    seq(n, _ => false)
  }

  lemma {:induction false} ValueBound(s: seq<bool>)
    ensures Value(s) < Pow2(|s|)
  {
    if s != [] { ValueBound(s[..|s| - 1]); }
  }

  /** The byte whose bits, most significant first, are `s`. */
  function ByteOf(s: seq<bool>): byte
    requires |s| == 8
  {
    ValueBound(s);
    assert Pow2(8) == 256;
    Value(s)
  }

  /** `reflect8`: the bits of a byte in the opposite order. */
  function Reflect8(b: byte): byte { ByteOf(LsbFirst(b)) }

  /** Bytes that `bits` bits take. */
  function ByteCount(bits: nat): nat { (bits + 7) / 8 }

  lemma {:induction false} ValueOfBits(x: nat, n: nat)
    requires x < Pow2(n)
    ensures Value(BitsOf(x, n)) == x
  {
    if n > 0 {
      ValueOfBits(x / 2, n - 1);
      assert BitsOf(x, n)[..n - 1] == BitsOf(x / 2, n - 1);
    }
  }

  lemma {:induction false} BitsOfValue(s: seq<bool>)
    ensures BitsOf(Value(s), |s|) == s
  {
    if s != [] {
      var t, b, v := s[..|s| - 1], s[|s| - 1], Value(s);
      assert v == 2 * Value(t) + Bit(b);
      hide Value;
      BitsOfValue(t);
      assert v / 2 == Value(t) && (v % 2 == 1) == b;
      assert BitsOf(v, |s|) == BitsOf(v / 2, |s| - 1) + [b];
    }
  }

  /** Equal bits mean equal numbers. */
  lemma BitsInjective(x: nat, y: nat, n: nat)
    requires x < Pow2(n) && y < Pow2(n) && BitsOf(x, n) == BitsOf(y, n)
    ensures x == y
  {
    ValueOfBits(x, n);
    ValueOfBits(y, n);
  }

  lemma MsbFirstInjective(a: byte, b: byte)
    requires MsbFirst(a) == MsbFirst(b)
    ensures a == b
  {
    assert Pow2(8) == 256;
    BitsInjective(a, b, 8);
  }

  lemma ByteOfBits(s: seq<bool>, b: byte)
    requires |s| == 8
    ensures MsbFirst(ByteOf(s)) == s && (MsbFirst(b) == s <==> b == ByteOf(s))
  {
    BitsOfValue(s);
    if MsbFirst(b) == s { MsbFirstInjective(b, ByteOf(s)); }
  }

  lemma {:induction false} LowBits(x: nat, n: nat)
    ensures BitsOf(x % Pow2(n), n) == BitsOf(x, n + 1)[1..]
  {
    if n > 0 {
      var p := Pow2(n - 1);
      LowBits(x / 2, n - 1);
      HalfOfMod(x, p);
      assert BitsOf(x, n + 1)[1..] == BitsOf(x / 2, n)[1..] + [x % 2 == 1];
    }
  }

  lemma HalfOfMod(x: nat, p: nat)
    requires p > 0
    ensures x % (2 * p) / 2 == x / 2 % p && x % (2 * p) % 2 == x % 2
  {
    var h, c := x / 2, x % 2;
    var q, r := h / p, h % p;
    assert h == p * q + r;
    assert x == (2 * p) * q + (2 * r + c);
    DivModUnique(x, 2 * p, q, 2 * r + c);
  }

  lemma DivModUnique(x: int, d: int, q: int, r: int)
    requires d > 0 && 0 <= r < d && x == d * q + r
    ensures x / d == q && x % d == r
  {
    var e := x / d - q;
    assert d * e == r - x % d;
    assert e >= 1 ==> d * e >= d;
    assert e <= -1 ==> d * e <= -d;
  }

  lemma LowestBit(x: nat, n: nat)
    requires n > 0
    ensures BitsOf(x, n) == BitsOf(x / 2, n - 1) + [x % 2 == 1]
    ensures Pow2(n) == 2 * Pow2(n - 1)
  {
  }

  /** Shifting a bit into the low end of an `n`-bit register drops the high bit. */
  lemma {:induction false} ShiftLeft(x: nat, b: bool, n: nat)
    requires n > 0
    ensures BitsOf((2 * x + Bit(b)) % Pow2(n), n) == BitsOf(x, n)[1..] + [b]
  {
    var y, p := 2 * x + Bit(b), Pow2(n - 1);
    HalfOfMod(y, p);
    LowBits(x, n - 1);
    assert y / 2 == x && y % 2 == Bit(b);
    LowestBit(y % (2 * p), n);
    hide BitsOf, Pow2;
  }

  lemma ShiftLeftByte(x: byte, y: byte)
    ensures MsbFirst((2 * x + y % 2) % 256) == MsbFirst(x)[1..] + [y % 2 == 1]
  {
    assert Pow2(8) == 256;
    ShiftLeft(x, y % 2 == 1, 8);
  }

  lemma {:induction false} Complement(x: nat, n: nat)
    requires x < Pow2(n)
    ensures BitsUp(Pow2(n) - 1 - x, n) == Flip(BitsUp(x, n))
    ensures BitsOf(Pow2(n) - 1 - x, n) == Flip(BitsOf(x, n))
  {
    if n > 0 {
      var p, y := Pow2(n - 1), Pow2(n) - 1 - x;
      assert y / 2 == p - 1 - x / 2 && (y % 2 == 1 <==> x % 2 != 1);
      Complement(x / 2, n - 1);
    }
  }

  lemma ComplementBits(x: byte)
    ensures LsbFirst(255 - x) == Flip(LsbFirst(x))
    ensures MsbFirst(255 - x) == Flip(MsbFirst(x))
  {
    assert Pow2(8) == 256;
    Complement(x, 8);
  }

  lemma {:induction false} ZeroBits(x: nat, n: nat)
    requires x < Pow2(n)
    ensures x == 0 <==> BitsUp(x, n) == Zeros(n)
  {
    if n > 0 {
      ZeroBits(x / 2, n - 1);
      assert Zeros(n) == [false] + Zeros(n - 1);
      var s, t := BitsUp(x, n), Zeros(n);
      assert s == t ==> s[0] == t[0] && s[1..] == t[1..];
    }
  }

  lemma LsbFirstZero(b: byte)
    ensures b == 0 <==> LsbFirst(b) == Zeros(8)
  {
    assert Pow2(8) == 256;
    ZeroBits(b, 8);
  }

  lemma FourBits(x: nat, n: nat)
    ensures BitsOf(x, n + 4) == BitsOf(x / 16, n) + [x / 8 % 2 == 1, x / 4 % 2 == 1, x / 2 % 2 == 1, x % 2 == 1]
  {
    assert BitsOf(x, n + 4) == BitsOf(x / 2, n + 3) + [x % 2 == 1];
    assert BitsOf(x / 2, n + 3) == BitsOf(x / 4, n + 2) + [x / 2 % 2 == 1];
    assert BitsOf(x / 4, n + 2) == BitsOf(x / 8, n + 1) + [x / 4 % 2 == 1];
    assert BitsOf(x / 8, n + 1) == BitsOf(x / 16, n) + [x / 8 % 2 == 1];
  }

  function Ones(n: nat): (s: seq<bool>)
    ensures |s| == n
  {
    seq(n, _ => true)
  }

  /** `x >> k`. */
  function Shr(x: nat, k: nat): nat { if k == 0 then x else Shr(x / 2, k - 1) }

  lemma {:induction false} HighBits(x: nat, n: nat, k: nat)
    requires k <= n && x < Pow2(n)
    ensures Shr(x, k) < Pow2(n - k)
    ensures BitsOf(Shr(x, k), n - k) == BitsOf(x, n)[..n - k]
  {
    if k > 0 {
      HighBits(x / 2, n - 1, k - 1);
      assert BitsOf(x, n)[..n - 1] == BitsOf(x / 2, n - 1);
      assert BitsOf(x, n)[..n - k] == BitsOf(x, n)[..n - 1][..n - k];
    }
  }

  lemma {:induction false} AllOnes(n: nat)
    ensures BitsOf(Pow2(n) - 1, n) == Ones(n)
  {
    if n > 0 {
      AllOnes(n - 1);
      assert Ones(n) == Ones(n - 1) + [true];
      LowestBit(Pow2(n) - 1, n);
      hide BitsOf, Pow2;
      var p := Pow2(n - 1);
      assert (2 * p - 1) / 2 == p - 1 && (2 * p - 1) % 2 == 1;
    }
  }

  /** `b >> (8 - n)` is all ones exactly when the first `n` bits are. */
  lemma LeadingOnes(b: byte, n: nat)
    requires n <= 8
    ensures Shr(b, 8 - n) == Pow2(n) - 1 <==> MsbFirst(b)[..n] == Ones(n)
  {
    assert Pow2(8) == 256;
    HighBits(b, 8, 8 - n);
    AllOnes(n);
    if MsbFirst(b)[..n] == Ones(n) { BitsInjective(Shr(b, 8 - n), Pow2(n) - 1, n); }
  }

  lemma {:induction false} SetBitOf(x: nat, n: nat, k: nat)
    requires k < n && !BitsOf(x, n)[n - 1 - k]
    ensures BitsOf(x + Pow2(k), n) == BitsOf(x, n)[n - 1 - k := true]
  {
    if k == 0 {
      assert x % 2 == 0;
    } else {
      SetBitOf(x / 2, n - 1, k - 1);
      assert (x + Pow2(k)) / 2 == x / 2 + Pow2(k - 1) && (x + Pow2(k)) % 2 == x % 2;
    }
  }

  /** `b | (1 << (7 - i))`: sets the `i`-th bit from the top. */
  function SetBit(b: byte, i: nat): (r: byte)
    requires i < 8
    ensures MsbFirst(r) == MsbFirst(b)[i := true]
  {
    assert MsbFirst(b)[i] ==> MsbFirst(b) == MsbFirst(b)[i := true];
    if MsbFirst(b)[i] then b else
      SetBitOf(b, 8, 7 - i);
      ValueBound(MsbFirst(b)[i := true]);
      assert Pow2(8) == 256;
      SetBelow(b, 7 - i);
      b + Pow2(7 - i)
  }

  /** Adding a power of two whose bit is clear stays below the next free place. */
  lemma {:induction false} SetBelow(x: nat, k: nat)
    requires k < 8 && x < 256 && !BitsOf(x, 8)[7 - k]
    ensures x + Pow2(k) < 256
  {
    SetFits(x, 8, k);
    assert Pow2(8) == 256;
  }

  lemma {:induction false} SetFits(x: nat, n: nat, k: nat)
    requires k < n && x < Pow2(n) && !BitsOf(x, n)[n - 1 - k]
    ensures x + Pow2(k) < Pow2(n)
  {
    hide BitsOf, Pow2;
    LowestBit(x, n);
    var high, low := BitsOf(x / 2, n - 1), x % 2 == 1;
    if k > 0 {
      assert !high[n - 1 - k] by { assert (high + [low])[n - 1 - k] == high[n - 1 - k]; }
      LowestBit(0, k);
      SetFits(x / 2, n - 1, k - 1);
    } else {
      assert !low by { assert (high + [low])[n - 1] == low; }
      PowZero();
    }
  }

  lemma PowZero()
    ensures Pow2(0) == 1
  {
  }

  lemma {:induction false} ShrBits(x: nat, k: nat, m: nat)
    ensures BitsOf(Shr(x, k), m) == BitsOf(x, k + m)[..m]
  {
    if k > 0 {
      ShrBits(x / 2, k - 1, m);
      assert BitsOf(x, k + m)[..m] == BitsOf(x / 2, k - 1 + m)[..m];
    }
  }

  lemma {:induction false} ModBits(x: nat, n: nat)
    ensures BitsOf(x % Pow2(n), n) == BitsOf(x, n)
  {
    if n > 0 {
      HalfOfMod(x, Pow2(n - 1));
      ModBits(x / 2, n - 1);
    }
  }

  lemma {:induction false} SuffixBits(x: nat, n: nat, j: nat)
    requires j <= n
    ensures BitsOf(x, n)[n - j..] == BitsOf(x, j)
  {
    if j > 0 {
      SuffixBits(x / 2, n - 1, j - 1);
      assert BitsOf(x, n)[n - j..] == BitsOf(x / 2, n - 1)[n - j..] + [x % 2 == 1];
    }
  }

  /** `(x >> k) & (2^m - 1)` takes `m` bits out of the middle. */
  lemma {:induction false} FieldBits(x: nat, n: nat, k: nat, m: nat)
    requires k + m <= n
    ensures BitsOf(Shr(x, k) % Pow2(m), m) == BitsOf(x, n)[n - k - m..n - k]
  {
    hide BitsOf, Shr, Pow2;
    ModBits(Shr(x, k), m);
    ShrBits(x, k, m);
    SuffixBits(x, n, k + m);
    SliceSuffix(BitsOf(x, n), BitsOf(x, k + m), n - k - m, m);
  }

  lemma SliceSuffix(s: seq<bool>, t: seq<bool>, i: nat, m: nat)
    requires i + m <= |s| && s[i..] == t
    ensures t[..m] == s[i..i + m]
  {
  }

  /** `(x >> k) & 1` is the `k`-th bit from the end. */
  lemma BitTest(x: nat, n: nat, k: nat)
    requires k < n
    ensures BitsOf(x, n)[n - 1 - k] == (Shr(x, k) % 2 == 1)
  {
    FieldBits(x, n, k, 1);
    var b := Shr(x, k) % 2;
    assert Pow2(1) == 2;
    assert BitsOf(b, 1) == BitsOf(b / 2, 0) + [b % 2 == 1];
    assert BitsOf(b, 1)[0] == BitsOf(x, n)[n - k - 1];
  }

  lemma PowByte(n: nat)
    ensures Pow2(n + 8) == 256 * Pow2(n)
  {
    assert Pow2(n + 2) == 2 * Pow2(n + 1) == 4 * Pow2(n);
    assert Pow2(n + 4) == 2 * Pow2(n + 3) == 4 * Pow2(n + 2);
    assert Pow2(n + 6) == 2 * Pow2(n + 5) == 4 * Pow2(n + 4);
    assert Pow2(n + 8) == 2 * Pow2(n + 7) == 4 * Pow2(n + 6);
  }

  lemma {:induction false} ValueJoins(a: seq<bool>, b: seq<bool>)
    ensures Value(a + b) == Value(a) * Pow2(|b|) + Value(b)
  {
    if b == [] {
      assert a + b == a;
    } else {
      var n := |b| - 1;
      ValueJoins(a, b[..n]);
      assert (a + b)[..|a + b| - 1] == a + b[..n];
      assert Value(a) * (2 * Pow2(n)) == 2 * (Value(a) * Pow2(n));
    }
  }

  lemma ValueInjective(a: seq<bool>, b: seq<bool>)
    requires |a| == |b|
    ensures Value(a) == Value(b) <==> a == b
  {
    BitsOfValue(a);
    BitsOfValue(b);
  }

  /** The two orders of the bits are each other's reversal. */
  lemma {:induction false} BitsReversed(x: nat, n: nat)
    ensures forall k | 0 <= k < n :: BitsUp(x, n)[k] == BitsOf(x, n)[n - 1 - k]
  {
    if n > 0 { BitsReversed(x / 2, n - 1); }
  }

  lemma ShrByte(x: nat)
    ensures Shr(x, 8) == x / 256
  {
    assert Shr(x, 8) == Shr(x / 2 / 2, 6) == Shr(x / 2 / 2 / 2 / 2, 4) == Shr(x / 2 / 2 / 2 / 2 / 2 / 2, 2);
    assert x / 2 / 2 / 2 / 2 == x / 16 && x / 16 / 2 / 2 / 2 / 2 == x / 256;
  }

  lemma {:induction false} ShrBitsUp(x: nat, k: nat, m: nat)
    ensures BitsUp(Shr(x, k), m) == BitsUp(x, k + m)[k..]
  {
    if k > 0 {
      ShrBitsUp(x / 2, k - 1, m);
      assert BitsUp(x, k + m)[1..] == BitsUp(x / 2, k - 1 + m);
      assert BitsUp(x, k + m)[k..] == BitsUp(x, k + m)[1..][k - 1..];
    }
  }

  lemma {:induction false} ModBitsUp(x: nat, n: nat)
    ensures BitsUp(x % Pow2(n), n) == BitsUp(x, n)
  {
    if n > 0 {
      HalfOfMod(x, Pow2(n - 1));
      ModBitsUp(x / 2, n - 1);
    }
  }

  lemma {:induction false} PrefixBitsUp(x: nat, n: nat, j: nat)
    requires j <= n
    ensures BitsUp(x, n)[..j] == BitsUp(x, j)
  {
    if j > 0 { PrefixBitsUp(x / 2, n - 1, j - 1); }
  }

  /** The bits of a byte sequence, each byte taken in the given order. */
  function Stream(bytes: seq<byte>, lsbFirst: bool): (s: seq<bool>)
    ensures |s| == 8 * |bytes|
  {
    if bytes == [] then []
    else (if lsbFirst then LsbFirst(bytes[0]) else MsbFirst(bytes[0])) + Stream(bytes[1..], lsbFirst)
  }

  lemma {:induction false} StreamAt(bytes: seq<byte>, lsbFirst: bool, j: nat)
    requires j < |bytes|
    ensures Stream(bytes, lsbFirst)[8 * j..8 * j + 8] == if lsbFirst then LsbFirst(bytes[j]) else MsbFirst(bytes[j])
  {
    hide LsbFirst, MsbFirst;
    if j > 0 {
      StreamAt(bytes[1..], lsbFirst, j - 1);
      assert Stream(bytes, lsbFirst)[8 * j..8 * j + 8] == Stream(bytes[1..], lsbFirst)[8 * (j - 1)..8 * (j - 1) + 8];
    }
  }

  lemma {:induction false} StreamPrefix(bytes: seq<byte>, n: nat)
    requires n <= |bytes|
    ensures Stream(bytes[..n], true) == Stream(bytes, true)[..8 * n]
  {
    hide LsbFirst;
    if n > 0 {
      StreamPrefix(bytes[1..], n - 1);
      assert bytes[..n][1..] == bytes[1..][..n - 1];
    }
  }

  lemma {:induction false} ZeroMsb(n: nat)
    ensures BitsOf(0, n) == Zeros(n)
  {
    if n > 0 {
      ZeroMsb(n - 1);
      assert Zeros(n) == Zeros(n - 1) + [false];
    }
  }
}
