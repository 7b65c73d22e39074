/**
  CMAC as NIST SP 800-38B, sections 6.1 and 6.2, defines it, and the firmware's three implementations: for
  AES, for 3DES, and the DESFire one on top of block chaining.
 */
module Cmac {
  import opened Bits
  import opened Cbc

  // ---------------------------------------------------------------------------
  // The standard
  // ---------------------------------------------------------------------------

  /** The bits of a block, most significant first. */
  function BlockBits(b: Block): seq<bool> { Stream(b, false) }

  /** The low coefficients of the field polynomial: x^7+x^2+x+1 for 16 bytes, x^4+x^3+x+1 for 8. */
  function ReductionByte(n: nat): byte { if n == 8 then 0x1B else 0x87 }

  function ReductionBits(n: nat): (s: seq<bool>)
    requires n > 0
    ensures |s| == 8 * n
  {
    Zeros(8 * (n - 1)) + MsbFirst(ReductionByte(n))
  }

  /**
    Multiplication by x in the field: the coefficients move up one place, and if one reaches x^b the
    field polynomial x^b + ... is added to take it away.
   */
  function TimesX(s: seq<bool>, n: nat): (r: seq<bool>)
    requires n > 0 && |s| == 8 * n
    ensures |r| == 8 * n
  {
    var product, polynomial := s + [false], [true] + ReductionBits(n);
    (if product[0] then XorBits(product, polynomial) else product)[1..]
  }

  /** Section 6.1: `k1` and `k2` are the subkeys of `f`. */
  ghost predicate Subkeys(f: BlockFn, n: nat, k1: Block, k2: Block)
    requires n > 0 && Keeps(f, n)
  {
    && |k1| == n && |k2| == n
    && BlockBits(k1) == TimesX(BlockBits(f(ZeroBlock(n))), n)
    && BlockBits(k2) == TimesX(BlockBits(k1), n)
  }

  /** A partial last block is followed by a 1 and as many 0s as it takes. */
  function Pad(m: seq<byte>, n: nat): (b: Block)
    requires |m| < n
    ensures |b| == n
  {
    m + [0x80] + ZeroBlock(n - |m| - 1)
  }

  /** Section 6.2, step 4: the last block of the message, complete or padded. */
  function LastBlock(m: seq<byte>, n: nat, k1: Block, k2: Block): (b: Block)
    requires |m| <= n && |k1| == |k2| == n
    ensures |b| == n
  {
    if |m| == n then Cbc.Xor(m, k1) else Cbc.Xor(Pad(m, n), k2)
  }

  /** Section 6.2, steps 5 and 6, from chaining value `c`. */
  ghost function Mac(f: BlockFn, n: nat, k1: Block, k2: Block, c: Block, m: seq<byte>): (t: Block)
    requires n > 0 && Keeps(f, n) && |k1| == |k2| == |c| == n
    ensures |t| == n
    decreases |m|
  {
    if |m| <= n then f(Cbc.Xor(c, LastBlock(m, n, k1, k2)))
    else Mac(f, n, k1, k2, f(Cbc.Xor(c, m[..n])), m[n..])
  }

  /** `t` is the CMAC of `m`. */
  ghost predicate IsCmac(f: BlockFn, n: nat, m: seq<byte>, t: Block)
    requires n > 0 && Keeps(f, n)
  {
    forall k1, k2 :: Subkeys(f, n, k1, k2) ==> t == Mac(f, n, k1, k2, ZeroBlock(n), m)
  }

  /** The coefficients of the field polynomial: those of x^7, x^2, x and 1 for 16 bytes, of x^4, x^3, x and 1 for 8. */
  lemma Polynomial(n: nat, k: nat)
    requires (n == 8 || n == 16) && k < 8 * n
    ensures ReductionBits(n)[8 * n - 1 - k] <==> k in if n == 8 then {4, 3, 1, 0} else {7, 2, 1, 0}
  {
    ReductionDigits();
    hide MsbFirst;
    if k < 8 { assert ReductionBits(n)[8 * n - 1 - k] == MsbFirst(ReductionByte(n))[7 - k]; }
  }

  lemma ReductionDigits()
    ensures MsbFirst(0x87) == [true, false, false, false, false, true, true, true]
    ensures MsbFirst(0x1B) == [false, false, false, true, true, false, true, true]
  {
    hide BitsOf;
    FourBits(0x87, 4);
    FourBits(0x8, 0);
    FourBits(0x1B, 4);
    FourBits(0x1, 0);
  }

  /** Padding, bit by bit: a 1 behind the message and zeros to the end of the block. */
  lemma PadBits(m: seq<byte>, n: nat)
    requires |m| < n
    ensures BlockBits(Pad(m, n)) == BlockBits(m) + [true] + Zeros(8 * (n - |m|) - 1)
  {
    StreamJoins(m + [0x80], ZeroBlock(n - |m| - 1));
    StreamJoins(m, [0x80]);
    ZeroStream(n - |m| - 1);
    TopOnly();
    hide MsbFirst;
    assert [true] + Zeros(7) + Zeros(8 * (n - |m| - 1)) == [true] + Zeros(8 * (n - |m|) - 1);
  }

  lemma {:induction false} StreamJoins(a: seq<byte>, b: seq<byte>)
    ensures Stream(a + b, false) == Stream(a, false) + Stream(b, false)
    decreases a
  {
    hide MsbFirst;
    if a == [] {
      assert a + b == b;
    } else {
      assert (a + b)[1..] == a[1..] + b;
      StreamJoins(a[1..], b);
    }
  }

  lemma {:induction false} ZeroStream(n: nat)
    ensures Stream(ZeroBlock(n), false) == Zeros(8 * n)
  {
    ZeroMsb(8);
    hide MsbFirst;
    if n > 0 {
      ZeroStream(n - 1);
      assert ZeroBlock(n)[1..] == ZeroBlock(n - 1);
      assert Zeros(8) + Zeros(8 * (n - 1)) == Zeros(8 * n);
    }
  }

  lemma TopOnly()
    ensures Stream([0x80], false) == [true] + Zeros(7)
  {
    assert Pow2(8) == 256;
    ZeroMsb(7);
    HighBitSet();
    assert [0x80][1..] == [];
  }

  lemma HighBitSet()
    ensures MsbFirst(0x80) == [true] + Zeros(7)
  {
    var s := [true] + Zeros(7);
    forall k | 0 <= k < 8 ensures MsbFirst(0x80)[k] == s[k] { BitTest(0x80, 8, 7 - k); }
  }

  /**
    Section 6.2 step by step: a message of one block is masked with the first subkey if it is complete and padded and
    masked with the second if not; the first block of a longer one is enciphered and added to the next.
   */
  lemma StandardSteps(f: BlockFn, n: nat, k1: Block, k2: Block, m: seq<byte>, t: Block)
    requires n > 0 && Keeps(f, n) && Subkeys(f, n, k1, k2) && IsCmac(f, n, m, t)
    ensures |m| == n ==> t == f(Cbc.Xor(m, k1))
    ensures |m| < n ==> t == f(Cbc.Xor(m + [0x80] + ZeroBlock(n - |m| - 1), k2))
    ensures |m| > n ==> t == Mac(f, n, k1, k2, f(m[..n]), m[n..])
    ensures n < |m| <= 2 * n ==>
      t == f(Cbc.Xor(f(m[..n]), if |m| == 2 * n then Cbc.Xor(m[n..], k1) else Cbc.Xor(Pad(m[n..], n), k2)))
  {
    if |m| <= n { Cbc.XorZero(LastBlock(m, n, k1, k2)); } else { Cbc.XorZero(m[..n]); }
  }

  /** The subkeys are determined by their bits, so there is at most one pair. */
  lemma SubkeysUnique(f: BlockFn, n: nat, k1: Block, k2: Block, l1: Block, l2: Block)
    requires n > 0 && Keeps(f, n) && Subkeys(f, n, k1, k2) && Subkeys(f, n, l1, l2)
    ensures k1 == l1 && k2 == l2
  {
    StreamInjective(k1, l1);
    StreamInjective(k2, l2);
  }

  lemma {:induction false} StreamInjective(a: Block, b: Block)
    requires BlockBits(a) == BlockBits(b)
    ensures a == b
  {
    hide MsbFirst;
    assert |a| == |b|;
    forall i | 0 <= i < |a| ensures a[i] == b[i] {
      StreamAt(a, false, i);
      StreamAt(b, false, i);
      MsbFirstInjective(a[i], b[i]);
    }
  }

  // ---------------------------------------------------------------------------
  // Doubling a block byte by byte
  // ---------------------------------------------------------------------------

  function TopBit(b: seq<byte>): byte { if b != [] && b[0] >= 128 then 1 else 0 }

  /** Every byte moves up one bit and takes in the top bit of the next. */
  function ShiftBytes(b: Block): (r: Block)
    ensures |r| == |b|
  {
    if b == [] then [] else [2 * b[0] % 256 + TopBit(b[1..])] + ShiftBytes(b[1..])
  }

  lemma {:induction false} HighestBit(x: nat, n: nat)
    requires x < Pow2(n + 1)
    ensures BitsOf(x, n + 1)[0] <==> x >= Pow2(n)
  {
    assert BitsOf(x, n + 1) == BitsOf(x / 2, n) + [x % 2 == 1];
    if n > 0 { HighestBit(x / 2, n - 1); }
  }

  lemma TopBitIs(b: byte)
    ensures MsbFirst(b)[0] <==> b >= 128
  {
    assert Pow2(8) == 256 && Pow2(7) == 128;
    HighestBit(b, 7);
  }

  lemma ShiftedByte(b: byte, c: byte)
    requires c <= 1
    ensures 2 * b % 256 + c < 256
    ensures MsbFirst(2 * b % 256 + c) == MsbFirst(b)[1..] + [c == 1]
  {
    hide MsbFirst;
    var x: int, y: int := b, c;
    ShiftLeftByte(b, c);
    assert (2 * x + y % 2) % 256 == 2 * x % 256 + y;
  }

  lemma {:induction false} ShiftStream(b: Block)
    requires b != []
    ensures Stream(ShiftBytes(b), false) == Stream(b, false)[1..] + [false]
  {
    hide MsbFirst;
    var rest := b[1..];
    ShiftedByte(b[0], TopBit(rest));
    var head := 2 * b[0] % 256 + TopBit(rest);
    assert ShiftBytes(b) == [head] + ShiftBytes(rest);
    if rest == [] {
      OneByte(head);
      OneByte(b[0]);
      assert b == [b[0]];
    } else {
      ShiftStream(rest);
      TopBitIs(rest[0]);
      assert Stream(rest, false)[0] == MsbFirst(rest[0])[0];
      hide ShiftBytes, Stream;
      StreamCons(head, ShiftBytes(rest));
      StreamCons(b[0], rest);
      assert b == [b[0]] + rest;
      ShiftGlue(MsbFirst(b[0]), Stream(rest, false));
    }
  }

  lemma OneByte(b: byte)
    ensures Stream([b], false) == MsbFirst(b)
  {
    hide MsbFirst;
    assert [b][1..] == [] && MsbFirst(b) + [] == MsbFirst(b);
  }

  lemma StreamCons(b: byte, rest: seq<byte>)
    ensures Stream([b] + rest, false) == MsbFirst(b) + Stream(rest, false)
  {
    hide MsbFirst;
    assert ([b] + rest)[1..] == rest;
  }

  lemma ShiftGlue(first: seq<bool>, s: seq<bool>)
    requires first != [] && s != []
    ensures first[1..] + [s[0]] + (s[1..] + [false]) == (first + s)[1..] + [false]
  {
  }

  /** `L << 1`, then the reduction byte into the last place if the top bit was set. */
  function DoubleBytes(b: Block): (r: Block)
    requires b != []
    ensures |r| == |b|
  {
    var n, shifted := |b|, ShiftBytes(b);
    if b[0] >= 128 then shifted[n - 1 := XorByte(shifted[n - 1], ReductionByte(n))] else shifted
  }

  /** The byte-wise shift with its conditional reduction is multiplication by x in the field. */
  lemma DoublingIsTimesX(b: Block)
    requires b != []
    ensures BlockBits(DoubleBytes(b)) == TimesX(BlockBits(b), |b|)
  {
    hide MsbFirst, XorByte;
    var n, shifted, s := |b|, ShiftBytes(b), BlockBits(b);
    ShiftStream(b);
    TopBitIs(b[0]);
    assert s[0] == MsbFirst(b[0])[0];
    assert BlockBits(shifted) == s[1..] + [false] == (s + [false])[1..];
    if s[0] {
      XorLast(shifted, ReductionByte(n));
      XorTail(s + [false], [true] + ReductionBits(n));
    }
  }

  lemma XorTail(a: seq<bool>, b: seq<bool>)
    requires |a| == |b| > 0
    ensures XorBits(a, b)[1..] == XorBits(a[1..], b[1..])
  {
  }

  lemma XorLast(b: Block, r: byte)
    requires b != []
    ensures BlockBits(b[|b| - 1 := XorByte(b[|b| - 1], r)]) == XorBits(BlockBits(b), Zeros(8 * (|b| - 1)) + MsbFirst(r))
  {
    hide MsbFirst;
    var n := |b| - 1;
    StreamLast(b);
    var c := b[n := XorByte(b[n], r)];
    StreamLast(c);
    assert c[..n] == b[..n];
    XorByteBits(b[n], r);
    var high, low := Stream(b[..n], false), MsbFirst(b[n]);
    assert XorBits(high + low, Zeros(8 * n) + MsbFirst(r)) == high + XorBits(low, MsbFirst(r));
  }

  lemma XorByteBits(a: byte, b: byte)
    ensures MsbFirst(XorByte(a, b)) == XorBits(MsbFirst(a), MsbFirst(b))
  {
    ByteOfBits(XorBits(MsbFirst(a), MsbFirst(b)), 0);
  }

  lemma {:induction false} StreamLast(b: Block)
    requires b != []
    ensures Stream(b, false) == Stream(b[..|b| - 1], false) + MsbFirst(b[|b| - 1])
  {
    hide MsbFirst;
    var n := |b| - 1;
    if n > 0 {
      StreamLast(b[1..]);
      assert b[1..][..n - 1] == b[..n][1..];
      var x, y, z := MsbFirst(b[0]), Stream(b[..n][1..], false), MsbFirst(b[n]);
      assert x + (y + z) == x + y + z;
    } else {
      assert b[1..] == [] && b[..n] == [];
    }
  }

  lemma DoubledSubkeys(f: BlockFn, n: nat)
    requires n > 0 && Keeps(f, n)
    ensures
      var k1 := DoubleBytes(f(ZeroBlock(n)));
      Subkeys(f, n, k1, DoubleBytes(k1))
  {
    hide DoubleBytes;
    var k1 := DoubleBytes(f(ZeroBlock(n)));
    DoublingIsTimesX(f(ZeroBlock(n)));
    DoublingIsTimesX(k1);
  }

  /** The value of the chain under any subkeys is the CMAC. */
  lemma CmacFrom(f: BlockFn, n: nat, m: seq<byte>, k1: Block, k2: Block)
    requires n > 0 && Keeps(f, n) && Subkeys(f, n, k1, k2)
    ensures IsCmac(f, n, m, Mac(f, n, k1, k2, ZeroBlock(n), m))
  {
    hide Subkeys, Mac;
    forall l1, l2 | Subkeys(f, n, l1, l2) ensures l1 == k1 && l2 == k2 {
      SubkeysUnique(f, n, l1, l2, k1, k2);
    }
  }

  /** Two routines that both compute the CMAC agree on every message. */
  lemma CmacUnique(f: BlockFn, n: nat, m: seq<byte>, t: Block, u: Block)
    requires n > 0 && Keeps(f, n) && IsCmac(f, n, m, t) && IsCmac(f, n, m, u)
    ensures t == u
  {
    hide Mac, DoubleBytes, Subkeys;
    DoubledSubkeys(f, n);
    var k1 := DoubleBytes(f(ZeroBlock(n)));
    assert Subkeys(f, n, k1, DoubleBytes(k1));
  }

  // ---------------------------------------------------------------------------
  // The two stand-alone routines: `n` and `r` are 16 and 0x87 for AES, 8 and 0x1B for 3DES
  // ---------------------------------------------------------------------------

  method LeftShift(input: array<byte>, output: array<byte>)
    requires input != output && input.Length == output.Length
    modifies output
    ensures output[..] == ShiftBytes(input[..])
  {
    var overflow: byte := 0;
    for i := input.Length downto 0
      invariant output[i..] == ShiftBytes(input[i..]) && overflow == TopBit(input[i..])
    {
      assert input[i..][1..] == input[i + 1..];
      output[i] := 2 * input[i] % 256 + overflow;
      overflow := if input[i] >= 128 then 1 else 0;
      assert output[i..] == [output[i]] + output[i + 1..];
    }
    assert output[..] == output[0..] && input[..] == input[0..];
  }

  /** Left shift and conditional reduction of `input` into `output`. */
  method Double(input: array<byte>, output: array<byte>, r: byte)
    requires input != output && input.Length == output.Length > 0 && r == ReductionByte(input.Length)
    modifies output
    ensures output[..] == DoubleBytes(input[..])
  {
    hide ShiftBytes, XorByte;
    LeftShift(input, output);
    if input[0] >= 128 {
      var last := output.Length - 1;
      output[last] := XorByte(output[last], r);
    }
  }

  method GenerateSubkeys(f: BlockFn, n: nat, r: byte, sk1: array<byte>, sk2: array<byte>)
    requires n > 0 && Keeps(f, n) && r == ReductionByte(n)
    requires sk1.Length == sk2.Length == n && sk1 != sk2
    modifies sk1, sk2
    ensures Subkeys(f, n, sk1[..], sk2[..])
  {
    hide DoubleBytes, Subkeys;
    var l := new byte[n](_ => 0);
    assert l[..] == ZeroBlock(n);
    CopyInto(l, 0, f(l[..]));
    assert l[..] == l[..n] == f(ZeroBlock(n));
    Double(l, sk1, r);
    Double(sk1, sk2, r);
    DoubledSubkeys(f, n);
  }

  /** A 1 bit and zeros behind the `|lastb|` bytes. */
  method Padding(lastb: seq<byte>, pad: array<byte>)
    requires |lastb| < pad.Length && pad[..] == ZeroBlock(pad.Length)
    modifies pad
    ensures pad[..] == Pad(lastb, pad.Length)
  {
    ghost var zeros := pad[..];
    CopyInto(pad, 0, lastb);
    assert pad[|lastb| + 1..] == pad[|lastb|..][1..] == zeros[|lastb|..][1..];
    pad[|lastb|] := 0x80;
    assert pad[..] == pad[..|lastb|] + [0x80] + pad[|lastb| + 1..];
  }

  method XorBlocks(a: seq<byte>, b: seq<byte>, out: array<byte>)
    requires |a| == |b| == out.Length
    modifies out
    ensures out[..] == Cbc.Xor(a, b)
  {
    hide XorByte;
    for i := 0 to out.Length
      invariant forall k :: 0 <= k < i ==> out[k] == XorByte(a[k], b[k])
    {
      out[i] := XorByte(a[i], b[i]);
    }
  }

  /** Where block `i` starts. */
  function Start(n: nat, i: nat): nat { n * i }

  /** There are `q` blocks, all but the last complete. */
  predicate Blocks(len: nat, n: nat, q: nat)
    requires n > 0
  {
    q > 0 && Start(n, q - 1) <= len <= Start(n, q - 1) + n && (len == Start(n, q - 1) ==> len == 0)
  }

  /** The block count the routines compute, and how long the last block is. */
  lemma BlockCount(len: nat, n: nat)
    requires n > 0
    ensures len == 0 ==> (len + n - 1) / n == 0 && Blocks(len, n, 1) && Start(n, 0) == 0
    ensures
      var q := (len + n - 1) / n;
      len > 0 ==> Blocks(len, n, q) && len - Start(n, q - 1) == if len % n == 0 then n else len % n
  {
    var q, r := len / n, len % n;
    assert len == Start(n, q) + r;
    assert Start(n, 0) == 0;
    RoundUp(len, n, q, r);
    if r == 0 && len > 0 {
      assert q > 0;
      NextBlock(n, q - 1);
    }
  }

  lemma RoundUp(len: nat, n: nat, q: nat, r: nat)
    requires n > 0 && r < n && len == Start(n, q) + r
    ensures (len + n - 1) / n == if r == 0 then q else q + 1
  {
    if r == 0 {
      DivModUnique(len + n - 1, n, q, n - 1);
    } else {
      NextBlock(n, q);
      DivModUnique(len + n - 1, n, q + 1, r - 1);
    }
  }

  lemma NextBlock(n: nat, i: nat)
    ensures Start(n, i + 1) == Start(n, i) + n
  {
  }

  lemma {:induction false} BlockRoom(n: nat, q: nat, i: nat)
    requires i < q
    ensures Start(n, i) + n <= Start(n, q)
  {
    hide Start;
    NextBlock(n, q - 1);
    if i < q - 1 { BlockRoom(n, q - 1, i); }
  }

  /** One chaining step, on the message from `i` on. */
  lemma {:induction false} MacStep(f: BlockFn, n: nat, k1: Block, k2: Block, c: Block, m: seq<byte>, i: nat)
    requires n > 0 && Keeps(f, n) && |k1| == |k2| == |c| == n && i + n < |m|
    ensures Mac(f, n, k1, k2, c, m[i..]) == Mac(f, n, k1, k2, f(Cbc.Xor(c, m[i..i + n])), m[i + n..])
  {
    assert m[i..][..n] == m[i..i + n] && m[i..][n..] == m[i + n..];
  }

  /** Step 4 of section 6.2: `last` is the masked last block. */
  method MaskLast(input: seq<byte>, n: nat, sk1: array<byte>, sk2: array<byte>, last: array<byte>) returns (blocks: nat)
    requires n > 0 && sk1.Length == sk2.Length == last.Length == n && last != sk1 && last != sk2
    modifies last
    ensures Blocks(|input|, n, blocks)
    ensures last[..] == LastBlock(input[Start(n, blocks - 1)..], n, sk1[..], sk2[..])
  {
    hide Start, Cbc.Xor;
    var tail := |input| % n;
    var complete := tail == 0 && |input| != 0;
    var buffer := new byte[n](_ => 0);
    assert buffer[..] == ZeroBlock(n);
    blocks := (|input| + n - 1) / n;
    BlockCount(|input|, n);
    if blocks == 0 {
      blocks := 1;
      ghost var zeros := buffer[..];
      buffer[0] := 0x80;
      assert buffer[..] == [0x80] + zeros[1..] == Pad([], n);
      assert input[0..] == [];
      XorBlocks(buffer[..], sk2[..], last);
    } else {
      var lastBlock := input[Start(n, blocks - 1)..];
      if complete {
        XorBlocks(lastBlock, sk1[..], last);
      } else {
        Padding(lastBlock[..tail], buffer);
        assert lastBlock[..tail] == lastBlock;
        XorBlocks(buffer[..], sk2[..], last);
      }
    }
  }

  /** The CMAC of `input` under `f`; the subkeys are left in `sk1` and `sk2`. */
  method Compute(f: BlockFn, n: nat, r: byte, input: seq<byte>, sk1: array<byte>, sk2: array<byte>,
                 output: array<byte>)
    requires n > 0 && Keeps(f, n) && r == ReductionByte(n)
    requires sk1.Length == sk2.Length == output.Length == n && sk1 != sk2 && output != sk1 && output != sk2
    modifies sk1, sk2, output
    ensures Subkeys(f, n, sk1[..], sk2[..])
    ensures IsCmac(f, n, input, output[..])
  {
    hide Subkeys, Mac, IsCmac, LastBlock, Cbc.Xor, Start;
    var last, y := new byte[n], new byte[n];
    var x := new byte[n](_ => 0);
    assert x[..] == ZeroBlock(n);
    GenerateSubkeys(f, n, r, sk1, sk2);
    ghost var k1, k2 := sk1[..], sk2[..];
    var blocks := MaskLast(input, n, sk1, sk2, last);
    ghost var masked, mac := last[..], Mac(f, n, k1, k2, ZeroBlock(n), input);
    BlockCount(0, n);
    assert input[0..] == input;
    var i := 0;
    while i < blocks - 1
      invariant 0 <= i <= blocks - 1 && Start(n, i) <= |input|
      invariant sk1[..] == k1 && sk2[..] == k2 && last[..] == masked
      invariant Mac(f, n, k1, k2, x[..], input[Start(n, i)..]) == mac
    {
      BlockRoom(n, blocks - 1, i);
      MacStep(f, n, k1, k2, x[..], input, Start(n, i));
      NextBlock(n, i);
      XorBlocks(x[..], input[Start(n, i)..Start(n, i) + n], y);
      CopyInto(x, 0, f(y[..]));
      assert x[..] == x[..n];
      i := i + 1;
    }
    XorBlocks(x[..], last[..], y);
    CopyInto(output, 0, f(y[..]));
    assert output[..] == output[..n];
    LastStep(f, n, k1, k2, x[..], input[Start(n, i)..]);
    CmacFrom(f, n, input, k1, k2);
  }

  lemma LastStep(f: BlockFn, n: nat, k1: Block, k2: Block, c: Block, m: seq<byte>)
    requires n > 0 && Keeps(f, n) && |k1| == |k2| == |c| == n && |m| <= n
    ensures Mac(f, n, k1, k2, c, m) == f(Cbc.Xor(c, LastBlock(m, n, k1, k2)))
  {
  }

  /** `ulaes_cmac`: AES, 16-byte blocks. The subkeys stay in the secure session. */
  method UlaesCmac(aes: BlockFn, input: seq<byte>, sk1: array<byte>, sk2: array<byte>, output: array<byte>)
    requires Keeps(aes, 16)
    requires sk1.Length == sk2.Length == output.Length == 16 && sk1 != sk2 && output != sk1 && output != sk2
    modifies sk1, sk2, output
    ensures Subkeys(aes, 16, sk1[..], sk2[..])
    ensures IsCmac(aes, 16, input, output[..])
  {
    Compute(aes, 16, 0x87, input, sk1, sk2, output);
  }

  /** `des3_cmac`: two- or three-key 3DES, 8-byte blocks. */
  method Des3Cmac(des3: BlockFn, input: seq<byte>, output: array<byte>)
    requires Keeps(des3, 8) && output.Length == 8
    modifies output
    ensures IsCmac(des3, 8, input, output[..])
  {
    var k1, k2 := new byte[8], new byte[8];
    Compute(des3, 8, 0x1B, input, k1, k2, output);
  }
}
