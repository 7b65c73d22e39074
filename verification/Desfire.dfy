/** The DESFire MAC: subkeys and message authentication on top of block chaining. */
module Desfire {
  import opened Bits
  import opened Cbc
  import opened Cmac

  datatype KeyType = Des | TripleDes | TripleKeyDes | Aes

  function BlockSize(key: KeyType): nat { if key == Aes then 16 else 8 }

  /** The space `len` bytes take when padded to whole blocks; an empty message takes a block. */
  function PaddedLength(len: nat, n: nat): nat
    requires n > 0
  {
    if len == 0 || len % n != 0 then (len / n + 1) * n else len
  }

  /** The padded length is the least positive number of whole blocks that holds the data. */
  lemma PaddedLengthIsLeast(len: nat, n: nat)
    requires n > 0
    ensures Whole(PaddedLength(len, n), n) && len <= PaddedLength(len, n) && PaddedLength(len, n) > 0
    ensures PaddedLength(len, n) == if len == 0 then n else if len % n == 0 then len else len + (n - len % n)
    ensures forall k :: len <= k && 0 < k && Whole(k, n) ==> PaddedLength(len, n) <= k
  {
    var q, r := len / n, len % n;
    assert len == n * q + r;
    if len == 0 || r != 0 {
      assert (q + 1) * n == n * (q + 1) == n * q + n;
      DivModUnique((q + 1) * n, n, q + 1, 0);
    }
    forall k | len <= k && 0 < k && Whole(k, n) ensures PaddedLength(len, n) <= k { NoSmaller(len, n, k); }
  }

  lemma NoSmaller(len: nat, n: nat, k: nat)
    requires n > 0 && len <= k && 0 < k && Whole(k, n)
    ensures PaddedLength(len, n) <= k
  {
    var q, r, p := len / n, len % n, k / n;
    assert len == n * q + r && k == n * p;
    if len == 0 || r != 0 {
      if p <= q {
        Ordered(p, q, n);
      } else {
        Ordered(q + 1, p, n);
        assert (q + 1) * n == n * (q + 1);
      }
    }
  }

  lemma Ordered(a: nat, b: nat, n: nat)
    requires a <= b
    ensures n * a <= n * b
  {
    assert n * (b - a) >= 0;
  }

  // ---------------------------------------------------------------------------
  // Subkeys
  // ---------------------------------------------------------------------------

  /** `lsl`: one bit to the left in place, front to back. */
  method Lsl(d: array<byte>)
    requires d.Length > 0
    modifies d
    ensures d[..] == ShiftBytes(old(d[..]))
  {
    ghost var was := d[..];
    hide ShiftBytes;
    for i := 0 to d.Length - 1
      invariant d[i..] == was[i..]
      invariant forall k :: 0 <= k < i ==> d[k] == ShiftBytes(was)[k]
    {
      ShiftAt(was, i);
      assert d[i] == was[i] && d[i + 1] == was[i + 1];
      var x: int, y: int := d[i], d[i + 1];
      d[i] := 2 * x % 256 + y / 128;
      assert d[i + 1..] == was[i..][1..];
    }
    var last := d.Length - 1;
    ShiftAt(was, last);
    assert d[last] == was[last..][0];
    var x: int := d[last];
    d[last] := 2 * x % 256;
  }

  lemma {:induction false} ShiftAt(b: Block, i: nat)
    requires i < |b|
    ensures ShiftBytes(b)[i] == 2 * b[i] % 256 + TopBit(b[i + 1..])
  {
    if i > 0 {
      ShiftAt(b[1..], i - 1);
      assert b[1..][i..] == b[i + 1..];
    }
  }

  method DoubleInPlace(d: array<byte>, r: byte)
    requires d.Length > 0 && r == ReductionByte(d.Length)
    modifies d
    ensures d[..] == DoubleBytes(old(d[..]))
  {
    hide ShiftBytes, XorByte;
    var reduce := d[0] >= 128;
    Lsl(d);
    if reduce {
      d[d.Length - 1] := XorByte(d[d.Length - 1], r);
    }
  }

  /** `cmac_generate_subkeys`: the zero block is enciphered by receiving it under a zero vector. */
  method GenerateSubkeys(f: BlockFn, key: KeyType, sk1: array<byte>, sk2: array<byte>)
    requires sk1.Length == sk2.Length == (if key == Aes then 16 else 8) && sk1 != sk2 && Keeps(f, sk1.Length)
    modifies sk1, sk2
    ensures Subkeys(f, sk1.Length, sk1[..], sk2[..])
  {
    hide DoubleBytes, Subkeys, Chain, Whole;
    var n := BlockSize(key);
    var r: byte := if n == 8 then 0x1B else 0x87;
    var l := new byte[n](_ => 0);
    var ivect := new byte[n](_ => 0);
    FewBlocks(n);
    assert l[..] == ZeroBlock(n) && ivect[..n] == ZeroBlock(n);
    CypherBlocksChained(f, l, ivect, Receive, n, false);
    ZeroReceived(f, n);
    CopyInto(sk1, 0, l[..]);
    assert sk1[..] == sk1[..n];
    DoubleInPlace(sk1, r);
    CopyInto(sk2, 0, sk1[..]);
    assert sk2[..] == sk2[..n];
    DoubleInPlace(sk2, r);
    DoubledSubkeys(f, n);
  }

  lemma ZeroReceived(f: BlockFn, n: nat)
    requires n > 0 && Keeps(f, n)
    ensures Whole(n, n) && Chain(f, n, ZeroBlock(n), ZeroBlock(n), Receive).data == f(ZeroBlock(n))
  {
    hide Chain, Whole, Cbc.Xor;
    var zero := ZeroBlock(n);
    FewBlocks(n);
    ChainHead(f, n, zero, zero, [], Receive);
    NothingChained(f, n, zero, Receive);
    XorZero(f(zero));
    assert zero + [] == zero && f(zero) + [] == f(zero);
  }

  // ---------------------------------------------------------------------------
  // The MAC
  // ---------------------------------------------------------------------------

  /** The message with its last block padded and masked. */
  function Masked(m: seq<byte>, n: nat, k1: Block, k2: Block): seq<byte>
    requires n > 0 && |k1| == |k2| == n
    decreases |m|
  {
    if |m| <= n then LastBlock(m, n, k1, k2) else m[..n] + Masked(m[n..], n, k1, k2)
  }

  /** Chaining the masked message is MACing: the last vector is the MAC from the first one. */
  lemma {:induction false} ChainIsMac(f: BlockFn, n: nat, k1: Block, k2: Block, iv: Block, m: seq<byte>)
    requires n > 0 && Keeps(f, n) && |k1| == |k2| == |iv| == n
    ensures Whole(|Masked(m, n, k1, k2)|, n)
    ensures Chain(f, n, iv, Masked(m, n, k1, k2), Send).iv == Mac(f, n, k1, k2, iv, m)
    decreases |m|
  {
    hide Chain, Whole, LastBlock, Cbc.Xor;
    if |m| <= n {
      var last := LastBlock(m, n, k1, k2);
      FewBlocks(n);
      ChainHead(f, n, iv, last, [], Send);
      var out := f(Cbc.Xor(last, iv));
      NothingChained(f, n, out, Send);
      XorSwap(last, iv);
      assert last + [] == last;
    } else {
      var out := f(Cbc.Xor(m[..n], iv));
      ChainIsMac(f, n, k1, k2, out, m[n..]);
      ChainHead(f, n, iv, m[..n], Masked(m[n..], n, k1, k2), Send);
      XorSwap(m[..n], iv);
    }
  }

  lemma XorSwap(a: Block, b: Block)
    requires |a| == |b|
    ensures Cbc.Xor(a, b) == Cbc.Xor(b, a)
  {
    hide MsbFirst, ByteOf;
    forall i | 0 <= i < |a| ensures XorByte(a[i], b[i]) == XorByte(b[i], a[i]) {
      assert XorBits(MsbFirst(a[i]), MsbFirst(b[i])) == XorBits(MsbFirst(b[i]), MsbFirst(a[i]));
    }
  }

  /** Masking touches the last block of the padded message alone. */
  lemma {:induction false} MaskedIs(m: seq<byte>, n: nat, k1: Block, k2: Block, s: nat)
    requires n > 0 && |k1| == |k2| == n && s <= |m| <= s + n && Whole(s, n) && (s == |m| ==> m == [])
    ensures Masked(m, n, k1, k2) == m[..s] + LastBlock(m[s..], n, k1, k2)
    decreases |m|
  {
    hide LastBlock, Whole;
    if s == 0 {
      assert m[0..] == m;
    } else {
      WholeBlocks(s, n);
      MaskedIs(m[n..], n, k1, k2, s - n);
      assert m[n..][s - n..] == m[s..] && m[..n] + m[n..][..s - n] == m[..s];
    }
  }

  /** Where the last block starts. */
  lemma LastStart(len: nat, n: nat)
    requires n > 0
    ensures
      var s := PaddedLength(len, n) - n;
      Whole(PaddedLength(len, n), n) && 0 <= s <= len <= s + n && Whole(s, n) && (s == len ==> len == 0)
    ensures len == 0 || len % n != 0 <==> len < PaddedLength(len, n)
  {
    PaddedLengthIsLeast(len, n);
    hide PaddedLength;
    WholeBlocks(PaddedLength(len, n), n);
  }

  /** The message in a buffer of `size` bytes, with the padding there is room for. */
  function Padded(m: seq<byte>, size: nat): (r: seq<byte>)
    requires |m| <= size
    ensures |r| == size
  {
    if |m| < size then m + [0x80] + ZeroBlock(size - |m| - 1) else m
  }

  /** The message in its buffer, which `BigBuf_calloc` hands out zeroed. */
  method FillBuffer(data: seq<byte>, n: nat) returns (buffer: array<byte>)
    requires n > 0
    ensures fresh(buffer) && |data| <= buffer.Length == PaddedLength(|data|, n)
    ensures buffer[..] == Padded(data, buffer.Length)
  {
    PaddedLengthIsLeast(|data|, n);
    hide PaddedLength, Whole;
    var size := PaddedLength(|data|, n);
    buffer := new byte[size](_ => 0);
    assert buffer[..] == ZeroBlock(size);
    assert ZeroBlock(size)[|data|..] == ZeroBlock(size - |data|);
    CopyInto(buffer, 0, data);
    assert buffer[..] == buffer[..|data|] + buffer[|data|..] == data + ZeroBlock(size - |data|);
    var len := AddPadding(data, n, buffer);
  }

  /** The padding loop stops exactly at the end of the buffer. */
  method AddPadding(data: seq<byte>, n: nat, buffer: array<byte>) returns (len: nat)
    requires n > 0 && |data| <= buffer.Length == PaddedLength(|data|, n)
    requires buffer[..] == data + ZeroBlock(buffer.Length - |data|)
    modifies buffer
    ensures buffer[..] == Padded(data, buffer.Length) && len == buffer.Length
  {
    LastStart(|data|, n);
    WholeBlockEnds(|data|, n);
    hide PaddedLength;
    len := |data|;
    if len == 0 || len % n != 0 {
      ghost var padded := Padded(data, buffer.Length);
      buffer[len] := 0x80;
      assert buffer[..] == padded;
      len := len + 1;
      while len % n != 0
        invariant |data| < len <= buffer.Length
        invariant buffer[..] == padded
        decreases buffer.Length - len
      {
        assert padded[len] == 0;
        buffer[len] := 0x00;
        len := len + 1;
      }
      NoSmaller(|data|, n, len);
    }
  }

  /** The padded length is whole. */
  lemma WholeBlockEnds(len: nat, n: nat)
    requires n > 0
    ensures PaddedLength(len, n) % n == 0
  {
    PaddedLengthIsLeast(len, n);
  }

  lemma PaddedEnd(m: seq<byte>, n: nat, size: nat)
    requires n > 0 && n <= size && size - n <= |m| <= size
    ensures Padded(m, size)[..size - n] == m[..size - n]
    ensures Padded(m, size)[size - n..] == if |m| < size then Pad(m[size - n..], n) else m[size - n..]
  {
  }

  lemma {:induction false} MaskedFrom(m: seq<byte>, n: nat, k1: Block, k2: Block, size: nat)
    requires n > 0 && |k1| == |k2| == n
    requires n <= size && size - n <= |m| <= size && Whole(size - n, n) && (size - n == |m| ==> m == [])
    ensures
      var padded, s := Padded(m, size), size - n;
      Masked(m, n, k1, k2) == padded[..s] + Cbc.Xor(padded[s..], if |m| < size then k2 else k1)
  {
    hide Whole, Cbc.Xor, Masked, Pad, Padded;
    var s := size - n;
    PaddedEnd(m, n, size);
    MaskedIs(m, n, k1, k2, s);
    assert LastBlock(m[s..], n, k1, k2) == Cbc.Xor(Padded(m, size)[s..], if |m| < size then k2 else k1);
  }

  /** The padded message, its last block masked with the first subkey if the message fills it, else the second. */
  method MaskMessage(data: seq<byte>, n: nat, sk1: array<byte>, sk2: array<byte>) returns (buffer: array<byte>)
    requires n > 0 && sk1.Length == sk2.Length == n
    ensures fresh(buffer) && buffer[..] == Masked(data, n, sk1[..], sk2[..])
  {
    LastStart(|data|, n);
    hide PaddedLength, Whole, Cbc.Xor, Masked, Pad, Padded;
    MaskedFrom(data, n, sk1[..], sk2[..], PaddedLength(|data|, n));
    buffer := FillBuffer(data, n);
    var sk := if |data| < buffer.Length then sk2 else sk1;
    XorLastBlock(buffer, sk);
  }

  method XorLastBlock(buffer: array<byte>, sk: array<byte>)
    requires sk.Length <= buffer.Length && sk != buffer
    modifies buffer
    ensures
      var s := buffer.Length - sk.Length;
      buffer[..] == old(buffer[..s]) + Cbc.Xor(old(buffer[s..]), sk[..])
  {
    hide Cbc.Xor;
    var n := sk.Length;
    var s := buffer.Length - n;
    assert buffer[s..] == buffer[s..s + n];
    XorInto(buffer, s, sk, n);
    assert sk[..n] == sk[..];
    assert buffer[..] == buffer[..s] + buffer[s..s + n];
  }

  /**
    `cmac`: the MAC of `data` from the running vector, which it becomes; under a zero vector it is the CMAC.
   */
  method Compute(f: BlockFn, key: KeyType, sk1: array<byte>, sk2: array<byte>, ivect: array<byte>,
                 data: seq<byte>, mac: array<byte>)
    requires sk1.Length == sk2.Length == ivect.Length == mac.Length == if key == Aes then 16 else 8
    requires Keeps(f, mac.Length) && ivect != sk1 && ivect != sk2 && ivect != mac
    requires Subkeys(f, mac.Length, sk1[..], sk2[..])
    modifies ivect, mac
    ensures mac[..] == ivect[..] == Mac(f, mac.Length, old(sk1[..]), old(sk2[..]), old(ivect[..]), data)
    ensures old(ivect[..]) == ZeroBlock(mac.Length) ==> IsCmac(f, mac.Length, data, mac[..])
  {
    var n := BlockSize(key);
    assert n > 0;
    ghost var k1, k2, iv := sk1[..], sk2[..], ivect[..];
    hide BlockSize, Subkeys, Mac, IsCmac, Chain, Whole, Masked;
    var buffer := MaskMessage(data, n, sk1, sk2);
    ChainIsMac(f, n, k1, k2, iv, data);
    assert ivect[..n] == iv;
    CypherBlocksChained(f, buffer, ivect, Send, n, false);
    assert ivect[..] == ivect[..n];
    CopyInto(mac, 0, ivect[..n]);
    assert mac[..] == mac[..n];
    if iv == ZeroBlock(n) { CmacFrom(f, n, data, k1, k2); }
  }
}
