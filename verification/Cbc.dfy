/** Blocks of bytes, a block function, and cipher block chaining in place. */
module Cbc {
  import opened Bits

  type Block = seq<byte>
  type BlockFn = seq<byte> -> seq<byte>

  datatype Direction = Send | Receive

  /** `f` maps blocks of `n` bytes to blocks of `n` bytes. */
  ghost predicate Keeps(f: BlockFn, n: nat) { forall x: Block :: |x| == n ==> |f(x)| == n }

  ghost predicate Undoes(g: BlockFn, f: BlockFn, n: nat) { forall x: Block :: |x| == n ==> g(f(x)) == x }

  function XorBits(a: seq<bool>, b: seq<bool>): (r: seq<bool>)
    requires |a| == |b|
    ensures |r| == |a|
  {
    seq(|a|, i requires 0 <= i < |a| => a[i] != b[i])
  }

  function XorByte(a: byte, b: byte): byte { ByteOf(XorBits(MsbFirst(a), MsbFirst(b))) }

  function Xor(a: Block, b: Block): (r: Block)
    requires |a| == |b|
    ensures |r| == |a|
  {
    seq(|a|, i requires 0 <= i < |a| => XorByte(a[i], b[i]))
  }

  function ZeroBlock(n: nat): (r: Block)
    ensures |r| == n
  {
    seq(n, _ => 0)
  }

  lemma XorByteTwice(a: byte, b: byte)
    ensures XorByte(XorByte(a, b), b) == a
  {
    hide MsbFirst, ByteOf;
    var s, t := MsbFirst(a), MsbFirst(b);
    ByteOfBits(XorBits(s, t), 0);
    assert XorBits(XorBits(s, t), t) == s;
    ByteOfBits(s, a);
  }

  lemma XorTwice(a: Block, b: Block)
    requires |a| == |b|
    ensures Xor(Xor(a, b), b) == a
  {
    hide XorByte;
    forall i | 0 <= i < |a| ensures Xor(Xor(a, b), b)[i] == a[i] { XorByteTwice(a[i], b[i]); }
  }

  lemma XorZero(a: Block)
    ensures Xor(a, ZeroBlock(|a|)) == a && Xor(ZeroBlock(|a|), a) == a
  {
    hide XorByte;
    forall i | 0 <= i < |a| ensures XorByte(a[i], 0) == a[i] && XorByte(0, a[i]) == a[i] { XorByteZero(a[i]); }
  }

  lemma XorByteZero(a: byte)
    ensures XorByte(a, 0) == a && XorByte(0, a) == a
  {
    hide MsbFirst, ByteOf;
    var s := MsbFirst(a);
    assert MsbFirst(0) == Zeros(8) by { LowBitsOfZero(); }
    assert XorBits(s, Zeros(8)) == s && XorBits(Zeros(8), s) == s;
    ByteOfBits(s, a);
  }

  lemma LowBitsOfZero()
    ensures MsbFirst(0) == Zeros(8)
  {
    ZeroMsb(8);
  }

  // ---------------------------------------------------------------------------
  // Chaining
  // ---------------------------------------------------------------------------

  datatype Chained = Chained(data: seq<byte>, iv: Block)

  ghost function BlockStep(f: BlockFn, iv: Block, block: Block, direction: Direction): (r: Chained)
    requires |iv| == |block| && Keeps(f, |block|)
    ensures |r.data| == |r.iv| == |block|
  {
    if direction == Send then
      var out := f(Xor(block, iv));
      Chained(out, out)
    else Chained(Xor(f(block), iv), block)
  }

  /** `len` bytes are a whole number of blocks. */
  predicate Whole(len: nat, n: nat)
    requires n > 0
  {
    len % n == 0
  }

  lemma FewBlocks(n: nat)
    requires n > 0
    ensures Whole(0, n) && Whole(n, n)
  {
    DivModUnique(n, n, 1, 0);
  }

  /** Chaining over any whole number of blocks. */
  ghost function Chain(f: BlockFn, n: nat, iv: Block, data: seq<byte>, direction: Direction): (r: Chained)
    requires n > 0 && Keeps(f, n) && |iv| == n && Whole(|data|, n)
    ensures |r.data| == |data| && |r.iv| == n
    decreases |data|
  {
    if |data| == 0 then Chained([], iv)
    else
      WholeBlocks(|data|, n);
      var first := BlockStep(f, iv, data[..n], direction);
      var rest := Chain(f, n, first.iv, data[n..], direction);
      Chained(first.data + rest.data, rest.iv)
  }

  lemma WholeBlocks(len: nat, n: nat)
    requires n > 0 && len > 0 && Whole(len, n)
    ensures len >= n && Whole(len - n, n)
  {
    var q := len / n;
    assert len == n * q;
    assert q >= 1 ==> n * q >= n;
    SubMod(n * q, n, q);
  }

  lemma SubMod(len: nat, n: nat, q: nat)
    requires n > 0 && len == n * q && q >= 1 && len >= n
    ensures (len - n) % n == 0
  {
    DivModUnique(len - n, n, q - 1, 0);
  }

  lemma ChainHead(f: BlockFn, n: nat, iv: Block, block: Block, rest: seq<byte>, direction: Direction)
    requires n > 0 && Keeps(f, n) && |iv| == |block| == n && Whole(|rest|, n)
    ensures Whole(|block + rest|, n)
    ensures
      var step := BlockStep(f, iv, block, direction);
      var tail := Chain(f, n, step.iv, rest, direction);
      Chain(f, n, iv, block + rest, direction) == Chained(step.data + tail.data, tail.iv)
  {
    hide Whole, BlockStep;
    AddBlock(|rest|, n);
    assert (block + rest)[..n] == block && (block + rest)[n..] == rest;
  }

  lemma AddBlock(len: nat, n: nat)
    requires n > 0 && Whole(len, n)
    ensures Whole(n + len, n)
  {
    DivModUnique(n + len, n, len / n + 1, 0);
  }

  /**
    Every block of a chained message, by itself: what goes out is the block function of the block combined with what
    went out before it; what comes in is combined with what came in before it.  The first block uses the vector.
   */
  lemma {:induction false} ChainAt(f: BlockFn, n: nat, iv: Block, data: seq<byte>, off: nat, direction: Direction)
    requires n > 0 && Keeps(f, n) && |iv| == n && Whole(|data|, n) && Whole(off, n) && off + n <= |data|
    ensures off == 0 || off >= n
    ensures
      var out, block := Chain(f, n, iv, data, direction).data, data[off..off + n];
      out[off..off + n]
        == if direction == Send then f(Xor(block, if off == 0 then iv else out[off - n..off]))
           else Xor(f(block), if off == 0 then iv else data[off - n..off])
    decreases |data|
  {
    hide Whole, Xor;
    WholeBlocks(|data|, n);
    var block, rest := data[..n], data[n..];
    HeadAndRest(data, [], n);
    ChainHead(f, n, iv, block, rest, direction);
    var step := BlockStep(f, iv, block, direction);
    hide Chain;
    if off > 0 {
      WholeBlocks(off, n);
      ChainAt(f, n, step.iv, rest, off - n, direction);
      Behind(step.data, Chain(f, n, step.iv, rest, direction).data, off, n);
      Behind(block, rest, off, n);
    }
  }

  /** A block behind the first one, and the one before it. */
  lemma Behind(head: seq<byte>, tail: seq<byte>, off: nat, n: nat)
    requires |head| == n <= off <= |tail|
    ensures (head + tail)[off..off + n] == tail[off - n..off]
    ensures (head + tail)[off - n..off] == if off == n then head else (head + tail)[off - n..off]
    ensures off - n >= n ==> (head + tail)[off - n..off] == tail[off - n - n..off - n]
  {
  }

  /** The vector left behind is the last block that was on the line. */
  lemma {:induction false} ChainEnd(f: BlockFn, n: nat, iv: Block, data: seq<byte>, direction: Direction)
    requires n > 0 && Keeps(f, n) && |iv| == n && Whole(|data|, n)
    ensures data == [] || |data| >= n
    ensures
      var r := Chain(f, n, iv, data, direction);
      r.iv == if data == [] then iv else (if direction == Send then r.data else data)[|data| - n..]
    decreases |data|
  {
    if data != [] {
      hide Whole, Xor;
      WholeBlocks(|data|, n);
      ChainEnd(f, n, BlockStep(f, iv, data[..n], direction).iv, data[n..], direction);
    }
  }

  /** Sending with one function and receiving with its inverse restores the data and leaves equal vectors. */
  lemma {:induction false} SendThenReceive(f: BlockFn, g: BlockFn, n: nat, iv: Block, data: seq<byte>)
    requires n > 0 && Keeps(f, n) && Keeps(g, n) && Undoes(g, f, n) && |iv| == n && Whole(|data|, n)
    ensures
      var sent := Chain(f, n, iv, data, Send);
      Chain(g, n, iv, sent.data, Receive) == Chained(data, sent.iv)
    decreases |data|
  {
    if |data| > 0 {
      hide Whole, Chain, BlockStep;
      WholeBlocks(|data|, n);
      var block, rest := data[..n], data[n..];
      var step := BlockStep(f, iv, block, Send);
      HeadAndRest(data, [], n);
      SendUndone(f, g, iv, block);
      hide Keeps, Undoes;
      SendThenReceive(f, g, n, step.iv, rest);
      ChainHead(f, n, iv, block, rest, Send);
      ChainHead(g, n, iv, step.data, Chain(f, n, step.iv, rest, Send).data, Receive);
    }
  }

  lemma SendUndone(f: BlockFn, g: BlockFn, iv: Block, block: Block)
    requires Keeps(f, |block|) && Keeps(g, |block|) && Undoes(g, f, |block|) && |iv| == |block|
    ensures
      var step := BlockStep(f, iv, block, Send);
      BlockStep(g, iv, step.data, Receive) == Chained(block, step.iv)
  {
    hide Xor;
    XorTwice(block, iv);
  }

  /** The other order: receiving and then sending with the inverse. */
  lemma {:induction false} ReceiveThenSend(f: BlockFn, g: BlockFn, n: nat, iv: Block, data: seq<byte>)
    requires n > 0 && Keeps(f, n) && Keeps(g, n) && Undoes(g, f, n) && |iv| == n && Whole(|data|, n)
    ensures
      var received := Chain(f, n, iv, data, Receive);
      Chain(g, n, iv, received.data, Send) == Chained(data, received.iv)
    decreases |data|
  {
    if |data| > 0 {
      hide Whole, Chain, BlockStep;
      WholeBlocks(|data|, n);
      var block, rest := data[..n], data[n..];
      var step := BlockStep(f, iv, block, Receive);
      HeadAndRest(data, [], n);
      ReceiveUndone(f, g, iv, block);
      hide Keeps, Undoes;
      ReceiveThenSend(f, g, n, step.iv, rest);
      ChainHead(f, n, iv, block, rest, Receive);
      ChainHead(g, n, iv, step.data, Chain(f, n, step.iv, rest, Receive).data, Send);
    }
  }

  lemma ReceiveUndone(f: BlockFn, g: BlockFn, iv: Block, block: Block)
    requires Keeps(f, |block|) && Keeps(g, |block|) && Undoes(g, f, |block|) && |iv| == |block|
    ensures
      var step := BlockStep(f, iv, block, Receive);
      BlockStep(g, iv, step.data, Send) == Chained(block, step.iv)
  {
    hide Xor;
    XorTwice(f(block), iv);
  }

  /** A long message may be chained in two calls, split at any block boundary. */
  lemma {:induction false} ChainSplits(f: BlockFn, n: nat, iv: Block, a: seq<byte>, b: seq<byte>, direction: Direction)
    requires n > 0 && Keeps(f, n) && |iv| == n && Whole(|a|, n) && Whole(|b|, n)
    ensures Whole(|a + b|, n)
    ensures
      var first := Chain(f, n, iv, a, direction);
      var second := Chain(f, n, first.iv, b, direction);
      Chain(f, n, iv, a + b, direction) == Chained(first.data + second.data, second.iv)
    decreases |a|
  {
    if |a| == 0 {
      assert a + b == b;
    } else {
      hide Whole, Chain, BlockStep, Keeps;
      WholeBlocks(|a|, n);
      var block, rest := a[..n], a[n..];
      HeadAndRest(a, b, n);
      ChainSplits(f, n, BlockStep(f, iv, block, direction).iv, rest, b, direction);
      SplitsBehind(f, n, iv, block, rest, b, direction);
    }
  }

  lemma HeadAndRest(a: seq<byte>, b: seq<byte>, n: nat)
    requires n <= |a|
    ensures a == a[..n] + a[n..] && a + b == a[..n] + (a[n..] + b)
  {
  }

  /** If chaining splits after the first block, it splits with the first block in front. */
  lemma {:induction false} SplitsBehind(f: BlockFn, n: nat, iv: Block, block: Block, rest: seq<byte>, b: seq<byte>,
                                        direction: Direction)
    requires n > 0 && Keeps(f, n) && |iv| == |block| == n
    requires Whole(|rest|, n) && Whole(|b|, n) && Whole(|rest + b|, n)
    requires
      var first := Chain(f, n, BlockStep(f, iv, block, direction).iv, rest, direction);
      var second := Chain(f, n, first.iv, b, direction);
      Chain(f, n, BlockStep(f, iv, block, direction).iv, rest + b, direction)
        == Chained(first.data + second.data, second.iv)
    ensures Whole(|block + rest|, n) && Whole(|block + (rest + b)|, n)
    ensures
      var first := Chain(f, n, iv, block + rest, direction);
      var second := Chain(f, n, first.iv, b, direction);
      Chain(f, n, iv, block + (rest + b), direction) == Chained(first.data + second.data, second.iv)
  {
    hide Whole, Chain, BlockStep, Keeps;
    ChainHead(f, n, iv, block, rest, direction);
    ChainHead(f, n, iv, block, rest + b, direction);
    var step := BlockStep(f, iv, block, direction);
    var x := Chain(f, n, step.iv, rest, direction);
    var z := Chain(f, n, x.iv, b, direction);
    assert step.data + (x.data + z.data) == step.data + x.data + z.data;
  }

  /** One block in place: the bytes of `data` at `off` and the vector. */
  method CypherSingleBlock(f: BlockFn, data: array<byte>, off: nat, ivect: array<byte>, direction: Direction, n: nat)
    requires n > 0 && Keeps(f, n) && off + n <= data.Length && n <= ivect.Length && data != ivect
    modifies data, ivect
    ensures
      var step := BlockStep(f, old(ivect[..n]), old(data[off..off + n]), direction);
      data[off..off + n] == step.data && ivect[..n] == step.iv
    ensures data[..off] == old(data[..off]) && data[off + n..] == old(data[off + n..])
    ensures ivect[n..] == old(ivect[n..])
  {
    var ovect := data[off..off + n];
    if direction == Send {
      XorInto(data, off, ivect, n);
    }
    var edata := f(data[off..off + n]);
    CopyInto(data, off, edata);
    if direction == Send {
      CopyInto(ivect, 0, edata);
    } else {
      XorInto(data, off, ivect, n);
      CopyInto(ivect, 0, ovect);
    }
  }

  /** `xor(dest, src, n)`. */
  method XorInto(dest: array<byte>, off: nat, src: array<byte>, n: nat)
    requires off + n <= dest.Length && n <= src.Length && dest != src
    modifies dest
    ensures dest[off..off + n] == Xor(old(dest[off..off + n]), src[..n])
    ensures dest[..off] == old(dest[..off]) && dest[off + n..] == old(dest[off + n..])
  {
    hide XorByte;
    for i := 0 to n
      invariant forall k :: off <= k < off + i ==> dest[k] == XorByte(old(dest[k]), src[k - off])
      invariant forall k :: 0 <= k < off ==> dest[k] == old(dest[k])
      invariant forall k :: off + i <= k < dest.Length ==> dest[k] == old(dest[k])
    {
      dest[off + i] := XorByte(dest[off + i], src[i]);
    }
  }

  /** `memcpy`. */
  method CopyInto(dest: array<byte>, off: nat, src: seq<byte>)
    requires off + |src| <= dest.Length
    modifies dest
    ensures dest[off..off + |src|] == src
    ensures dest[..off] == old(dest[..off]) && dest[off + |src|..] == old(dest[off + |src|..])
  {
    for i := 0 to |src|
      invariant forall k :: 0 <= k < i ==> dest[off + k] == src[k]
      invariant forall k :: 0 <= k < off ==> dest[k] == old(dest[k])
      invariant forall k :: off + i <= k < dest.Length ==> dest[k] == old(dest[k])
    {
      dest[off + i] := src[i];
    }
  }

  /** All blocks in place; with the legacy scheme every call starts from a zero vector. */
  method CypherBlocksChained(f: BlockFn, data: array<byte>, ivect: array<byte>, direction: Direction, n: nat,
                             legacy: bool)
    requires n > 0 && Keeps(f, n) && Whole(data.Length, n) && n <= ivect.Length && data != ivect
    modifies data, ivect
    ensures
      var start := if legacy then ZeroBlock(n) else old(ivect[..n]);
      Chained(data[..], ivect[..n]) == Chain(f, n, start, old(data[..]), direction)
  {
    hide Whole, Chain, BlockStep;
    if legacy {
      CopyInto(ivect, 0, ZeroBlock(ivect.Length));
      assert ivect[..n] == ZeroBlock(n);
    }
    var offset := 0;
    ghost var start, message := ivect[..n], data[..];
    NothingChained(f, n, start, direction);
    FewBlocks(n);
    assert message[..0] == [] && data[..0] == [];
    while offset < data.Length
      invariant offset <= data.Length && Whole(offset, n)
      invariant data[offset..] == message[offset..]
      invariant Chained(data[..offset], ivect[..n]) == Chain(f, n, start, message[..offset], direction)
    {
      BlockFits(offset, data.Length, n);
      ghost var iv, done, block := ivect[..n], data[..offset], message[offset..offset + n];
      assert data[offset..offset + n] == data[offset..][..n] == message[offset..][..n] == block;
      CypherSingleBlock(f, data, offset, ivect, direction, n);
      OneMoreBlock(f, n, start, message[..offset], block, direction);
      assert message[..offset] + block == message[..offset + n];
      assert data[..offset + n] == done + data[offset..offset + n];
      assert data[offset + n..] == message[offset..][n..] == message[offset + n..];
      offset := offset + n;
    }
    assert data[..offset] == data[..] && message[..offset] == message;
  }

  lemma NothingChained(f: BlockFn, n: nat, iv: Block, direction: Direction)
    requires n > 0 && Keeps(f, n) && |iv| == n
    ensures Chain(f, n, iv, [], direction) == Chained([], iv)
  {
  }

  lemma BlockFits(offset: nat, len: nat, n: nat)
    requires n > 0 && offset < len && Whole(offset, n) && Whole(len, n)
    ensures offset + n <= len && Whole(offset + n, n)
  {
    AddBlock(offset, n);
    BelowNext(offset / n, len / n, n);
  }

  lemma BelowNext(a: nat, b: nat, n: nat)
    requires n * a < n * b
    ensures n * a + n <= n * b
  {
    if b <= a {
      NoSmaller(n, b, a);
    } else {
      NoSmaller(n, a + 1, b);
      assert n * (a + 1) == n * a + n;
    }
  }

  lemma NoSmaller(n: nat, a: nat, b: nat)
    requires a <= b
    ensures n * a <= n * b
  {
    assert n * b == n * a + n * (b - a);
  }

  lemma OneMoreBlock(f: BlockFn, n: nat, iv: Block, data: seq<byte>, block: Block, direction: Direction)
    requires n > 0 && Keeps(f, n) && |iv| == |block| == n && Whole(|data|, n)
    ensures Whole(|data + block|, n)
    ensures
      var first := Chain(f, n, iv, data, direction);
      var step := BlockStep(f, first.iv, block, direction);
      Chain(f, n, iv, data + block, direction) == Chained(first.data + step.data, step.iv)
  {
    hide Whole, Chain, BlockStep;
    var first := Chain(f, n, iv, data, direction);
    FewBlocks(n);
    ChainSplits(f, n, iv, data, block, direction);
    var step := BlockStep(f, first.iv, block, direction);
    assert block + [] == block && step.data + [] == step.data;
    ChainHead(f, n, first.iv, block, [], direction);
    NothingChained(f, n, step.iv, direction);
  }
}
