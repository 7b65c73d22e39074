/**
  The FPGA images: several files interleaved in one stream, compressed in blocks, and taken apart again byte by
  byte through a ring buffer.
 */
module Fpga {
  import opened Bits

  const INTERLEAVE := 288
  const RING := 1024 * 30

  // ---------------------------------------------------------------------------
  // Positions in the combined stream
  // ---------------------------------------------------------------------------

  /** The number of the chunk of file `i` in round `q`, of `n` files. */
  function Chunk(n: nat, q: nat, i: nat): nat { n * q + i }

  /** The place of byte `k` of file `i`. */
  function Position(n: nat, i: nat, k: nat): nat { INTERLEAVE * Chunk(n, k / INTERLEAVE, i) + k % INTERLEAVE }

  /** Files alternate in pieces of 288 bytes. */
  lemma PositionIs(n: nat, i: nat, k: nat)
    ensures Position(n, i, k) == 288 * n * (k / 288) + 288 * i + k % 288
  {
    assert 288 * (n * (k / 288)) == 288 * n * (k / 288);
  }

  /** The test of the skip loop. */
  predicate Belongs(n: nat, i: nat, p: nat)
    requires n > 0
  {
    p / INTERLEAVE % n == i
  }

  lemma ChunkOwner(n: nat, q: nat, c: nat)
    requires c < n
    ensures Chunk(n, q, c) % n == c && Chunk(n, q, c) / n == q
  {
    DivModUnique(Chunk(n, q, c), n, q, c);
  }

  lemma PositionBelongs(n: nat, i: nat, k: nat)
    requires i < n
    ensures Belongs(n, i, Position(n, i, k))
  {
    ChunkOwner(n, k / INTERLEAVE, i);
    hide Chunk;
    var m, o := Chunk(n, k / INTERLEAVE, i), k % INTERLEAVE;
    assert (INTERLEAVE * m + o) / INTERLEAVE == m;
  }

  /** Behind byte `k - 1`. */
  function Behind(n: nat, i: nat, k: nat): nat { if k == 0 then 0 else Position(n, i, k - 1) + 1 }

  lemma NextRound(n: nat, q: nat, i: nat)
    ensures Chunk(n, q + 1, i) == Chunk(n, q, i) + n
  {
  }

  lemma FirstRound(n: nat, i: nat)
    ensures Chunk(n, 0, i) == i
  {
  }

  /** No byte of the file lies between two neighbours. */
  lemma NothingBetween(n: nat, i: nat, k: nat, p: nat)
    requires i < n && Behind(n, i, k) <= p < Position(n, i, k)
    ensures !Belongs(n, i, p)
  {
    hide Chunk;
    var m, q := p / INTERLEAVE, k / INTERLEAVE;
    FirstRound(n, i);
    if k == 0 {
      assert m < i;
      FirstRound(n, m);
      ChunkOwner(n, 0, m);
    } else {
      assert k % INTERLEAVE == 0 && q > 0 && (k - 1) / INTERLEAVE == q - 1;
      NextRound(n, q - 1, i);
      assert Chunk(n, q - 1, i) < m < Chunk(n, q - 1, i) + n;
      NotHis(n, q - 1, i, m);
    }
  }

  lemma NotHis(n: nat, q: nat, i: nat, m: nat)
    requires i < n && Chunk(n, q, i) < m < Chunk(n, q, i) + n
    ensures m % n != i
  {
    var c := m - n * q;
    if c < n {
      DivModUnique(m, n, q, c);
    } else {
      assert n * (q + 1) == n * q + n;
      DivModUnique(m, n, q + 1, c - n);
    }
  }

  lemma Forward(n: nat, i: nat, k: nat)
    requires i < n
    ensures Behind(n, i, k) <= Position(n, i, k)
  {
    hide Chunk;
    if k > 0 && k % INTERLEAVE == 0 {
      NextRound(n, k / INTERLEAVE - 1, i);
      assert (k - 1) / INTERLEAVE == k / INTERLEAVE - 1;
    }
  }

  // ---------------------------------------------------------------------------
  // The compressed blocks
  // ---------------------------------------------------------------------------

  /** Every block but the last fills the ring buffer. */
  ghost predicate WellCut(blocks: seq<seq<byte>>) {
    blocks == []
    || if |blocks| == 1 then 0 < |blocks[0]| <= RING else |blocks[0]| == RING && WellCut(blocks[1..])
  }

  ghost function Flat(blocks: seq<seq<byte>>): seq<byte> { if blocks == [] then [] else blocks[0] + Flat(blocks[1..]) }

  /** Where block `b` starts, and how much there is in all. */
  lemma {:induction false} FlatBlock(blocks: seq<seq<byte>>, b: nat)
    requires WellCut(blocks) && b < |blocks|
    ensures 0 < |blocks[b]| <= RING && RING * b + |blocks[b]| <= |Flat(blocks)|
    ensures Flat(blocks)[RING * b..RING * b + |blocks[b]|] == blocks[b]
    ensures b + 1 < |blocks| ==> |blocks[b]| == RING
    ensures b + 1 == |blocks| ==> |Flat(blocks)| == RING * b + |blocks[b]|
  {
    if b > 0 {
      FlatBlock(blocks[1..], b - 1);
      var f, rest := Flat(blocks), Flat(blocks[1..]);
      assert f == blocks[0] + rest;
      assert f[RING * b..RING * b + |blocks[b]|] == rest[RING * (b - 1)..RING * (b - 1) + |blocks[b]|];
    } else {
      assert Flat(blocks)[..|blocks[0]|] == blocks[0];
    }
  }

  // ---------------------------------------------------------------------------
  // Reading
  // ---------------------------------------------------------------------------

  class CombinedStream {
    const blocks: seq<seq<byte>>     // what the compressed blocks decompress to
    var nextIn: nat                  // the next block
    const outputBuffer: array<byte>
    var imagePtr: nat
    var uncompressedBytes: nat

    ghost predicate Valid()
      reads this, outputBuffer
    {
      && WellCut(blocks) && outputBuffer.Length == RING && imagePtr <= RING && nextIn <= |blocks|
      && (nextIn == 0 ==> imagePtr == RING && uncompressedBytes == 0)
      && (nextIn > 0 ==>
            && uncompressedBytes == RING * (nextIn - 1) + imagePtr
            && |blocks[nextIn - 1]| <= RING && outputBuffer[..|blocks[nextIn - 1]|] == blocks[nextIn - 1])
    }

    /** `reset_fpga_stream`, up to the header check. */
    constructor (blocks: seq<seq<byte>>, outputBuffer: array<byte>)
      requires WellCut(blocks) && outputBuffer.Length == RING
      ensures Valid() && uncompressedBytes == 0 && this.blocks == blocks && this.outputBuffer == outputBuffer
    {
      this.blocks := blocks;
      this.outputBuffer := outputBuffer;
      nextIn := 0;
      imagePtr := RING;
      uncompressedBytes := 0;
    }

    /** `get_from_fpga_combined_stream`: the next byte of the combined stream. */
    method Get() returns (b: byte)
      requires Valid() && uncompressedBytes < |Flat(blocks)|
      modifies this`nextIn, this`imagePtr, this`uncompressedBytes, outputBuffer
      ensures Valid() && uncompressedBytes == old(uncompressedBytes) + 1
      ensures b == Flat(blocks)[old(uncompressedBytes)]
    {
      hide Flat, WellCut;
      if imagePtr == RING {
        FlatEnd(blocks, nextIn);
        Refill();
      }
      FlatAt(blocks, nextIn - 1, imagePtr);
      assert outputBuffer[imagePtr] == outputBuffer[..|blocks[nextIn - 1]|][imagePtr];
      uncompressedBytes := uncompressedBytes + 1;
      b := outputBuffer[imagePtr];
      imagePtr := imagePtr + 1;
    }

    /** The next block, decompressed to the start of the ring buffer. */
    method Refill()
      requires Valid() && imagePtr == RING && nextIn < |blocks|
      modifies this`nextIn, this`imagePtr, outputBuffer
      ensures Valid() && imagePtr == 0 && nextIn == old(nextIn) + 1
    {
      FlatBlock(blocks, nextIn);
      hide Flat, WellCut;
      imagePtr := 0;
      Decompress(blocks[nextIn]);
      nextIn := nextIn + 1;
    }

    method Decompress(block: seq<byte>)
      requires |block| <= outputBuffer.Length
      modifies outputBuffer
      ensures outputBuffer[..|block|] == block
    {
      for j := 0 to |block|
        invariant outputBuffer[..j] == block[..j]
      {
        outputBuffer[j] := block[j];
      }
    }

    /** `get_from_fpga_stream`: skips the chunks of other files and returns byte `k` of file `i`. */
    method GetFrom(i: nat, n: nat, ghost k: nat) returns (b: byte)
      requires Valid() && i < n && uncompressedBytes == Behind(n, i, k) && Position(n, i, k) < |Flat(blocks)|
      modifies this`nextIn, this`imagePtr, this`uncompressedBytes, outputBuffer
      ensures Valid() && uncompressedBytes == Behind(n, i, k + 1)
      ensures b == Flat(blocks)[Position(n, i, k)]
    {
      hide Position, Behind;
      PositionBelongs(n, i, k);
      Forward(n, i, k);
      while uncompressedBytes / INTERLEAVE % n != i
        invariant Valid() && Behind(n, i, k) <= uncompressedBytes <= Position(n, i, k)
        decreases Position(n, i, k) - uncompressedBytes
      {
        var skipped := Get();
      }
      if uncompressedBytes < Position(n, i, k) { NothingBetween(n, i, k, uncompressedBytes); }
      BehindNext(n, i, k);
      b := Get();
    }
  }

  lemma FlatAt(blocks: seq<seq<byte>>, b: nat, p: nat)
    requires WellCut(blocks) && b < |blocks| && p < RING && RING * b + p < |Flat(blocks)|
    ensures p < |blocks[b]| && Flat(blocks)[RING * b + p] == blocks[b][p]
  {
    FlatBlock(blocks, b);
    hide Flat, WellCut;
    assert Flat(blocks)[RING * b..RING * b + |blocks[b]|][p] == Flat(blocks)[RING * b + p];
  }

  lemma BehindNext(n: nat, i: nat, k: nat)
    ensures Behind(n, i, k + 1) == Position(n, i, k) + 1
  {
  }

  lemma FlatEnd(blocks: seq<seq<byte>>, next: nat)
    requires WellCut(blocks) && next <= |blocks| && RING * next < |Flat(blocks)|
    ensures next < |blocks|
  {
    if next == |blocks| && next > 0 { FlatBlock(blocks, next - 1); }
  }

  /** Byte `k` of file `i` in a combined stream is `b`. */
  ghost predicate Delivers(combined: seq<byte>, n: nat, i: nat, k: nat, b: byte) {
    Position(n, i, k) < |combined| && combined[Position(n, i, k)] == b
  }

  /** The first `count` bytes of file `i`, read one by one from a fresh stream. */
  method ReadFile(blocks: seq<seq<byte>>, i: nat, n: nat, count: nat) returns (file: seq<byte>)
    requires WellCut(blocks) && i < n && (count > 0 ==> Position(n, i, count - 1) < |Flat(blocks)|)
    ensures |file| == count
    ensures forall k | 0 <= k < count :: Delivers(Flat(blocks), n, i, k, file[k])
  {
    var buffer := new byte[RING];
    var stream := new CombinedStream(blocks, buffer);
    file := [];
    hide Position, Flat, WellCut, Behind;
    var k := 0;
    BehindNone(n, i);
    while k < count
      invariant k == |file| <= count && stream.Valid() && stream.blocks == blocks
      invariant fresh(stream) && stream.outputBuffer == buffer && fresh(buffer)
      invariant stream.uncompressedBytes == Behind(n, i, k)
      invariant forall j | 0 <= j < k :: Delivers(Flat(blocks), n, i, j, file[j])
    {
      Ordered(n, i, k, count - 1);
      var b := stream.GetFrom(i, n, k);
      file := file + [b];
      k := k + 1;
    }
  }

  lemma BehindNone(n: nat, i: nat)
    ensures Behind(n, i, 0) == 0
  {
  }

  lemma {:induction false} Ordered(n: nat, i: nat, j: nat, k: nat)
    requires i < n && j <= k
    ensures Position(n, i, j) <= Position(n, i, k)
    decreases k - j
  {
    hide Position;
    if j < k {
      Forward(n, i, j + 1);
      BehindNext(n, i, j);
      Ordered(n, i, j + 1, k);
    }
  }

  // ---------------------------------------------------------------------------
  // The tool that interleaves the files
  // ---------------------------------------------------------------------------

  /** Byte `k` of a file that is filled up with zeros. */
  function Padded(file: seq<byte>, k: nat): byte { if k < |file| then file[k] else 0 }

  /** What belongs at place `p` of the combined file. */
  function Expected(files: seq<seq<byte>>, p: nat): byte
    requires files != []
  {
    Padded(files[p / INTERLEAVE % |files|], INTERLEAVE * (p / INTERLEAVE / |files|) + p % INTERLEAVE)
  }

  lemma ExpectedAt(files: seq<seq<byte>>, q: nat, i: nat, o: nat)
    requires i < |files| && o < INTERLEAVE
    ensures Expected(files, INTERLEAVE * Chunk(|files|, q, i) + o) == Padded(files[i], INTERLEAVE * q + o)
  {
    ChunkOwner(|files|, q, i);
    hide Chunk, Padded;
    var m := Chunk(|files|, q, i);
    assert (INTERLEAVE * m + o) / INTERLEAVE == m && (INTERLEAVE * m + o) % INTERLEAVE == o;
  }

  lemma ExpectedPosition(files: seq<seq<byte>>, i: nat, k: nat)
    requires i < |files|
    ensures Expected(files, Position(|files|, i, k)) == Padded(files[i], k)
  {
    hide Chunk, Padded, Expected;
    ExpectedAt(files, k / INTERLEAVE, i, k % INTERLEAVE);
  }

  /** A single file is not filled up: what is kept of `places` places. */
  function Kept(files: seq<seq<byte>>, places: nat): nat
    requires files != []
  {
    if |files| == 1 && |files[0]| < places then |files[0]| else places
  }

  /** One more place: a byte is stored unless a single file has ended. */
  lemma KeptStep(files: seq<seq<byte>>, round: nat, j: nat, k: nat)
    requires j < |files|
    ensures
      var places := INTERLEAVE * Chunk(|files|, round, j) + k;
      Kept(files, places + 1)
        == Kept(files, places) + (if INTERLEAVE * round + k < |files[j]| || |files| > 1 then 1 else 0)
      && (Kept(files, places + 1) > Kept(files, places) ==> Kept(files, places) == places)
  {
  }

  lemma NotYetEnded(files: seq<seq<byte>>, round: nat, i: nat)
    requires i < |files| && !AtEnd(files[i], round)
    ensures Kept(files, INTERLEAVE * Chunk(|files|, round, 0)) == INTERLEAVE * Chunk(|files|, round, 0)
  {
  }

  /** A file's end is noticed in the round that tries to read behind it. */
  predicate AtEnd(file: seq<byte>, rounds: nat) { INTERLEAVE * rounds > |file| }

  lemma {:induction false} LaterRound(n: nat, a: nat, b: nat)
    requires a <= b
    ensures Chunk(n, a, 0) + (b - a) * n == Chunk(n, b, 0)
    ensures Chunk(n, a, 0) <= Chunk(n, b, 0) && (n > 0 && a < b ==> Chunk(n, a, 0) < Chunk(n, b, 0))
  {
    hide Chunk;
    if a < b {
      NextRound(n, b - 1, 0);
      LaterRound(n, a, b - 1);
    }
  }

  lemma RoundFits(n: nat, round: nat, limit: nat)
    requires n > 0 && Chunk(n, round, 0) < Chunk(n, limit, 0)
    ensures round < limit && Chunk(n, round + 1, 0) <= Chunk(n, limit, 0)
  {
    hide Chunk;
    if round >= limit { LaterRound(n, limit, round); } else { LaterRound(n, round + 1, limit); }
  }

  lemma ChunkStep(n: nat, round: nat, j: nat)
    ensures Chunk(n, round, j + 1) == Chunk(n, round, j) + 1
    ensures Chunk(n, round, n) == Chunk(n, round + 1, 0)
  {
  }

  /**
    `zlib_compress`, reading: a chunk of each file in turn until all have ended.  It fails when the rounds
    that a configuration file can have, `limit`, do not do.
   */
  method Interleave(files: seq<seq<byte>>, limit: nat) returns (ok: bool, config: array<byte>, total: nat)
    requires files != []
    ensures config.Length == INTERLEAVE * Chunk(|files|, limit, 0) && total <= config.Length
    ensures ok ==> exists rounds :: Combined(files, config[..total], rounds)
    ensures !ok ==> exists i | 0 <= i < |files| :: !AtEnd(files[i], limit)
  {
    hide Chunk, Expected, AtEnd, Kept;
    var n := |files|;
    config := new byte[INTERLEAVE * Chunk(n, limit, 0)];
    total := 0;
    var rounds, ended := 0, false;
    FirstRound(n, 0);
    NoneEnds(files);
    NotYetEnded(files, 0, 0);
    while !ended
      invariant rounds <= limit && INTERLEAVE * Chunk(n, rounds, 0) <= config.Length
      invariant total == Kept(files, INTERLEAVE * Chunk(n, rounds, 0)) <= config.Length
      invariant forall p | 0 <= p < total :: config[p] == Expected(files, p)
      invariant ended <==> forall i | 0 <= i < n :: AtEnd(files[i], rounds)
      invariant rounds > 0 ==> exists i | 0 <= i < n :: !AtEnd(files[i], rounds - 1)
      decreases if ended then 0 else 1, limit - rounds
    {
      ghost var late :| 0 <= late < n && !AtEnd(files[late], rounds);
      NotYetEnded(files, rounds, late);
      if total >= config.Length {
        SameRound(n, rounds, limit);
        return false, config, total;
      }
      RoundFits(n, rounds, limit);
      total := OneRound(files, config, rounds);
      rounds := rounds + 1;
      ended := AllEnded(files, rounds);
    }
    assert Combined(files, config[..total], rounds);
    ok := true;
  }

  lemma NoneEnds(files: seq<seq<byte>>)
    requires files != []
    ensures !AtEnd(files[0], 0)
  {
  }

  lemma SameRound(n: nat, round: nat, limit: nat)
    requires n > 0 && round <= limit && Chunk(n, round, 0) >= Chunk(n, limit, 0)
    ensures round == limit
  {
    hide Chunk;
    LaterRound(n, round, limit);
  }

  method AllEnded(files: seq<seq<byte>>, rounds: nat) returns (ended: bool)
    ensures ended <==> forall i | 0 <= i < |files| :: AtEnd(files[i], rounds)
  {
    for i := 0 to |files|
      invariant forall j | 0 <= j < i :: AtEnd(files[j], rounds)
    {
      if !AtEnd(files[i], rounds) { return false; }
    }
    return true;
  }

  method OneRound(files: seq<seq<byte>>, config: array<byte>, round: nat) returns (total: nat)
    requires files != [] && INTERLEAVE * Chunk(|files|, round + 1, 0) <= config.Length
    requires Kept(files, INTERLEAVE * Chunk(|files|, round, 0)) == INTERLEAVE * Chunk(|files|, round, 0)
    requires forall p | 0 <= p < INTERLEAVE * Chunk(|files|, round, 0) :: config[p] == Expected(files, p)
    modifies config
    ensures total == Kept(files, INTERLEAVE * Chunk(|files|, round + 1, 0)) <= config.Length
    ensures forall p | 0 <= p < total :: config[p] == Expected(files, p)
  {
    hide Chunk, Expected, Kept;
    var n := |files|;
    total := INTERLEAVE * Chunk(n, round, 0);
    ChunkRoom(n, round, 0);
    for j := 0 to n
      invariant total == Kept(files, INTERLEAVE * Chunk(n, round, j)) <= INTERLEAVE * Chunk(n, round, j) <= config.Length
      invariant forall p | 0 <= p < total :: config[p] == Expected(files, p)
    {
      ChunkStep(n, round, j);
      ChunkRoom(n, round, j + 1);
      for k := 0 to INTERLEAVE
        invariant total == Kept(files, INTERLEAVE * Chunk(n, round, j) + k) <= INTERLEAVE * Chunk(n, round, j) + k
        invariant INTERLEAVE * Chunk(n, round, j) + INTERLEAVE <= config.Length
        invariant forall p | 0 <= p < total :: config[p] == Expected(files, p)
      {
        ExpectedAt(files, round, j, k);
        KeptStep(files, round, j, k);
        if INTERLEAVE * round + k < |files[j]| {
          config[total] := files[j][INTERLEAVE * round + k];
          total := total + 1;
        } else if n > 1 {
          config[total] := 0;
          total := total + 1;
        }
      }
    }
    ChunkStep(n, round, n);
  }

  lemma ChunkRoom(n: nat, round: nat, j: nat)
    requires j <= n
    ensures Chunk(n, round, j) <= Chunk(n, round + 1, 0)
  {
    ChunkStep(n, round, j);
  }

  lemma Within(n: nat, i: nat, k: nat, rounds: nat)
    requires i < n && k < INTERLEAVE * rounds
    ensures Position(n, i, k) < INTERLEAVE * Chunk(n, rounds, 0)
  {
    hide Chunk;
    var q := k / INTERLEAVE;
    ChunkRoom(n, q, i + 1);
    ChunkStep(n, q, i);
    LaterRound(n, q + 1, rounds);
  }

  /** `combined` is what the tool makes of the files in `rounds` rounds. */
  ghost predicate Combined(files: seq<seq<byte>>, combined: seq<byte>, rounds: nat)
    requires files != []
  {
    && |combined| == Kept(files, INTERLEAVE * Chunk(|files|, rounds, 0))
    && (forall i | 0 <= i < |files| :: AtEnd(files[i], rounds))
    && rounds > 0 && (exists i | 0 <= i < |files| :: !AtEnd(files[i], rounds - 1))
    && forall p | 0 <= p < |combined| :: combined[p] == Expected(files, p)
  }

  lemma SinglePlace(k: nat)
    ensures Position(1, 0, k) == k
  {
  }

  /**
    The combined stream, place by place: as many rounds as the longest file needs to be read behind its end, in each a
    piece of 288 bytes of every file, zeros behind a file's end; a single file is as long as it is.
   */
  lemma WhatStands(files: seq<seq<byte>>, combined: seq<byte>, rounds: nat, i: nat, k: nat)
    requires files != [] && Combined(files, combined, rounds) && i < |files|
    requires k < 288 * rounds && (|files| == 1 ==> k < |files[0]|)
    ensures |combined| == if |files| == 1 then |files[0]| else 288 * (|files| * rounds)
    ensures |files[i]| < 288 * rounds && exists j | 0 <= j < |files| :: 288 * (rounds - 1) <= |files[j]|
    ensures
      var p := 288 * (|files| * (k / 288) + i) + k % 288;
      p < |combined| && combined[p] == if k < |files[i]| then files[i][k] else 0
  {
    assert AtEnd(files[i], rounds) && AtEnd(files[0], rounds);
    Within(|files|, i, k, rounds);
    ExpectedPosition(files, i, k);
    if |files| == 1 { SinglePlace(k); }
    hide Expected;
  }

  /** Every byte of every file stands at its position in the combined stream. */
  lemma FileInside(files: seq<seq<byte>>, combined: seq<byte>, rounds: nat, i: nat, k: nat)
    requires files != [] && Combined(files, combined, rounds) && i < |files| && k < |files[i]|
    ensures Delivers(combined, |files|, i, k, files[i][k])
  {
    assert AtEnd(files[i], rounds);
    Within(|files|, i, k, rounds);
    ExpectedPosition(files, i, k);
    if |files| == 1 { SinglePlace(k); }
    hide Position, Expected, Chunk;
  }

  /** Whatever files were combined and however the stream was cut into blocks, each file is read back whole. */
  method ReadBack(files: seq<seq<byte>>, i: nat, blocks: seq<seq<byte>>, ghost rounds: nat) returns (file: seq<byte>)
    requires i < |files| && WellCut(blocks) && Combined(files, Flat(blocks), rounds)
    ensures file == files[i]
  {
    hide Position, Flat, WellCut, Combined;
    var count := |files[i]|;
    forall k | 0 <= k < count ensures Delivers(Flat(blocks), |files|, i, k, files[i][k]) {
      FileInside(files, Flat(blocks), rounds, i, k);
    }
    if count > 0 { assert Delivers(Flat(blocks), |files|, i, count - 1, files[i][count - 1]); }
    file := ReadFile(blocks, i, |files|, count);
    assert forall k | 0 <= k < count :: file[k] == files[i][k];
  }
}
