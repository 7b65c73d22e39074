/**
  The one big buffer: chunks are handed out from the top down, the trace grows from the bottom up.
 */
module BigBuf {
  import opened Bits
  import Cbc

  const CARD_MEMORY_SIZE: word16 := 4096
  const HEADER := 8

  // ---------------------------------------------------------------------------
  // Records and their bytes
  // ---------------------------------------------------------------------------

  /** `size` bytes, the low one first. */
  function LowFirst(x: nat, size: nat): (b: seq<byte>)
    ensures |b| == size
  {
    if size == 0 then [] else [x % 256] + LowFirst(x / 256, size - 1)
  }

  function FromLowFirst(b: seq<byte>): nat { if b == [] then 0 else b[0] + 256 * FromLowFirst(b[1..]) }

  function Capacity(size: nat): (c: nat)
    ensures c > 0
  {
    if size == 0 then 1 else 256 * Capacity(size - 1)
  }

  lemma {:induction false} LowFirstBack(x: nat, size: nat)
    requires x < Capacity(size)
    ensures FromLowFirst(LowFirst(x, size)) == x
  {
    if size > 0 {
      LowFirstBack(x / 256, size - 1);
      assert LowFirst(x, size)[1..] == LowFirst(x / 256, size - 1);
    }
  }

  /** A parity bit for each byte, in whole bytes. */
  function ParityBytes(len: nat): (n: nat)
    requires len > 0
    ensures 8 * n - 8 < len <= 8 * n
  {
    (len - 1) / 8 + 1
  }

  datatype Record = Record(timestamp: word32, duration: word16, response: bool, data: seq<byte>, parity: seq<byte>) {
    predicate Valid() { 0 < |data| < 0x8000 && |parity| == ParityBytes(|data|) }
  }

  /** The length in the low 15 bits, the direction in the top one. */
  function LengthWord(len: nat, response: bool): nat { len + if response then 0x8000 else 0 }

  lemma LengthWordIs(len: nat, response: bool)
    requires len < 0x8000
    ensures
      var w := LengthWord(len, response);
      && w < 0x1_0000 && w % 0x8000 == len && (w >= 0x8000) == response
      && w == len + if response then 0x8000 else 0
  {
  }

  /** The header: timestamp, duration, and the length with the direction in its top bit; then data and parity. */
  function Encode(r: Record): seq<byte> {
    LowFirst(r.timestamp, 4) + LowFirst(r.duration, 2) + LowFirst(LengthWord(|r.data|, r.response), 2)
    + r.data + r.parity
  }

  /** Every byte of a record in its place: 32 bits of time, 16 of duration, 15 of length and the direction. */
  lemma RecordBytes(r: Record)
    requires r.Valid()
    ensures |r.parity| == (|r.data| + 7) / 8
    ensures
      var t, d, n := r.timestamp, r.duration, |r.data|;
      Encode(r)
        == [t % 256, t / 256 % 256, t / 65536 % 256, t / 16777216, d % 256, d / 256,
            n % 256, n / 256 + if r.response then 128 else 0] + r.data + r.parity
  {
    var t, d, w := r.timestamp, r.duration, LengthWord(|r.data|, r.response);
    LengthWordIs(|r.data|, r.response);
    TopBit(|r.data|, r.response);
    LowBytes(t);
    LowBytes(d);
    LowBytes(w);
    EncodeIs(r);
    hide LowFirst, LengthWord, Encode, ParityBytes;
    assert t / 16777216 % 256 == t / 16777216 && d / 256 % 256 == d / 256 && w / 256 % 256 == w / 256;
    assert LowFirst(t, 4) + LowFirst(d, 2) + LowFirst(w, 2)
      == [t % 256, t / 256 % 256, t / 65536 % 256, t / 16777216, d % 256, d / 256, w % 256, w / 256];
  }

  lemma TopBit(n: nat, response: bool)
    requires n < 0x8000
    ensures
      var w := n + if response then 0x8000 else 0;
      w % 256 == n % 256 && w / 256 == n / 256 + if response then 128 else 0
  {
  }

  lemma {:induction false} LowBytes(x: nat)
    ensures LowFirst(x, 2) == [x % 256, x / 256 % 256]
    ensures LowFirst(x, 4) == [x % 256, x / 256 % 256, x / 65536 % 256, x / 16777216 % 256]
  {
    var y := x / 256;
    assert LowFirst(x, 4) == [x % 256] + LowFirst(y, 3);
    assert LowFirst(y, 3) == [y % 256] + LowFirst(y / 256, 2);
    assert LowFirst(y / 256, 2) == [y / 256 % 256] + LowFirst(y / 256 / 256, 1);
    assert LowFirst(y / 256 / 256, 1) == [y / 256 / 256 % 256];
    assert LowFirst(x, 2) == [x % 256] + LowFirst(y, 1);
    assert y / 256 == x / 65536 && y / 256 / 256 == x / 16777216;
  }

  function EncodeAll(log: seq<Record>): seq<byte> {
    if log == [] then [] else EncodeAll(log[..|log| - 1]) + Encode(log[|log| - 1])
  }

  /** Reading a trace; `None` if it is not a sequence of whole records. */
  function Parse(t: seq<byte>): Option<seq<Record>>
    decreases |t|
  {
    if t == [] then Some([])
    else if |t| < HEADER then None
    else
      var word := FromLowFirst(t[6..8]);
      var len := word % 0x8000;
      if len == 0 || |t| < HEADER + len + ParityBytes(len) then None
      else
        var timestamp, duration := FromLowFirst(t[..4]), FromLowFirst(t[4..6]);
        if timestamp >= 0x1_0000_0000 || duration >= 0x1_0000 then None
        else
          var end := HEADER + len + ParityBytes(len);
          var record := Record(timestamp, duration, word >= 0x8000, t[HEADER..HEADER + len], t[HEADER + len..end]);
          match Parse(t[end..])
          case None => None
          case Some(rest) => Some([record] + rest)
  }

  ghost predicate AllValid(log: seq<Record>) { forall r | r in log :: r.Valid() }

  /** A record in front of a trace is read as itself. */
  lemma ParseFirst(r: Record, t: seq<byte>)
    requires r.Valid()
    ensures Parse(Encode(r) + t) == match Parse(t) case None => None case Some(rest) => Some([r] + rest)
  {
    var word := LengthWord(|r.data|, r.response);
    LengthWordIs(|r.data|, r.response);
    hide LengthWord;
    var a, b, c := LowFirst(r.timestamp, 4), LowFirst(r.duration, 2), LowFirst(word, 2);
    Capacities();
    LowFirstBack(r.timestamp, 4);
    LowFirstBack(r.duration, 2);
    LowFirstBack(word, 2);
    var whole := Encode(r) + t;
    Pieces(a, b, c, r.data, r.parity, t);
    hide LowFirst, FromLowFirst, Parse, Encode, ParityBytes;
    ParseUnfolds(whole, word, r.timestamp, r.duration);
  }

  lemma Pieces(a: seq<byte>, b: seq<byte>, c: seq<byte>, d: seq<byte>, p: seq<byte>, t: seq<byte>)
    requires |a| == 4 && |b| == |c| == 2
    ensures
      var whole := a + b + c + d + p + t;
      && whole[..4] == a && whole[4..6] == b && whole[6..8] == c
      && whole[HEADER..HEADER + |d|] == d && whole[HEADER + |d|..HEADER + |d| + |p|] == p
      && whole[HEADER + |d| + |p|..] == t
  {
  }

  lemma Capacities()
    ensures Capacity(4) == 0x1_0000_0000 && Capacity(2) == 0x1_0000
  {
    assert Capacity(2) == 256 * Capacity(1) == 256 * (256 * Capacity(0));
    assert Capacity(4) == 256 * Capacity(3) == 256 * (256 * Capacity(2));
  }

  lemma {:induction false} ParseUnfolds(t: seq<byte>, word: nat, timestamp: word32, duration: word16)
    requires |t| >= HEADER && word == FromLowFirst(t[6..8])
    requires timestamp == FromLowFirst(t[..4]) && duration == FromLowFirst(t[4..6])
    requires word % 0x8000 > 0 && |t| >= HEADER + word % 0x8000 + ParityBytes(word % 0x8000)
    ensures
      var len := word % 0x8000;
      var end := HEADER + len + ParityBytes(len);
      Parse(t)
        == match Parse(t[end..])
           case None => None
           case Some(rest) =>
             Some([Record(timestamp, duration, word >= 0x8000, t[HEADER..HEADER + len], t[HEADER + len..end])] + rest)
  {
    hide FromLowFirst;
  }

  lemma {:induction false} ParsePrefix(log: seq<Record>, t: seq<byte>)
    requires AllValid(log)
    ensures Parse(EncodeAll(log) + t) == match Parse(t) case None => None case Some(rest) => Some(log + rest)
    decreases |log|
  {
    hide Parse, Encode;
    if log == [] {
      assert [] + t == t;
      if Parse(t).Some? { assert [] + Parse(t).value == Parse(t).value; }
    } else {
      var n := |log| - 1;
      ParsePrefix(log[..n], Encode(log[n]) + t);
      ParseFirst(log[n], t);
      assert EncodeAll(log[..n]) + (Encode(log[n]) + t) == EncodeAll(log) + t;
      if Parse(t).Some? { assert log[..n] + ([log[n]] + Parse(t).value) == log + Parse(t).value; }
    }
  }

  /** What was logged is what is read. */
  lemma {:induction false} ParseBack(log: seq<Record>)
    requires AllValid(log)
    ensures Parse(EncodeAll(log)) == Some(log)
  {
    ParsePrefix(log, []);
    hide EncodeAll;
    assert EncodeAll(log) + [] == EncodeAll(log) && log + [] == log;
    assert Parse([]) == Some([]);
  }

  // ---------------------------------------------------------------------------
  // Durations
  // ---------------------------------------------------------------------------

  /** The duration that is logged: 32-bit differences, capped at 16 bits. */
  function Duration(start: word32, end: word32): word16 {
    var d := if end > start then end - start else 0xFFFF_FFFF - start + end;
    if d > 0xFFFF then 0xFFFF else d
  }

  /** The time from `start` to `end` on a 32-bit clock. */
  function Elapsed(start: word32, end: word32): word32 {
    if end >= start then end - start else 0x1_0000_0000 - start + end
  }

  /**
    The logged duration is the elapsed time, capped, exactly when the clock did not wrap (and ran at all) or the
    time does not fit 16 bits anyway: across a wrap it is one tick short, and of no time at all it is the cap.
   */
  lemma DurationExact(start: word32, end: word32)
    ensures
      var e := Elapsed(start, end);
      && (Duration(start, end) == (if e > 0xFFFF then 0xFFFF else e) <==> end > start || e > 0xFFFF)
      && (end < start && e <= 0xFFFF ==> Duration(start, end) == e - 1) && (e == 0 ==> Duration(start, end) == 0xFFFF)
  {
  }

  // ---------------------------------------------------------------------------
  // The buffer
  // ---------------------------------------------------------------------------

  /** A chunk handed out. */
  datatype Chunk = Chunk(start: nat, len: nat) {
    function End(): nat { start + len }
  }

  /** The chunks lie one below the other without gaps, from the top of the buffer down to `hi`. */
  predicate Stacked(chunks: seq<Chunk>, top: nat, hi: nat) {
    if chunks == [] then top == hi
    else chunks[0].len > 0 && chunks[0].End() == top && Stacked(chunks[1..], chunks[0].start, hi)
  }

  lemma {:induction false} StackedPush(chunks: seq<Chunk>, top: nat, hi: nat, c: Chunk)
    requires Stacked(chunks, top, hi) && c.len > 0 && c.End() == hi
    ensures Stacked(chunks + [c], top, c.start)
  {
    if chunks == [] {
      assert chunks + [c] == [c];
    } else {
      StackedPush(chunks[1..], chunks[0].start, hi, c);
      assert (chunks + [c])[1..] == chunks[1..] + [c];
    }
  }

  /** Each chunk lies in the buffer and above the chunks that came after it. */
  lemma {:induction false} StackedAt(chunks: seq<Chunk>, top: nat, hi: nat, i: nat)
    requires Stacked(chunks, top, hi) && i < |chunks|
    ensures hi <= chunks[i].start < chunks[i].End() <= top
    ensures Stacked(chunks[..i + 1], top, chunks[i].start)
    ensures Stacked(chunks[i + 1..], chunks[i].start, hi)
    decreases |chunks|
  {
    StackedBelow(chunks[1..], chunks[0].start, hi);
    if i == 0 {
      assert chunks[..1] == [chunks[0]];
    } else {
      StackedAt(chunks[1..], chunks[0].start, hi, i - 1);
      assert chunks[1..][..i] == chunks[..i + 1][1..] && chunks[1..][i..] == chunks[i + 1..];
    }
  }

  lemma {:induction false} StackedBelow(chunks: seq<Chunk>, top: nat, hi: nat)
    requires Stacked(chunks, top, hi)
    ensures hi <= top
  {
    if chunks != [] { StackedBelow(chunks[1..], chunks[0].start, hi); }
  }

  /** No two chunks overlap. */
  lemma ChunksDisjoint(chunks: seq<Chunk>, top: nat, hi: nat, i: nat, j: nat)
    requires Stacked(chunks, top, hi) && i < j < |chunks|
    ensures chunks[j].End() <= chunks[i].start
  {
    StackedAt(chunks, top, hi, i);
    StackedAt(chunks[i + 1..], chunks[i].start, hi, j - i - 1);
  }

  /** `(n + 3) & 0xFFFC` on 16 bits. */
  function Aligned(n: word16): word16 { (n + 3) % 0x1_0000 / 4 * 4 }

  /** Rounding up wraps to nothing for the three largest sizes. */
  lemma AlignedIs(n: word16)
    ensures Aligned(n) == (if n > 0xFFFC then 0 else Aligned(n)) && Aligned(n) % 4 == 0
    ensures n <= 0xFFFC ==> n <= Aligned(n) < n + 4
  {
  }

  lemma FourDivides(x: nat)
    ensures x % 0x1_0000 % 4 == x % 4
  {
    var q, r := x / 0x1_0000, x % 0x1_0000;
    DivModUnique(x, 4, 0x4000 * q + r / 4, r % 4);
  }

  class Buffer {
    const mem: array<byte>
    var hi: nat
    var traceLen: nat
    var tracing: bool
    var emulator: Option<nat>
    ghost var chunks: seq<Chunk>      // the chunks that must not be handed out again
    ghost var emIndex: nat            // which of them is the emulator memory
    ghost var log: seq<Record>        // what has been logged since the trace was last cleared

    ghost predicate Valid()
      reads this, mem
    {
      && traceLen <= hi <= mem.Length && Stacked(chunks, mem.Length, hi)
      && (emulator.Some? ==>
            emIndex < |chunks| && chunks[emIndex] == Chunk(emulator.value, CARD_MEMORY_SIZE as nat))
      && AllValid(log) && mem[..traceLen] == EncodeAll(log)
    }

    /** The trace lies below every chunk. */
    lemma TraceApart(i: nat)
      requires Valid() && i < |chunks|
      ensures traceLen <= chunks[i].start && chunks[i].End() <= mem.Length
    {
      StackedAt(chunks, mem.Length, hi, i);
    }

    /** The trace area reads as the log. */
    lemma TraceReads()
      requires Valid()
      ensures Parse(mem[..traceLen]) == Some(log)
    {
      ParseBack(log);
    }

    /** `BigBuf_initialize`. */
    constructor (size: nat)
      ensures Valid() && mem.Length == size && log == [] && chunks == [] && emulator == None && tracing && fresh(mem)
    {
      mem := new byte[size];
      hi := size;
      traceLen := 0;
      tracing := true;
      emulator := None;
      chunks := [];
      emIndex := 0;
      log := [];
      new;
      assert mem[..0] == [];
    }

    method Malloc(chunkSize: word16) returns (p: Option<nat>)
      requires Valid()
      modifies this`hi, this`chunks
      ensures Valid()
      ensures p.Some? <==> Aligned(chunkSize) > 0 && Aligned(chunkSize) <= old(hi) - traceLen
      ensures p.Some? ==>
        && chunks == old(chunks) + [Chunk(p.value, Aligned(chunkSize))]
        && hi == p.value && p.value + Aligned(chunkSize) == old(hi) <= mem.Length
      ensures p.None? ==> chunks == old(chunks) && hi == old(hi)
    {
      var size := Aligned(chunkSize);
      if hi - traceLen < size || size == 0 { return None; }
      StackedPush(chunks, mem.Length, hi, Chunk(hi - size, size));
      chunks := chunks + [Chunk(hi - size, size)];
      hi := hi - size;
      return Some(hi);
    }

    method Calloc(chunkSize: word16) returns (p: Option<nat>)
      requires Valid()
      modifies this`hi, this`chunks, mem
      ensures Valid()
      ensures p.Some? <==> Aligned(chunkSize) > 0 && Aligned(chunkSize) <= old(hi) - traceLen
      ensures p.Some? ==>
        && chunks == old(chunks) + [Chunk(p.value, Aligned(chunkSize))]
        && hi == p.value && p.value + Aligned(chunkSize) == old(hi) <= mem.Length
      ensures p.Some? ==> forall k | p.value <= k < p.value + Aligned(chunkSize) :: mem[k] == 0
      ensures p.Some? ==> mem[old(hi)..] == old(mem[hi..])
      ensures p.None? ==> chunks == old(chunks) && hi == old(hi) && mem[..] == old(mem[..])
    {
      p := Malloc(chunkSize);
      if p.Some? {
        Fill(p.value, Aligned(chunkSize), 0);
      }
    }

    /** `memset` in memory above the trace. */
    method Fill(at: nat, len: nat, value: byte)
      requires Valid() && traceLen <= at && at + len <= mem.Length
      modifies mem
      ensures Valid()
      ensures forall k | at <= k < at + len :: mem[k] == value
      ensures mem[..at] == old(mem[..at]) && mem[at + len..] == old(mem[at + len..])
    {
      ghost var trace := mem[..traceLen];
      for i := 0 to len
        invariant forall k | at <= k < at + i :: mem[k] == value
        invariant mem[..at] == old(mem[..at]) && mem[at + len..] == old(mem[at + len..])
      {
        mem[at + i] := value;
      }
      assert mem[..traceLen] == mem[..at][..traceLen] == trace;
    }

    /** What the owner of a chunk may do with it: nothing but its own bytes change. */
    method Store(ghost i: nat, at: nat, value: byte)
      requires Valid() && i < |chunks| && chunks[i].start <= at < chunks[i].End()
      requires at < mem.Length
      modifies mem
      ensures Valid() && mem[..] == old(mem[..])[at := value]
    {
      TraceApart(i);
      ghost var trace := mem[..traceLen];
      mem[at] := value;
      assert mem[..traceLen] == trace;
    }

    /** `BigBuf_get_EM_addr`: the emulator memory, allocated on first use. */
    method EmulatorMemory() returns (p: Option<nat>)
      requires Valid()
      modifies this`hi, this`chunks, this`emulator, this`emIndex, mem
      ensures Valid() && p == emulator
      ensures old(emulator).Some? ==> emulator == old(emulator) && chunks == old(chunks) && mem[..] == old(mem[..])
      ensures old(emulator).None? && p.Some? ==> chunks == old(chunks) + [Chunk(p.value, 4096)]
      ensures p.Some? ==> Chunk(p.value, 4096) in chunks
      ensures p.None? ==> chunks == old(chunks) && mem[..] == old(mem[..])
    {
      if emulator.None? {
        p := Calloc(CARD_MEMORY_SIZE);
        emulator := p;
        emIndex := |chunks| - if p.Some? then 1 else 0;
      }
      p := emulator;
    }

    /** `BigBuf_free`. */
    method Free()
      requires Valid()
      modifies this`hi, this`chunks, this`emulator
      ensures Valid() && chunks == [] && emulator == None && hi == mem.Length
    {
      hi := mem.Length;
      emulator := None;
      chunks := [];
    }

    /** `BigBuf_free_keep_EM`: the emulator memory, and what was handed out before it, stays. */
    method FreeKeepEmulator()
      requires Valid()
      modifies this`hi, this`chunks
      ensures Valid() && emulator == old(emulator)
      ensures chunks == if emulator.Some? then old(chunks)[..emIndex + 1] else []
      ensures hi == if emulator.Some? then emulator.value else mem.Length
    {
      match emulator {
        case Some(em) =>
          StackedAt(chunks, mem.Length, hi, emIndex);
          hi := em;
          chunks := chunks[..emIndex + 1];
        case None =>
          hi := mem.Length;
          chunks := [];
      }
    }

    /** `BigBuf_max_traceLen`: the greatest multiple of four up to `hi`, on 16 bits. */
    function MaxTraceLen(): (m: nat)
      reads this`hi
      ensures m % 4 == 0 && m <= hi % 0x1_0000 < m + 4
      ensures m == hi % 0x1_0000 - hi % 4
    {
      FourDivides(hi);
      hi % 0x1_0000 / 4 * 4
    }

    method ClearTrace()
      requires Valid()
      modifies this`traceLen, this`log
      ensures Valid() && log == []
    {
      traceLen := 0;
      log := [];
      assert mem[..0] == [];
    }

    method SetTracing(enable: bool)
      requires Valid()
      modifies this`tracing
      ensures Valid() && tracing == enable
    {
      tracing := enable;
    }

    /** `BigBuf_Clear_ext`. */
    method Clear()
      requires Valid()
      modifies this`traceLen, this`log, mem
      ensures Valid() && log == [] && forall k | 0 <= k < mem.Length :: mem[k] == 0
    {
      ClearTrace();
      Fill(0, mem.Length, 0);
    }

    /**
      `LogTrace`: one record more in the trace, or nothing; a full trace also stops tracing. Without parity the
      parity bytes are zero.
     */
    method LogTrace(bytes: Option<seq<byte>>, len: word16, start: word32, end: word32, parity: Option<seq<byte>>,
                    readerToTag: bool) returns (ok: bool)
      requires Valid() && (bytes.Some? ==> len as nat <= |bytes.value|)
      requires parity.Some? && len > 0 ==> ParityBytes(len) <= |parity.value|
      modifies this`traceLen, this`tracing, this`log, mem
      ensures Valid()
      ensures ok == (bytes.Some? && old(tracing) && 0 < len < 0x8000
                     && old(traceLen) + 8 + len + (len + 7) / 8 < hi % 0x1_0000 - hi % 4)
      ensures tracing == (ok || (old(tracing) && (bytes.None? || len == 0 || len >= 0x8000)))
      ensures mem[hi..] == old(mem[hi..])
      ensures log == if !ok then old(log) else
        old(log) + [Record(start, Duration(start, end), !readerToTag, bytes.value[..len],
                           if parity.Some? then parity.value[..ParityBytes(len)] else seq(ParityBytes(len), _ => 0))]
    {
      if bytes.None? || !tracing { return false; }
      if len == 0 || len >= 0x8000 { return false; }
      var parityBytes := ParityBytes(len);
      assert parityBytes == (len + 7) / 8;
      hide ParityBytes, MaxTraceLen, LengthWord, Encode, EncodeAll, Stacked;
      var max := MaxTraceLen();
      var entry := HEADER + len + parityBytes;
      if traceLen >= max || entry >= max - traceLen {
        tracing := false;
        return false;
      }
      var data := bytes.value[..len];
      var check := if parity.Some? then parity.value[..parityBytes] else seq(parityBytes, _ => 0);
      ghost var r := Record(start, Duration(start, end), !readerToTag, data, check);
      AddRecord(start, Duration(start, end), LengthWord(len, !readerToTag), data, check, r);
      return true;
    }

    /** Writes the fields of `r` behind the trace. */
    method AddRecord(timestamp: word32, duration: word16, word: nat, data: seq<byte>, check: seq<byte>, ghost r: Record)
      requires Valid() && r.Valid() && r == Record(timestamp, duration, r.response, data, check)
      requires word == LengthWord(|data|, r.response) && traceLen + HEADER + |data| + |check| <= hi
      modifies this`traceLen, this`log, mem
      ensures Valid() && log == old(log) + [r] && mem[hi..] == old(mem[hi..])
    {
      hide LowFirst, LengthWord, ParityBytes, Encode, EncodeAll, Stacked;
      WriteFields(timestamp, duration, word, data, check);
      EncodeIs(r);
      var end := traceLen + HEADER + |data| + |check|;
      assert mem[..end] == mem[..traceLen] + mem[traceLen..end];
      EncodeMore(log, r);
      traceLen := end;
      log := log + [r];
    }

    method WriteFields(timestamp: word32, duration: word16, word: nat, data: seq<byte>, check: seq<byte>)
      requires traceLen + HEADER + |data| + |check| <= hi <= mem.Length
      modifies mem
      ensures mem[..traceLen] == old(mem[..traceLen]) && mem[hi..] == old(mem[hi..])
      ensures mem[traceLen..traceLen + HEADER + |data| + |check|]
        == LowFirst(timestamp, 4) + LowFirst(duration, 2) + LowFirst(word, 2) + data + check
    {
      hide LowFirst;
      assert mem[traceLen..traceLen] == [];
      ghost var a, b, c := LowFirst(timestamp, 4), LowFirst(duration, 2), LowFirst(word, 2);
      Extend(traceLen, [], LowFirst(timestamp, 4));
      assert [] + a == a;
      Extend(traceLen + 4, a, LowFirst(duration, 2));
      Extend(traceLen + 6, a + b, LowFirst(word, 2));
      Extend(traceLen + HEADER, a + b + c, data);
      Extend(traceLen + HEADER + |data|, a + b + c + data, check);
    }

    method Extend(pos: nat, ghost done: seq<byte>, piece: seq<byte>)
      requires traceLen + |done| == pos && pos + |piece| <= hi <= mem.Length && mem[traceLen..pos] == done
      modifies mem
      ensures mem[traceLen..pos + |piece|] == done + piece
      ensures mem[..traceLen] == old(mem[..traceLen]) && mem[hi..] == old(mem[hi..])
    {
      ghost var low, high := mem[..pos], mem[pos + |piece|..];
      Cbc.CopyInto(mem, pos, piece);
      assert mem[traceLen..pos] == mem[..pos][traceLen..] == low[traceLen..];
      assert mem[traceLen..pos + |piece|] == mem[traceLen..pos] + mem[pos..pos + |piece|];
      assert mem[..traceLen] == mem[..pos][..traceLen] == low[..traceLen];
      assert mem[hi..] == mem[pos + |piece|..][hi - pos - |piece|..] == high[hi - pos - |piece|..];
    }

    /** `LogTraceBits`: the number of bits in the last byte goes into the first parity byte. */
    method LogTraceBits(bytes: Option<seq<byte>>, bitLen: word16, start: word32, end: word32, readerToTag: bool)
      returns (ok: bool)
      requires Valid() && (bytes.Some? ==> ByteCount(bitLen) <= |bytes.value|)
      modifies this`traceLen, this`tracing, this`log, mem
      ensures Valid()
      ensures ok ==>
        && bytes.Some? && bitLen > 0
        && log == old(log) + [BitRecord(bytes.value, bitLen, start, Duration(start, end), !readerToTag)]
      ensures !ok ==> log == old(log)
      ensures mem[hi..] == old(mem[hi..])
      ensures tracing == (ok || (old(tracing) && (bytes.None? || bitLen == 0)))
      ensures ok == (bytes.Some? && old(tracing) && bitLen > 0
                     && old(traceLen) + 8 + (bitLen + 7) / 8 + (bitLen + 63) / 64 < hi % 0x1_0000 - hi % 4)
    {
      if bitLen == 0 { return false; }
      var parity := [bitLen % 8] + seq(ParityBytes(ByteCount(bitLen)) - 1, _ => 0);
      ok := LogTrace(bytes, ByteCount(bitLen), start, end, Some(parity), readerToTag);
      if ok { assert parity[..|parity|] == parity; }
    }
  }

  lemma EncodeIs(r: Record)
    ensures Encode(r)
      == LowFirst(r.timestamp, 4) + LowFirst(r.duration, 2) + LowFirst(LengthWord(|r.data|, r.response), 2)
         + r.data + r.parity
  {
  }

  lemma EncodeMore(log: seq<Record>, r: Record)
    ensures EncodeAll(log + [r]) == EncodeAll(log) + Encode(r)
  {
    assert (log + [r])[..|log|] == log;
  }

  function BitRecord(bytes: seq<byte>, bitLen: nat, timestamp: word32, duration: word16, response: bool): Record
    requires 0 < bitLen && ByteCount(bitLen) <= |bytes|
  {
    var n := ByteCount(bitLen);
    Record(timestamp, duration, response, bytes[..n], [bitLen % 8] + seq(ParityBytes(n) - 1, _ => 0))
  }

  /** The number of bits a record of bits stands for. */
  function BitLength(r: Record): nat
    requires r.Valid()
  {
    if r.parity[0] == 0 || r.parity[0] > 8 then 8 * |r.data| else 8 * (|r.data| - 1) + r.parity[0]
  }

  /** A record of bits tells how many there were. */
  lemma BitLengthBack(bytes: seq<byte>, bitLen: word16, timestamp: word32, duration: word16, response: bool)
    requires 0 < bitLen && ByteCount(bitLen) <= |bytes|
    ensures
      var r := BitRecord(bytes, bitLen, timestamp, duration, response);
      && r.Valid() && BitLength(r) == bitLen && r.data == bytes[..(bitLen + 7) / 8]
      && r.parity[0] == bitLen % 8 && (forall k | 0 < k < |r.parity| :: r.parity[k] == 0)
      && r.timestamp == timestamp && r.duration == duration && r.response == response
  {
  }
}
