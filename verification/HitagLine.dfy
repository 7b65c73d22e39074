/**
  The Hitag line codes.  The sender's waveform is a sequence of held levels; the receiver sees only the
  times between falling edges, in timer ticks.
 */
module HitagLine {
  import opened Bits
  import opened Waveform

  datatype Mod = AC2K | AC4K | MC4K | MC8K

  const T0: nat := 12
  const T_LOW: nat := 8
  const T_0: nat := 20
  const T_1: nat := 28
  const T_0_MIN: nat := 15
  const T_1_MIN: nat := 25
  const T_STOP: nat := 36
  const T_CODE_VIOLATION: nat := 36
  const T_EOF: nat := 80
  const T_WAIT_RESP: nat := 200
  const T_PROG_MAX: nat := 750
  const CAPTURE_TWO_HALF: nat := 25
  const CAPTURE_THREE_HALF: nat := 41
  const CAPTURE_FOUR_HALF: nat := 57

  predicate TestBitMsb(data: seq<byte>, i: nat)
    requires i < 8 * |data|
  {
    MsbFirst(data[i / 8])[i % 8]
  }

  /** The first `n` bits of a byte buffer. */
  function BitsIn(data: seq<byte>, n: nat): (s: seq<bool>)
    requires n <= 8 * |data|
    ensures |s| == n
  {
    seq(n, i requires 0 <= i < n => TestBitMsb(data, i))
  }

  // ---------------------------------------------------------------------------
  // Tag to reader: the encoder
  // ---------------------------------------------------------------------------

  predicate Anticollision(m: Mod) { m == AC2K || m == AC4K }

  /** Half of the shortest distance between falling edges: a quarter bit, or half a Manchester bit. */
  function Unit(m: Mod): nat { if m == AC2K || m == MC4K then 16 * T0 else 8 * T0 }

  function BitWave(bit: bool, m: Mod): seq<Hold> {
    var u := Unit(m);
    if Anticollision(m) then
      if bit then [Hold(true, u), Hold(false, u), Hold(true, u), Hold(false, u)]
      else [Hold(true, 2 * u), Hold(false, 2 * u)]
    else [Hold(bit, u), Hold(!bit, u)]
  }

  function Wave(bits: seq<bool>, m: Mod): seq<Hold> {
    if bits == [] then [] else BitWave(bits[0], m) + Wave(bits[1..], m)
  }

  /** Start of frame: ones, except that the Hitag µ one is 1110. */
  function Sof(n: nat): (s: seq<bool>)
    ensures |s| == n
  {
    if n == 4 then [true, true, true, false] else Ones(n)
  }

  function LeadIn(m: Mod): nat { if m == AC4K || m == MC8K then 40 else 20 }

  function FrameWave(bits: seq<bool>, m: Mod): seq<Hold> {
    [Hold(true, T0 * LeadIn(m))] + Wave(bits, m) + [Hold(false, 0)]
  }

  /** What a bit, the lead-in and the start of frame look like in each modulation, in ticks of a twelfth of a period. */
  lemma TagShapes(bit: bool, sofBits: nat)
    ensures BitWave(true, AC2K) == [Hold(true, 192), Hold(false, 192), Hold(true, 192), Hold(false, 192)]
    ensures BitWave(false, AC2K) == [Hold(true, 384), Hold(false, 384)]
    ensures BitWave(true, AC4K) == [Hold(true, 96), Hold(false, 96), Hold(true, 96), Hold(false, 96)]
    ensures BitWave(false, AC4K) == [Hold(true, 192), Hold(false, 192)]
    ensures BitWave(bit, MC4K) == [Hold(bit, 192), Hold(!bit, 192)] && BitWave(bit, MC8K) == [Hold(bit, 96), Hold(!bit, 96)]
    ensures forall m: Mod :: FrameWave([], m) == [Hold(true, if m == AC2K || m == MC4K then 240 else 480), Hold(false, 0)]
    ensures Sof(sofBits) == if sofBits == 4 then [true, true, true, false] else seq(sofBits, _ => true)
  {
    assert Sof(sofBits) == if sofBits == 4 then [true, true, true, false] else seq(sofBits, _ => true);
  }

  lemma {:induction false} WaveJoins(a: seq<bool>, b: seq<bool>, m: Mod)
    ensures Wave(a + b, m) == Wave(a, m) + Wave(b, m)
  {
    hide BitWave;
    if a == [] {
      assert a + b == b;
    } else {
      WaveJoins(a[1..], b, m);
      assert (a + b)[1..] == a[1..] + b && (a + b)[0] == a[0];
      var first, x, y := BitWave(a[0], m), Wave(a[1..], m), Wave(b, m);
      assert first + (x + y) == first + x + y;
    }
  }

  class Line {
    var wave: seq<Hold>

    constructor ()
      ensures wave == []
    {
      wave := [];
    }

    /** Holds the line at a level until the bit timer reads `until`, having read `from` before. */
    method HoldUntil(high: bool, from: nat, until: nat)
      requires from <= until
      modifies this
      ensures wave == old(wave) + [Hold(high, until - from)]
    {
      wave := wave + [Hold(high, until - from)];
    }

    method TagSendBit(bit: bool, m: Mod)
      modifies this
      ensures wave == old(wave) + BitWave(bit, m)
    {
      match m
      case AC2K =>
        if !bit {
          HoldUntil(true, 0, T0 * 32);
          HoldUntil(false, T0 * 32, T0 * 64);
        } else {
          HoldUntil(true, 0, T0 * 16);
          HoldUntil(false, T0 * 16, T0 * 32);
          HoldUntil(true, T0 * 32, T0 * 48);
          HoldUntil(false, T0 * 48, T0 * 64);
        }
      case AC4K =>
        if !bit {
          HoldUntil(true, 0, T0 * 16);
          HoldUntil(false, T0 * 16, T0 * 32);
        } else {
          HoldUntil(true, 0, T0 * 8);
          HoldUntil(false, T0 * 8, T0 * 16);
          HoldUntil(true, T0 * 16, T0 * 24);
          HoldUntil(false, T0 * 24, T0 * 32);
        }
      case MC4K =>
        HoldUntil(bit, 0, T0 * 16);
        HoldUntil(!bit, T0 * 16, T0 * 32);
      case MC8K =>
        HoldUntil(bit, 0, T0 * 8);
        HoldUntil(!bit, T0 * 8, T0 * 16);
    }

    method TagSendSof(sofBits: nat, m: Mod)
      modifies this
      ensures wave == old(wave) + Wave(Sof(sofBits), m)
    {
      hide BitWave;
      ghost var sof := Sof(sofBits);
      for i := 0 to sofBits
        invariant wave == old(wave) + Wave(sof[..i], m)
      {
        AppendBit(sof, i, m);
        if sofBits == 4 && i == 3 {
          TagSendBit(false, m);
        } else {
          TagSendBit(true, m);
        }
      }
      assert sof[..sofBits] == sof;
    }

    method TagSendContent(frame: seq<byte>, frameLen: nat, m: Mod)
      requires frameLen <= 8 * |frame|
      modifies this
      ensures wave == old(wave) + Wave(BitsIn(frame, frameLen), m)
    {
      hide BitWave, TestBitMsb;
      ghost var bits := BitsIn(frame, frameLen);
      for i := 0 to frameLen
        invariant wave == old(wave) + Wave(bits[..i], m)
      {
        AppendBit(bits, i, m);
        TagSendBit(TestBitMsb(frame, i), m);
      }
      assert bits[..frameLen] == bits;
    }

    method TagSendFrame(frame: seq<byte>, frameLen: nat, sofBits: nat, m: Mod)
      requires frameLen <= 8 * |frame|
      modifies this
      ensures wave == old(wave) + FrameWave(Sof(sofBits) + BitsIn(frame, frameLen), m)
    {
      hide BitWave, TestBitMsb, Sof, BitsIn;
      HoldUntil(true, 0, if m == AC4K || m == MC8K then T0 * 40 else T0 * 20);
      TagSendSof(sofBits, m);
      TagSendContent(frame, frameLen, m);
      WaveJoins(Sof(sofBits), BitsIn(frame, frameLen), m);
      HoldUntil(false, 0, 0);
    }

    method ReaderSendBit(bit: bool)
      modifies this
      ensures wave == old(wave) + ReaderBit(bit)
    {
      HoldUntil(true, 0, T0 * T_LOW);
      if !bit {
        HoldUntil(false, T0 * T_LOW, T0 * T_0);
      } else {
        HoldUntil(false, T0 * T_LOW, T0 * T_1);
      }
    }

    method ReaderSendFrame(frame: seq<byte>, frameLen: nat, sendSof: bool)
      requires frameLen <= 8 * |frame|
      modifies this
      ensures wave == old(wave) + ReaderWave(BitsIn(frame, frameLen), sendSof)
    {
      hide TestBitMsb, BitsIn, Pulses;
      if sendSof {
        ReaderSendBit(false);
        HoldUntil(true, 0, T0 * T_LOW);
        HoldUntil(false, T0 * T_LOW, T0 * T_CODE_VIOLATION);
      }
      ReaderSendContent(frame, frameLen);
      HoldUntil(true, 0, T0 * T_LOW);
      HoldUntil(false, 0, 0);
      assert SofPulses(sendSof) + Pulses(BitsIn(frame, frameLen)) + [Hold(true, T0 * T_LOW), Hold(false, 0)]
          == ReaderWave(BitsIn(frame, frameLen), sendSof);
    }

    method ReaderSendContent(frame: seq<byte>, frameLen: nat)
      requires frameLen <= 8 * |frame|
      modifies this
      ensures wave == old(wave) + Pulses(BitsIn(frame, frameLen))
    {
      hide TestBitMsb, ReaderBit;
      ghost var bits := BitsIn(frame, frameLen);
      for i := 0 to frameLen
        invariant wave == old(wave) + Pulses(bits[..i])
      {
        assert bits[..i + 1][..i] == bits[..i];
        ReaderSendBit(TestBitMsb(frame, i));
      }
      assert bits[..frameLen] == bits;
    }
  }

  /** Pulse length coding: a pulse, then a pause that is longer for a 1. */
  function ReaderBit(bit: bool): seq<Hold> {
    [Hold(true, T0 * T_LOW), Hold(false, T0 * ((if bit then T_1 else T_0) - T_LOW))]
  }

  function Pulses(bits: seq<bool>): seq<Hold> {
    if bits == [] then [] else Pulses(bits[..|bits| - 1]) + ReaderBit(bits[|bits| - 1])
  }

  /** The Hitag µ start of frame: a 0 and a code violation. */
  function SofPulses(sendSof: bool): seq<Hold> {
    if sendSof then ReaderBit(false) + [Hold(true, T0 * T_LOW), Hold(false, T0 * (T_CODE_VIOLATION - T_LOW))] else []
  }

  function ReaderWave(bits: seq<bool>, sendSof: bool): seq<Hold> {
    SofPulses(sendSof) + Pulses(bits) + [Hold(true, T0 * T_LOW), Hold(false, 0)]
  }

  /** What the reader sends for a bit and for the Hitag µ start of frame, in ticks. */
  lemma ReaderShapes(bit: bool)
    ensures ReaderBit(bit) == [Hold(true, 96), Hold(false, if bit then 240 else 144)]
    ensures SofPulses(true) == [Hold(true, 96), Hold(false, 144), Hold(true, 96), Hold(false, 336)]
    ensures ReaderWave([], false) == [Hold(true, 96), Hold(false, 0)]
  {
    assert [Hold(true, 96), Hold(false, 0)] == [] + [] + [Hold(true, 96), Hold(false, 0)];
  }

  lemma AppendBit(bits: seq<bool>, i: nat, m: Mod)
    requires i < |bits|
    ensures Wave(bits[..i + 1], m) == Wave(bits[..i], m) + BitWave(bits[i], m)
  {
    WaveJoins(bits[..i], [bits[i]], m);
    assert bits[..i + 1] == bits[..i] + [bits[i]];
    OneBit(bits[i], m);
  }

  lemma OneBit(bit: bool, m: Mod)
    ensures Wave([bit], m) == BitWave(bit, m)
  {
    assert Wave([bit][1..], m) == [];
  }

  // ---------------------------------------------------------------------------
  // Tag to reader: the decoder
  // ---------------------------------------------------------------------------

  datatype Span = Short | Two | Three | Four

  function DoubleSpeed(m: Mod): nat { if m == AC4K || m == MC8K then 2 else 1 }

  /** How many half periods a time between falling edges stands for. */
  function SpanOf(rb: nat, m: Mod): Span {
    if rb >= CAPTURE_FOUR_HALF / DoubleSpeed(m) then Four
    else if rb >= CAPTURE_THREE_HALF / DoubleSpeed(m) then Three
    else if rb >= CAPTURE_TWO_HALF / DoubleSpeed(m) then Two
    else Short
  }

  /** The receiver: all bits decoded so far, SOF included, and its memory of the last edge. */
  datatype Rx = Rx(started: bool, bits: seq<bool>, lastbit: bool, skip: bool, errors: nat, sofDone: bool)

  const IDLE: Rx := Rx(false, [], true, true, 0, false)

  function DecodeSpan(rx: Rx, span: Span, m: Mod): Rx {
    if span == Short then rx.(errors := rx.errors + 1)
    else if Anticollision(m) then
      match span
      case Four => rx.(lastbit := false, bits := rx.bits + [false])
      case Three => rx.(lastbit := !rx.lastbit, skip := !rx.lastbit, bits := rx.bits + [!rx.lastbit])
      case _ =>
        if rx.skip then rx.(skip := false) else rx.(skip := true, lastbit := true, bits := rx.bits + [true])
    else
      match span
      case Four => rx.(bits := rx.bits + [false, true])
      case Three =>
        rx.(lastbit := !rx.lastbit, skip := !rx.skip,
            bits := rx.bits + (if rx.skip then [false] else [false, true]))
      case _ => rx.(bits := rx.bits + [rx.lastbit])
  }

  /** How many bits are taken away as start of frame. */
  function Strip(bits: seq<bool>, sofBits: nat): nat
    requires sofBits <= |bits|
  {
    if sofBits == 4 && bits[..4] != Ones(4) then 3 else sofBits
  }

  function StepEdge(rx: Rx, edge: nat, m: Mod, sofBits: nat): Rx {
    var rb := edge / T0;
    if !rx.started then
      if rb >= T_WAIT_RESP then rx.(started := true, bits := [true]) else rx.(errors := rx.errors + 1)
    else
      var next := DecodeSpan(rx, SpanOf(rb, m), m);
      next.(sofDone := rx.sofDone || |next.bits| >= sofBits)
  }

  predicate WellFormed(rx: Rx, sofBits: nat) {
    && (rx.sofDone ==> |rx.bits| >= sofBits)
    && (!rx.started ==> rx.bits == [] && !rx.sofDone)
    && (rx.started ==> rx.bits != [])
  }

  /** The bits the caller sees. */
  function Visible(rx: Rx, sofBits: nat): seq<bool>
    requires WellFormed(rx, sofBits)
  {
    if rx.sofDone then rx.bits[Strip(rx.bits, sofBits)..] else rx.bits
  }

  /** The line has been quiet too long for another edge to count. */
  predicate TooLate(rx: Rx, edge: nat) {
    edge >= T0 * T_PROG_MAX || (rx.started && edge > T0 * 80)
  }

  predicate GiveUp(rx: Rx, sofBits: nat, size: nat)
    requires WellFormed(rx, sofBits)
  {
    rx.errors > 100 || |Visible(rx, sofBits)| / 8 >= size
  }

  /** What remains of the reception after the edges in `edges`. */
  function Run(rx: Rx, edges: seq<nat>, m: Mod, sofBits: nat, size: nat): (r: Rx)
    requires WellFormed(rx, sofBits)
    ensures WellFormed(r, sofBits)
    decreases |edges|
  {
    if edges == [] || GiveUp(rx, sofBits, size) || TooLate(rx, edges[0]) then rx
    else Run(StepEdge(rx, edges[0], m, sofBits), edges[1..], m, sofBits, size)
  }

  /** No bit from position `n` on is set. */
  ghost predicate Clear(data: seq<byte>, n: nat) {
    forall i :: n <= i < 8 * |data| ==> !TestBitMsb(data, i)
  }

  lemma SetOneBit(data: seq<byte>, i: nat)
    requires i < 8 * |data|
    ensures
      var after := data[i / 8 := SetBit(data[i / 8], i % 8)];
      forall j :: 0 <= j < 8 * |data| ==> (TestBitMsb(after, j) <==> TestBitMsb(data, j) || j == i)
  {
    hide MsbFirst;
    var after := data[i / 8 := SetBit(data[i / 8], i % 8)];
    forall j | 0 <= j < 8 * |data| ensures TestBitMsb(after, j) <==> TestBitMsb(data, j) || j == i {
      if j / 8 == i / 8 && j != i { assert j % 8 != i % 8; }
    }
  }

  /** The receive buffer and how many bits of it are filled. */
  class RxBuffer {
    const rx: array<byte>
    var rxlen: nat

    ghost predicate Valid()
      reads this, rx
    {
      rxlen <= 8 * rx.Length && Clear(rx[..], rxlen)
    }

    ghost function Contents(): seq<bool>
      requires Valid()
      reads this, rx
    {
      BitsIn(rx[..], rxlen)
    }

    constructor (rx: array<byte>)
      ensures this.rx == rx && rxlen == 0
    {
      this.rx := rx;
      rxlen := 0;
    }

    method Reset()
      modifies this, rx
      ensures Valid() && Contents() == []
    {
      for i := 0 to rx.Length
        invariant forall k :: 0 <= k < i ==> rx[k] == 0
      {
        rx[i] := 0;
      }
      rxlen := 0;
      ZeroBytesClear(rx[..]);
    }

    method AddBit(bit: bool)
      requires Valid() && rxlen < 8 * rx.Length
      modifies this, rx
      ensures Valid() && Contents() == old(Contents()) + [bit]
    {
      hide TestBitMsb, SetBit;
      if bit {
        SetOneBit(rx[..], rxlen);
        ghost var before := rx[..];
        rx[rxlen / 8] := SetBit(rx[rxlen / 8], rxlen % 8);
        assert rx[..] == before[rxlen / 8 := SetBit(before[rxlen / 8], rxlen % 8)];
      }
      rxlen := rxlen + 1;
      assert Contents()[..rxlen - 1] == old(Contents());
    }

    /** Takes the first `sofBits` bits away; all bits are still in the first byte. */
    method StripSof(sofBits: nat)
      requires Valid() && sofBits <= rxlen <= 8 && rx.Length > 0
      modifies this, rx
      ensures Valid() && Contents() == old(Contents())[sofBits..]
    {
      hide MsbFirst, SetBit;
      ghost var was := Contents();
      FirstByteBits(rx[..], rxlen);
      var tmp, n := [rx[0]], rxlen - sofBits;
      rx[0] := 0;
      OnlyFirstByte(old(rx[..]), rx[..], old(rxlen));
      rxlen := n;
      for i := 0 to n
        invariant rxlen == n && forall j | 0 <= j < 8 * rx.Length :: TestBitMsb(rx[..], j) <==> j < i && was[sofBits + j]
      {
        if TestBitMsb(tmp, sofBits + i) {
          SetOneBit(rx[..], i);
          ghost var before := rx[..];
          rx[i / 8] := SetBit(rx[i / 8], i % 8);
          assert rx[..] == before[i / 8 := SetBit(before[i / 8], i % 8)];
        }
      }
    }
  }

  lemma OnlyFirstByte(data: seq<byte>, after: seq<byte>, n: nat)
    requires data != [] && n <= 8 && Clear(data, n) && after == data[0 := 0]
    ensures Clear(after, 0)
  {
    forall i | 0 <= i < 8 * |after| ensures !TestBitMsb(after, i) {
      if i < 8 {
        ZeroMsb(8);
      } else {
        assert !TestBitMsb(data, i);
      }
    }
  }

  lemma FirstByteBits(data: seq<byte>, n: nat)
    requires data != [] && n <= 8
    ensures BitsIn(data, n) == MsbFirst(data[0])[..n]
  {
  }

  lemma ZeroBytesClear(data: seq<byte>)
    requires forall k :: 0 <= k < |data| ==> data[k] == 0
    ensures Clear(data, 0)
  {
    assert Pow2(8) == 256;
    assert MsbFirst(0) == Zeros(8) by { ZeroMsb(8); }
  }

  /**
    The reader's receive loop over the falling edges it will see.  It stays inside its buffer whenever the
    bits it delivers fit there; see `BufferSuffices` for when they do.
   */
  method ReaderReceiveFrame(rx: array<byte>, edges: seq<nat>, m: Mod, sofBits: nat) returns (rxlen: nat)
    requires rx.Length > 0 && 1 <= sofBits <= 7
    requires |Visible(Run(IDLE, edges, m, sofBits, rx.Length), sofBits)| <= 8 * rx.Length
    modifies rx
    ensures rxlen <= 8 * rx.Length
    ensures BitsIn(rx[..], rxlen) == Visible(Run(IDLE, edges, m, sofBits, rx.Length), sofBits)
  {
    hide Run, Clear, BitsIn, MsbFirst, DecodeSpan, SpanOf, TestBitMsb, StepEdge, Strip;
    ghost var size := rx.Length;
    var b := new RxBuffer(rx);
    b.Reset();
    var lastbit, bSkip, errorCount, bStarted, sofReceived := true, true, 0, false, false;
    var sof := sofBits;
    var k := 0;
    ghost var g := IDLE;
    assert edges[0..] == edges;
    while k < |edges| && !(errorCount > 100 || b.rxlen / 8 >= rx.Length)
          && !(edges[k] >= T0 * T_PROG_MAX || (bStarted && edges[k] > T0 * 80))
      invariant k <= |edges| && b.Valid() && b.rx == rx && fresh(b)
      invariant WellFormed(g, sofBits) && b.Contents() == Visible(g, sofBits)
      invariant g == Rx(bStarted, g.bits, lastbit, bSkip, errorCount, sofReceived)
      invariant !sofReceived ==> sof == sofBits && (|g.bits| < sofBits || |g.bits| == 1)
      invariant Run(IDLE, edges, m, sofBits, size) == Run(g, edges[k..], m, sofBits, size)
    {
      var rb := edges[k] / T0;
      ghost var before := g;
      if bStarted { RoomForEdge(g, edges[k..], m, sofBits, size); }
      Unfold(g, edges[k..], m, sofBits, size);
      StepIs(g, edges[k], m, sofBits);
      g := StepEdge(g, edges[k], m, sofBits);
      assert edges[k..][1..] == edges[k + 1..];
      k := k + 1;
      if !bStarted {
        if rb >= T_WAIT_RESP {
          bStarted := true;
          b.AddBit(true);
        } else {
          errorCount := errorCount + 1;
        }
      } else {
        lastbit, bSkip, errorCount := DecodeEdge(b, rb, m, lastbit, bSkip, errorCount, before, sofBits);
        sof, sofReceived := TakeSof(b, sof, sofReceived, before, g, sofBits);
      }
    }
    Ended(g, edges[k..], m, sofBits, size);
    rxlen := b.rxlen;
  }

  lemma StepIs(rx: Rx, edge: nat, m: Mod, sofBits: nat)
    requires WellFormed(rx, sofBits)
    ensures
      var (rb, next) := (edge / T0, StepEdge(rx, edge, m, sofBits));
      var decoded := DecodeSpan(rx, SpanOf(rb, m), m);
      && WellFormed(next, sofBits)
      && (if rx.started then next == decoded.(sofDone := rx.sofDone || |decoded.bits| >= sofBits)
          else if rb >= T_WAIT_RESP then next == rx.(started := true, bits := [true])
          else next == rx.(errors := rx.errors + 1))
      && (rx.started ==> rx.bits <= decoded.bits && |decoded.bits| <= |rx.bits| + 2)
  {
  }

  /** After an edge has been decoded: takes the start of frame away once all of it is there. */
  method TakeSof(b: RxBuffer, sofBits: nat, sofReceived: bool, ghost before: Rx, ghost g: Rx, ghost given: nat)
    returns (sof: nat, done: bool)
    requires b.Valid() && b.rx.Length > 0 && 1 <= given <= 7
    requires WellFormed(before, given) && WellFormed(g, given) && before.bits <= g.bits && before.sofDone == sofReceived
    requires b.Contents() == Visible(before, given) + g.bits[|before.bits|..]
    requires g.sofDone == (before.sofDone || |g.bits| >= given)
    requires !sofReceived ==> sofBits == given && |g.bits| <= 8
    modifies b, b.rx
    ensures b.Valid() && b.Contents() == Visible(g, given) && done == g.sofDone
    ensures !done ==> sof == given
  {
    hide Clear, BitsIn;
    VisibleGrows(before, g, given);
    sof, done := sofBits, sofReceived;
    if !done && b.rxlen >= sof {
      sof := SofLength(b, sof);
      b.StripSof(sof);
      done := true;
    }
  }

  lemma VisibleGrows(rx: Rx, next: Rx, sofBits: nat)
    requires WellFormed(rx, sofBits) && WellFormed(next, sofBits) && rx.bits <= next.bits
    requires rx.sofDone ==> next.sofDone
    ensures
      Visible(rx, sofBits) + next.bits[|rx.bits|..] == if rx.sofDone then Visible(next, sofBits) else next.bits
  {
    if rx.sofDone {
      if sofBits == 4 { assert next.bits[..4] == rx.bits[..4]; }
      var n := Strip(rx.bits, sofBits);
      assert next.bits == rx.bits + next.bits[|rx.bits|..];
      assert next.bits[n..] == rx.bits[n..] + next.bits[|rx.bits|..];
    } else {
      assert next.bits == rx.bits + next.bits[|rx.bits|..];
    }
  }

  /** Once the start of frame is gone, edges only add bits. */
  lemma {:induction false} RunGrows(rx: Rx, edges: seq<nat>, m: Mod, sofBits: nat, size: nat)
    requires WellFormed(rx, sofBits)
    ensures
      var r := Run(rx, edges, m, sofBits, size);
      rx.sofDone ==> r.sofDone && |Visible(rx, sofBits)| <= |Visible(r, sofBits)|
    decreases |edges|
  {
    hide Visible, DecodeSpan, SpanOf;
    if rx.sofDone && edges != [] && !GiveUp(rx, sofBits, size) && !TooLate(rx, edges[0]) {
      Unfold(rx, edges, m, sofBits, size);
      var next := StepEdge(rx, edges[0], m, sofBits);
      BitsGrow(rx, SpanOf(edges[0] / T0, m), m);
      VisibleGrows(rx, next, sofBits);
      RunGrows(next, edges[1..], m, sofBits, size);
    }
  }

  lemma BitsGrow(rx: Rx, span: Span, m: Mod)
    ensures
      var next := DecodeSpan(rx, span, m);
      && rx.bits <= next.bits && |next.bits| <= |rx.bits| + (if Anticollision(m) then 1 else 2)
      && next.started == rx.started && next.sofDone == rx.sofDone
  {
  }

  /** An edge adds no more than the buffer has room for, if what is delivered in the end fits. */
  lemma RoomForEdge(rx: Rx, edges: seq<nat>, m: Mod, sofBits: nat, size: nat)
    requires edges != [] && WellFormed(rx, sofBits) && rx.started && 1 <= sofBits <= 7 && 0 < size
    requires !GiveUp(rx, sofBits, size) && !TooLate(rx, edges[0])
    requires !rx.sofDone ==> |rx.bits| < sofBits || |rx.bits| == 1
    requires |Visible(Run(rx, edges, m, sofBits, size), sofBits)| <= 8 * size
    ensures
      var next := DecodeSpan(rx, SpanOf(edges[0] / T0, m), m);
      |Visible(rx, sofBits)| + |next.bits| - |rx.bits| <= 8 * size
  {
    hide DecodeSpan, SpanOf, Run;
    var next := StepEdge(rx, edges[0], m, sofBits);
    BitsGrow(rx, SpanOf(edges[0] / T0, m), m);
    if rx.sofDone {
      Unfold(rx, edges, m, sofBits, size);
      VisibleGrows(rx, next, sofBits);
      RunGrows(next, edges[1..], m, sofBits, size);
    }
  }

  lemma Ended(rx: Rx, edges: seq<nat>, m: Mod, sofBits: nat, size: nat)
    requires WellFormed(rx, sofBits)
    requires edges == [] || GiveUp(rx, sofBits, size) || TooLate(rx, edges[0])
    ensures Run(rx, edges, m, sofBits, size) == rx
  {
  }

  /** A reception stops within a bit of the buffer's end, and at its end if every edge brings one bit at most. */
  lemma {:induction false} RunFits(rx: Rx, edges: seq<nat>, m: Mod, sofBits: nat, size: nat)
    requires WellFormed(rx, sofBits) && 1 <= sofBits <= 7 && 0 < size
    requires !rx.sofDone ==> |rx.bits| < sofBits || |rx.bits| <= 1
    requires |Visible(rx, sofBits)| <= 8 * size + (if Anticollision(m) then 0 else 1)
    ensures |Visible(Run(rx, edges, m, sofBits, size), sofBits)| <= 8 * size + (if Anticollision(m) then 0 else 1)
    decreases |edges|
  {
    hide DecodeSpan, SpanOf, Run;
    if edges == [] || GiveUp(rx, sofBits, size) || TooLate(rx, edges[0]) {
      Ended(rx, edges, m, sofBits, size);
    } else {
      Unfold(rx, edges, m, sofBits, size);
      var next := StepEdge(rx, edges[0], m, sofBits);
      if rx.started {
        BitsGrow(rx, SpanOf(edges[0] / T0, m), m);
        VisibleGrows(rx, next, sofBits);
      }
      RunFits(next, edges[1..], m, sofBits, size);
    }
  }

  /** The receiver after a first edge and `k` more that each bring a 1. */
  function AfterOnes(k: nat, sofBits: nat): Rx {
    Rx(true, Ones(k + 1), true, true, 0, k > 0 && k + 1 >= sofBits)
  }

  function TwoHalves(m: Mod): nat { T0 * (CAPTURE_TWO_HALF / DoubleSpeed(m)) }

  function FourHalves(m: Mod): nat { T0 * (CAPTURE_FOUR_HALF / DoubleSpeed(m)) }

  lemma {:induction false} OnesRun(k: nat, n: nat, rest: seq<nat>, m: Mod, sofBits: nat, size: nat)
    requires !Anticollision(m) && 1 <= sofBits <= 7 && 0 < size && k + n + 1 < sofBits + 8 * size
    ensures Run(AfterOnes(k, sofBits), seq(n, _ => TwoHalves(m)) + rest, m, sofBits, size)
         == Run(AfterOnes(k + n, sofBits), rest, m, sofBits, size)
    decreases n
  {
    hide Run;
    var edges := seq(n, _ => TwoHalves(m)) + rest;
    if n > 0 {
      var rx := AfterOnes(k, sofBits);
      assert !GiveUp(rx, sofBits, size);
      Unfold(rx, edges, m, sofBits, size);
      assert StepEdge(rx, edges[0], m, sofBits) == AfterOnes(k + 1, sofBits);
      assert edges[1..] == seq(n - 1, _ => TwoHalves(m)) + rest;
      OnesRun(k + 1, n - 1, rest, m, sofBits, size);
    } else {
      assert edges == rest;
    }
  }

  /** Edges that fill all but the last place of the buffer one by one, and then bring two bits. */
  lemma Overrun(m: Mod, sofBits: nat, size: nat) returns (edges: seq<nat>)
    requires !Anticollision(m) && 1 <= sofBits <= 7 && 0 < size
    ensures |Visible(Run(IDLE, edges, m, sofBits, size), sofBits)| == 8 * size + 1
  {
    hide Run;
    var n := sofBits + 8 * size - 2;
    var later := seq(n, _ => TwoHalves(m)) + [FourHalves(m)];
    edges := [T0 * T_WAIT_RESP] + later;
    assert edges[1..] == later;
    Unfold(IDLE, edges, m, sofBits, size);
    assert StepEdge(IDLE, edges[0], m, sofBits) == AfterOnes(0, sofBits);
    OnesRun(0, n, [FourHalves(m)], m, sofBits, size);
    var rx := AfterOnes(n, sofBits);
    Unfold(rx, [FourHalves(m)], m, sofBits, size);
    var last := StepEdge(rx, FourHalves(m), m, sofBits);
    assert [FourHalves(m)][1..] == [];
    Ended(last, [], m, sofBits, size);
    assert last.bits == Ones(n + 1) + [false, true];
    assert last.bits[..sofBits] == Ones(sofBits);
  }

  /** A receive buffer of any size suffices for every sequence of edges exactly in the anticollision modulations. */
  lemma BufferSuffices(m: Mod, sofBits: nat, size: nat)
    requires 1 <= sofBits <= 7 && 0 < size
    ensures (forall edges :: |Visible(Run(IDLE, edges, m, sofBits, size), sofBits)| <= 8 * size) <==> Anticollision(m)
  {
    hide Run, Visible;
    if Anticollision(m) {
      assert |Visible(IDLE, sofBits)| == 0 by { NothingVisible(sofBits); }
      forall edges ensures |Visible(Run(IDLE, edges, m, sofBits, size), sofBits)| <= 8 * size {
        RunFits(IDLE, edges, m, sofBits, size);
      }
    } else {
      var edges := Overrun(m, sofBits, size);
    }
  }

  lemma NothingVisible(sofBits: nat)
    ensures Visible(IDLE, sofBits) == []
  {
  }

  /** The decoding step on the buffer: adds what `DecodeSpan` adds. */
  method DecodeEdge(b: RxBuffer, rb: nat, m: Mod, last: bool, skip: bool, errors: nat, ghost g: Rx, ghost sofBits: nat)
    returns (lastbit: bool, bSkip: bool, errorCount: nat)
    requires b.Valid() && b.rxlen + |DecodeSpan(g, SpanOf(rb, m), m).bits| - |g.bits| <= 8 * b.rx.Length
    requires WellFormed(g, sofBits) && b.Contents() == Visible(g, sofBits)
    requires g.started && g.lastbit == last && g.skip == skip && g.errors == errors
    modifies b, b.rx
    ensures b.Valid()
    ensures
      var next := DecodeSpan(g, SpanOf(rb, m), m);
      && next == g.(bits := next.bits, lastbit := lastbit, skip := bSkip, errors := errorCount)
      && g.bits <= next.bits && |next.bits| <= |g.bits| + 2
      && b.Contents() == old(b.Contents()) + next.bits[|g.bits|..]
  {
    if Anticollision(m) {
      lastbit, bSkip, errorCount := DecodeAnticollision(b, rb, m, last, skip, errors, g, sofBits);
    } else {
      lastbit, bSkip, errorCount := DecodeManchester(b, rb, m, last, skip, errors, g, sofBits);
    }
  }

  method DecodeAnticollision(b: RxBuffer, rb: nat, m: Mod, last: bool, skip: bool, errors: nat, ghost g: Rx, ghost sofBits: nat)
    returns (lastbit: bool, bSkip: bool, errorCount: nat)
    requires b.Valid() && b.rxlen + |DecodeSpan(g, SpanOf(rb, m), m).bits| - |g.bits| <= 8 * b.rx.Length
    requires Anticollision(m)
    requires WellFormed(g, sofBits) && b.Contents() == Visible(g, sofBits)
    requires g.started && g.lastbit == last && g.skip == skip && g.errors == errors
    modifies b, b.rx
    ensures b.Valid()
    ensures
      var next := DecodeSpan(g, SpanOf(rb, m), m);
      && next == g.(bits := next.bits, lastbit := lastbit, skip := bSkip, errors := errorCount)
      && g.bits <= next.bits && |next.bits| <= |g.bits| + 2
      && b.Contents() == old(b.Contents()) + next.bits[|g.bits|..]
  {
    hide Clear, BitsIn, MsbFirst;
    lastbit, bSkip, errorCount := last, skip, errors;
    if rb >= CAPTURE_FOUR_HALF / DoubleSpeed(m) {
      lastbit := false;
      b.AddBit(false);
    } else if rb >= CAPTURE_THREE_HALF / DoubleSpeed(m) {
      lastbit := !lastbit;
      b.AddBit(lastbit);
      bSkip := lastbit;
    } else if rb >= CAPTURE_TWO_HALF / DoubleSpeed(m) {
      if !bSkip {
        lastbit := true;
        b.AddBit(true);
      }
      bSkip := !bSkip;
    } else {
      errorCount := errorCount + 1;
    }
  }

  method DecodeManchester(b: RxBuffer, rb: nat, m: Mod, last: bool, skip: bool, errors: nat, ghost g: Rx, ghost sofBits: nat)
    returns (lastbit: bool, bSkip: bool, errorCount: nat)
    requires b.Valid() && b.rxlen + |DecodeSpan(g, SpanOf(rb, m), m).bits| - |g.bits| <= 8 * b.rx.Length
    requires !Anticollision(m)
    requires WellFormed(g, sofBits) && b.Contents() == Visible(g, sofBits)
    requires g.started && g.lastbit == last && g.skip == skip && g.errors == errors
    modifies b, b.rx
    ensures b.Valid()
    ensures
      var next := DecodeSpan(g, SpanOf(rb, m), m);
      && next == g.(bits := next.bits, lastbit := lastbit, skip := bSkip, errors := errorCount)
      && g.bits <= next.bits && |next.bits| <= |g.bits| + 2
      && b.Contents() == old(b.Contents()) + next.bits[|g.bits|..]
  {
    hide Clear, BitsIn, MsbFirst;
    lastbit, bSkip, errorCount := last, skip, errors;
    if rb >= CAPTURE_FOUR_HALF / DoubleSpeed(m) {
      b.AddBit(false);
      b.AddBit(true);
    } else if rb >= CAPTURE_THREE_HALF / DoubleSpeed(m) {
      b.AddBit(false);
      if !bSkip {
        b.AddBit(true);
      }
      lastbit := !lastbit;
      bSkip := !bSkip;
    } else if rb >= CAPTURE_TWO_HALF / DoubleSpeed(m) {
      b.AddBit(lastbit);
    } else {
      errorCount := errorCount + 1;
    }
  }

  /** How long the start of frame turns out to be: an invalid four-bit one counts as three bits. */
  method SofLength(b: RxBuffer, sofBits: nat) returns (n: nat)
    requires b.Valid() && sofBits <= b.rxlen && 1 <= sofBits <= 7 && b.rx.Length > 0
    ensures n == Strip(b.Contents(), sofBits)
  {
    n := sofBits;
    LeadingOnes(b.rx[0], sofBits);
    FirstByteBits(b.rx[..], sofBits);
    assert b.Contents()[..sofBits] == BitsIn(b.rx[..], sofBits);
    if Shr(b.rx[0], 8 - sofBits) != Pow2(sofBits) - 1 {
      if sofBits == 4 {
        n := 3;
      }
    }
  }

  // ---------------------------------------------------------------------------
  // The decoder undoes the encoder
  // ---------------------------------------------------------------------------

  /** How far, in ticks, a measured time may be off. */
  function Tolerance(m: Mod): nat { if DoubleSpeed(m) == 2 then 47 else 84 }

  predicate Near(edge: nat, exact: nat, m: Mod) {
    exact <= edge + Tolerance(m) && edge <= exact + Tolerance(m)
  }

  /** `edges` are the times `exact`, each off by no more than the tolerance. */
  predicate Jittered(edges: seq<nat>, exact: seq<nat>, m: Mod) {
    |edges| == |exact| && forall i :: 0 <= i < |edges| ==> Near(edges[i], exact[i], m)
  }

  lemma SpanNear(edge: nat, exact: nat, m: Mod)
    requires Near(edge, exact, m)
    ensures edge <= T0 * 80 || exact > 4 * Unit(m)
    ensures exact == 2 * Unit(m) ==> SpanOf(edge / T0, m) == Two
    ensures exact == 3 * Unit(m) ==> SpanOf(edge / T0, m) == Three
    ensures exact == 4 * Unit(m) ==> SpanOf(edge / T0, m) == Four
  {
  }

  const END: seq<Hold> := [Hold(false, 0)]

  /** Manchester: the falls after one in the middle of a 1, with `bits` still to come. */
  function FallsMid(bits: seq<bool>, m: Mod): seq<nat> {
    Falls(false, Unit(m), Wave(bits, m) + END)
  }

  /** Manchester: the falls after one at the start of a 0, with that 0 and then `bits` to come. */
  function FallsEdge(bits: seq<bool>, m: Mod): seq<nat> {
    Falls(false, Unit(m), [Hold(true, Unit(m))] + Wave(bits, m) + END)
  }

  lemma EndFalls(high: bool, since: nat)
    ensures Falls(high, since, END) == if high then [since] else []
  {
    FallsStep(high, since, Hold(false, 0), []);
    assert END == [Hold(false, 0)] + [];
  }

  lemma ManchesterBit(high: bool, since: nat, bits: seq<bool>, m: Mod)
    requires !Anticollision(m) && bits != []
    ensures
      var u, rest := Unit(m), Wave(bits[1..], m) + END;
      Falls(high, since, Wave(bits, m) + END) ==
        if bits[0] then [since + u] + Falls(false, u, rest)
        else if high then [since] + Falls(true, 2 * u, rest)
        else Falls(true, since + 2 * u, rest)
  {
    hide Falls, Wave;
    var u, rest := Unit(m), Wave(bits[1..], m) + END;
    assert Wave(bits, m) + END == BitWave(bits[0], m) + rest by { WaveHead(bits, m); }
    FallsPair(high, since, Hold(bits[0], u), Hold(!bits[0], u), rest);
  }

  lemma NoBits(m: Mod)
    ensures Wave([], m) + END == END
  {
  }

  lemma ManchesterMid(bits: seq<bool>, m: Mod)
    requires !Anticollision(m)
    ensures FallsMid(bits, m) ==
      if bits == [] then []
      else if bits[0] then [2 * Unit(m)] + FallsMid(bits[1..], m)
      else if bits == [false] then [3 * Unit(m)]
      else if bits[1] then [4 * Unit(m)] + FallsMid(bits[2..], m)
      else [3 * Unit(m)] + FallsEdge(bits[2..], m)
  {
    hide Falls, Wave;
    var u := Unit(m);
    NoBits(m);
    if bits == [] {
      EndFalls(false, u);
    } else {
      ManchesterBit(false, u, bits, m);
      if !bits[0] {
        if |bits| == 1 {
          assert bits[1..] == [] && bits == [false];
          EndFalls(true, 3 * u);
        } else {
          assert bits[1..][1..] == bits[2..];
          ManchesterBit(true, 3 * u, bits[1..], m);
          HighFirst(2 * u, bits[2..], m);
        }
      }
    }
  }

  lemma HighFirst(since: nat, bits: seq<bool>, m: Mod)
    requires since == 2 * Unit(m)
    ensures Falls(true, since, Wave(bits, m) + END) == FallsEdge(bits, m)
  {
    var u := Unit(m);
    assert [Hold(true, u)] + Wave(bits, m) + END == [Hold(true, u)] + (Wave(bits, m) + END);
    FallsStep(false, u, Hold(true, u), Wave(bits, m) + END);
  }

  lemma ManchesterEdge(bits: seq<bool>, m: Mod)
    requires !Anticollision(m)
    ensures FallsEdge(bits, m) ==
      if bits == [] then [2 * Unit(m)]
      else if bits[0] then [3 * Unit(m)] + FallsMid(bits[1..], m)
      else [2 * Unit(m)] + FallsEdge(bits[1..], m)
  {
    hide Falls, Wave;
    var u := Unit(m);
    NoBits(m);
    HighFirst(2 * u, bits, m);
    if bits == [] {
      EndFalls(true, 2 * u);
    } else {
      ManchesterBit(true, 2 * u, bits, m);
      HighFirst(2 * u, bits[1..], m);
    }
  }

  /** Anticollision: the falls after the one inside a 0. */
  function FallsZero(bits: seq<bool>, m: Mod): seq<nat> {
    Falls(false, 2 * Unit(m), Wave(bits, m) + END)
  }

  /** Anticollision: the falls after the first of the two inside a 1. */
  function FallsFirst(bits: seq<bool>, m: Mod): seq<nat> {
    [2 * Unit(m)] + FallsSecond(bits, m)
  }

  /** Anticollision: the falls after the second of the two inside a 1. */
  function FallsSecond(bits: seq<bool>, m: Mod): seq<nat> {
    Falls(false, Unit(m), Wave(bits, m) + END)
  }

  lemma OneFallsTwice(since: nat, u: nat, rest: seq<Hold>)
    ensures Falls(false, since, [Hold(true, u), Hold(false, u), Hold(true, u), Hold(false, u)] + rest)
         == [since + u] + ([2 * u] + Falls(false, u, rest))
  {
    hide Falls;
    var up, down := Hold(true, u), Hold(false, u);
    assert [up, down, up, down] + rest == [up, down] + ([up, down] + rest);
    FallsPair(false, since, up, down, [up, down] + rest);
    FallsPair(false, u, up, down, rest);
  }

  lemma AnticollisionBit(since: nat, bits: seq<bool>, m: Mod)
    requires Anticollision(m) && bits != []
    ensures
      var u := Unit(m);
      Falls(false, since, Wave(bits, m) + END) ==
        if bits[0] then [since + u] + FallsFirst(bits[1..], m) else [since + 2 * u] + FallsZero(bits[1..], m)
  {
    hide Falls, Wave;
    var u, rest := Unit(m), Wave(bits[1..], m) + END;
    assert Wave(bits, m) + END == BitWave(bits[0], m) + rest by { WaveHead(bits, m); }
    if bits[0] {
      OneFallsTwice(since, u, rest);
    } else {
      FallsPair(false, since, Hold(true, 2 * u), Hold(false, 2 * u), rest);
    }
  }

  lemma WaveHead(bits: seq<bool>, m: Mod)
    requires bits != []
    ensures Wave(bits, m) == BitWave(bits[0], m) + Wave(bits[1..], m)
  {
  }

  lemma JitteredSplit(edges: seq<nat>, x: nat, rest: seq<nat>, m: Mod)
    requires Jittered(edges, [x] + rest, m)
    ensures edges != [] && Near(edges[0], x, m) && Jittered(edges[1..], rest, m)
  {
    hide Near;
    var exact := [x] + rest;
    assert Near(edges[0], exact[0], m);
    forall i | 0 <= i < |rest| ensures Near(edges[1..][i], rest[i], m) {
      assert Near(edges[i + 1], exact[i + 1], m);
    }
  }

  /** The SOF bits the receiver takes away from a well sent frame. */
  function Stripped(sofBits: nat): nat { if sofBits == 4 then 3 else sofBits }

  /** A reception in progress that still has `left` bits to come. */
  predicate OnTrack(rx: Rx, left: nat, sofBits: nat, size: nat) {
    && rx.started && rx.errors == 0 && WellFormed(rx, sofBits) && 1 <= sofBits <= 6 && size > 0
    && (!rx.sofDone ==> |rx.bits| < 7)
    && |rx.bits| + left <= 8 * size + Stripped(sofBits)
  }

  /** What `more` further bits leave in the receiver. */
  predicate Ends(r: Rx, rx: Rx, more: seq<bool>, sofBits: nat) {
    r.bits == rx.bits + more && (r.sofDone <==> rx.sofDone || (more != [] && |r.bits| >= sofBits))
  }

  /** Bits decoded from one edge, then the rest: the same as all of them. */
  lemma EndsAfter(r: Rx, rx: Rx, next: Rx, first: seq<bool>, rest: seq<bool>, sofBits: nat)
    requires next.bits == rx.bits + first && next.sofDone == (rx.sofDone || |next.bits| >= sofBits)
    requires r.bits == next.bits + rest && first != []
    requires r.sofDone <==> next.sofDone || |r.bits| >= sofBits || (rest != [] && |r.bits| >= sofBits)
    ensures Ends(r, rx, first + rest, sofBits)
  {
    assert rx.bits + first + rest == rx.bits + (first + rest);
  }

  lemma TakeEdge(rx: Rx, edges: seq<nat>, left: nat, m: Mod, sofBits: nat, size: nat, exact: nat)
    requires OnTrack(rx, left, sofBits, size) && left > 0
    requires edges != [] && Near(edges[0], exact, m) && 2 * Unit(m) <= exact <= 4 * Unit(m)
    ensures !GiveUp(rx, sofBits, size) && !TooLate(rx, edges[0])
    ensures
      var next := StepEdge(rx, edges[0], m, sofBits);
      Run(rx, edges, m, sofBits, size) == Run(next, edges[1..], m, sofBits, size)
    ensures
      var next := StepEdge(rx, edges[0], m, sofBits);
      next.sofDone == (rx.sofDone || |next.bits| >= sofBits)
  {
    hide Run;
    SpanNear(edges[0], exact, m);
    Unfold(rx, edges, m, sofBits, size);
  }

  /** The next edge is `x` ticks after the last but for jitter, and reception goes on from what it decodes to. */
  lemma Consume(rx: Rx, edges: seq<nat>, left: nat, m: Mod, sofBits: nat, size: nat, x: nat, rest: seq<nat>)
    requires OnTrack(rx, left, sofBits, size) && left > 0
    requires x == 2 * Unit(m) || x == 3 * Unit(m) || x == 4 * Unit(m)
    requires Jittered(edges, [x] + rest, m)
    ensures edges != [] && Jittered(edges[1..], rest, m)
    ensures
      var next := StepEdge(rx, edges[0], m, sofBits);
      && next == Decoded(rx, x, m, sofBits)
      && Run(rx, edges, m, sofBits, size) == Run(next, edges[1..], m, sofBits, size)
  {
    hide Run, DecodeSpan;
    JitteredSplit(edges, x, rest, m);
    TakeEdge(rx, edges, left, m, sofBits, size, x);
    SpanNear(edges[0], x, m);
  }

  /** The receiver after an edge exactly `x` ticks after the last. */
  function Decoded(rx: Rx, x: nat, m: Mod, sofBits: nat): Rx {
    var span := if x == 2 * Unit(m) then Two else if x == 3 * Unit(m) then Three else Four;
    var next := DecodeSpan(rx, span, m);
    next.(sofDone := rx.sofDone || |next.bits| >= sofBits)
  }

  lemma Unfold(rx: Rx, edges: seq<nat>, m: Mod, sofBits: nat, size: nat)
    requires WellFormed(rx, sofBits) && edges != [] && !GiveUp(rx, sofBits, size) && !TooLate(rx, edges[0])
    ensures Run(rx, edges, m, sofBits, size) == Run(StepEdge(rx, edges[0], m, sofBits), edges[1..], m, sofBits, size)
  {
  }

  lemma {:induction false} MidRun(rx: Rx, bits: seq<bool>, edges: seq<nat>, m: Mod, sofBits: nat, size: nat)
    requires !Anticollision(m) && rx.lastbit && rx.skip && OnTrack(rx, |bits|, sofBits, size)
    requires Jittered(edges, FallsMid(bits, m), m)
    ensures Ends(Run(rx, edges, m, sofBits, size), rx, bits, sofBits)
    decreases |bits|, 0
  {
    hide FallsMid, FallsEdge, Run, Jittered, StepEdge, Ends;
    ManchesterMid(bits, m);
    var u := Unit(m);
    if bits == [] {
      EndsNow(rx, sofBits);
      NoEdges(rx, edges, m, sofBits, size);
    } else if bits[0] {
      Consume(rx, edges, |bits|, m, sofBits, size, 2 * u, FallsMid(bits[1..], m));
      MidThen(rx, StepEdge(rx, edges[0], m, sofBits), [true], bits[1..], edges[1..], m, sofBits, size);
      assert bits == [true] + bits[1..];
    } else if bits == [false] {
      assert [3 * u] + [] == [3 * u];
      Consume(rx, edges, 1, m, sofBits, size, 3 * u, []);
      NoneThen(rx, StepEdge(rx, edges[0], m, sofBits), edges[1..], m, sofBits, size);
    } else if bits[1] {
      Consume(rx, edges, |bits|, m, sofBits, size, 4 * u, FallsMid(bits[2..], m));
      MidThen(rx, StepEdge(rx, edges[0], m, sofBits), [false, true], bits[2..], edges[1..], m, sofBits, size);
      assert bits == [false, true] + bits[2..];
    } else {
      Consume(rx, edges, |bits|, m, sofBits, size, 3 * u, FallsEdge(bits[2..], m));
      EdgeThen(rx, StepEdge(rx, edges[0], m, sofBits), bits[2..], edges[1..], m, sofBits, size);
      assert bits == [false] + ([false] + bits[2..]);
    }
  }

  lemma {:induction false} EdgeRun(rx: Rx, bits: seq<bool>, edges: seq<nat>, m: Mod, sofBits: nat, size: nat)
    requires !Anticollision(m) && !rx.lastbit && !rx.skip && OnTrack(rx, 1 + |bits|, sofBits, size)
    requires Jittered(edges, FallsEdge(bits, m), m)
    ensures Ends(Run(rx, edges, m, sofBits, size), rx, [false] + bits, sofBits)
    decreases |bits|, 0
  {
    hide FallsMid, FallsEdge, Run, Jittered, StepEdge, Ends;
    ManchesterEdge(bits, m);
    var u := Unit(m);
    if bits == [] {
      assert [2 * u] + [] == [2 * u];
      Consume(rx, edges, 1, m, sofBits, size, 2 * u, []);
      NoneThen(rx, StepEdge(rx, edges[0], m, sofBits), edges[1..], m, sofBits, size);
      assert [false] + bits == [false];
    } else if bits[0] {
      Consume(rx, edges, 1 + |bits|, m, sofBits, size, 3 * u, FallsMid(bits[1..], m));
      MidThen(rx, StepEdge(rx, edges[0], m, sofBits), [false, true], bits[1..], edges[1..], m, sofBits, size);
      assert [false] + bits == [false, true] + bits[1..];
    } else {
      Consume(rx, edges, 1 + |bits|, m, sofBits, size, 2 * u, FallsEdge(bits[1..], m));
      EdgeThen(rx, StepEdge(rx, edges[0], m, sofBits), bits[1..], edges[1..], m, sofBits, size);
      assert bits == [false] + bits[1..];
    }
  }

  /** Having decoded `first`, the receiver is in the middle of a 1 again. */
  lemma {:induction false} MidThen(rx: Rx, next: Rx, first: seq<bool>, rest: seq<bool>, edges: seq<nat>, m: Mod,
                                   sofBits: nat, size: nat)
    requires !Anticollision(m) && first != [] && |first| <= 2 && OnTrack(rx, |first| + |rest|, sofBits, size)
    requires next == rx.(bits := rx.bits + first, lastbit := true, skip := true, sofDone := next.sofDone)
    requires next.sofDone == (rx.sofDone || |next.bits| >= sofBits)
    requires Jittered(edges, FallsMid(rest, m), m)
    ensures Ends(Run(next, edges, m, sofBits, size), rx, first + rest, sofBits)
    decreases |rest|, 1
  {
    hide Jittered, Run, FallsMid;
    MidRun(next, rest, edges, m, sofBits, size);
    EndsAfter(Run(next, edges, m, sofBits, size), rx, next, first, rest, sofBits);
  }

  /** Having decoded one 0, the receiver is at the start of another. */
  lemma {:induction false} EdgeThen(rx: Rx, next: Rx, rest: seq<bool>, edges: seq<nat>, m: Mod, sofBits: nat, size: nat)
    requires !Anticollision(m) && OnTrack(rx, 2 + |rest|, sofBits, size)
    requires next == rx.(bits := rx.bits + [false], lastbit := false, skip := false, sofDone := next.sofDone)
    requires next.sofDone == (rx.sofDone || |next.bits| >= sofBits)
    requires Jittered(edges, FallsEdge(rest, m), m)
    ensures Ends(Run(next, edges, m, sofBits, size), rx, [false] + ([false] + rest), sofBits)
    decreases |rest|, 1
  {
    hide Jittered, Run, FallsEdge;
    EdgeRun(next, rest, edges, m, sofBits, size);
    EndsAfter(Run(next, edges, m, sofBits, size), rx, next, [false], [false] + rest, sofBits);
  }

  lemma NoneThen(rx: Rx, next: Rx, edges: seq<nat>, m: Mod, sofBits: nat, size: nat)
    requires WellFormed(next, sofBits) && Jittered(edges, [], m)
    requires next.bits == rx.bits + [false] && next.sofDone == (rx.sofDone || |next.bits| >= sofBits)
    ensures Ends(Run(next, edges, m, sofBits, size), rx, [false], sofBits)
  {
    NoEdges(next, edges, m, sofBits, size);
  }

  lemma NoEdges(rx: Rx, edges: seq<nat>, m: Mod, sofBits: nat, size: nat)
    requires WellFormed(rx, sofBits) && Jittered(edges, [], m)
    ensures Run(rx, edges, m, sofBits, size) == rx
  {
  }

  lemma AnticollisionFalls(bits: seq<bool>, m: Mod)
    requires Anticollision(m)
    ensures FallsZero(bits, m) ==
      if bits == [] then []
      else if bits[0] then [3 * Unit(m)] + FallsFirst(bits[1..], m) else [4 * Unit(m)] + FallsZero(bits[1..], m)
    ensures FallsSecond(bits, m) ==
      if bits == [] then []
      else if bits[0] then [2 * Unit(m)] + FallsFirst(bits[1..], m) else [3 * Unit(m)] + FallsZero(bits[1..], m)
  {
    hide Falls, FallsFirst;
    if bits == [] {
      NoBits(m);
      EndFalls(false, 2 * Unit(m));
      EndFalls(false, Unit(m));
    } else {
      AnticollisionBit(2 * Unit(m), bits, m);
      AnticollisionBit(Unit(m), bits, m);
    }
  }

  lemma {:induction false} ZeroRun(rx: Rx, bits: seq<bool>, edges: seq<nat>, m: Mod, sofBits: nat, size: nat)
    requires Anticollision(m) && !rx.lastbit && OnTrack(rx, |bits|, sofBits, size)
    requires Jittered(edges, FallsZero(bits, m), m)
    ensures Ends(Run(rx, edges, m, sofBits, size), rx, bits, sofBits)
    decreases |bits|, 0
  {
    hide FallsFirst, FallsZero, Run, Jittered, StepEdge, Ends;
    var u := Unit(m);
    AnticollisionFalls(bits, m);
    if bits == [] {
      EndsNow(rx, sofBits);
      NoEdges(rx, edges, m, sofBits, size);
    } else if bits[0] {
      Consume(rx, edges, |bits|, m, sofBits, size, 3 * u, FallsFirst(bits[1..], m));
      FirstRunThen(rx, StepEdge(rx, edges[0], m, sofBits), bits, edges[1..], m, sofBits, size);
    } else {
      Consume(rx, edges, |bits|, m, sofBits, size, 4 * u, FallsZero(bits[1..], m));
      ZeroRunThen(rx, StepEdge(rx, edges[0], m, sofBits), bits, edges[1..], m, sofBits, size);
    }
  }

  lemma {:induction false} SecondRun(rx: Rx, bits: seq<bool>, edges: seq<nat>, m: Mod, sofBits: nat, size: nat)
    requires Anticollision(m) && rx.lastbit && !rx.skip && OnTrack(rx, |bits|, sofBits, size)
    requires Jittered(edges, FallsSecond(bits, m), m)
    ensures Ends(Run(rx, edges, m, sofBits, size), rx, bits, sofBits)
    decreases |bits|, 0
  {
    hide FallsFirst, FallsZero, FallsSecond, Run, Jittered, StepEdge, Ends;
    var u := Unit(m);
    AnticollisionFalls(bits, m);
    if bits == [] {
      EndsNow(rx, sofBits);
      NoEdges(rx, edges, m, sofBits, size);
    } else if bits[0] {
      Consume(rx, edges, |bits|, m, sofBits, size, 2 * u, FallsFirst(bits[1..], m));
      FirstRunThen(rx, StepEdge(rx, edges[0], m, sofBits), bits, edges[1..], m, sofBits, size);
    } else {
      Consume(rx, edges, |bits|, m, sofBits, size, 3 * u, FallsZero(bits[1..], m));
      ZeroRunThen(rx, StepEdge(rx, edges[0], m, sofBits), bits, edges[1..], m, sofBits, size);
    }
  }

  lemma EndsNow(rx: Rx, sofBits: nat)
    ensures Ends(rx, rx, [], sofBits)
  {
  }

  lemma {:induction false} FirstRunThen(rx: Rx, next: Rx, bits: seq<bool>, edges: seq<nat>, m: Mod, sofBits: nat,
                                        size: nat)
    requires Anticollision(m) && OnTrack(rx, |bits|, sofBits, size) && bits != [] && bits[0]
    requires next == rx.(bits := rx.bits + [true], lastbit := true, skip := true, sofDone := next.sofDone)
    requires next.sofDone == (rx.sofDone || |next.bits| >= sofBits)
    requires Jittered(edges, FallsFirst(bits[1..], m), m)
    ensures Ends(Run(next, edges, m, sofBits, size), rx, bits, sofBits)
    decreases |bits| - 1, 2
  {
    hide Jittered, Run, FallsFirst;
    FirstRun(next, bits[1..], edges, m, sofBits, size);
    EndsAfter(Run(next, edges, m, sofBits, size), rx, next, [true], bits[1..], sofBits);
    assert bits == [true] + bits[1..];
  }

  lemma {:induction false} ZeroRunThen(rx: Rx, next: Rx, bits: seq<bool>, edges: seq<nat>, m: Mod, sofBits: nat,
                                       size: nat)
    requires Anticollision(m) && OnTrack(rx, |bits|, sofBits, size) && bits != [] && !bits[0]
    requires next == rx.(bits := rx.bits + [false], lastbit := false, skip := next.skip, sofDone := next.sofDone)
    requires next.sofDone == (rx.sofDone || |next.bits| >= sofBits)
    requires Jittered(edges, FallsZero(bits[1..], m), m)
    ensures Ends(Run(next, edges, m, sofBits, size), rx, bits, sofBits)
    decreases |bits| - 1, 2
  {
    hide Jittered, Run, FallsZero;
    ZeroRun(next, bits[1..], edges, m, sofBits, size);
    EndsAfter(Run(next, edges, m, sofBits, size), rx, next, [false], bits[1..], sofBits);
    assert bits == [false] + bits[1..];
  }

  /** After the first fall of a 1 the receiver may already have every bit it has room for. */
  lemma {:induction false} FirstRun(rx: Rx, bits: seq<bool>, edges: seq<nat>, m: Mod, sofBits: nat, size: nat)
    requires Anticollision(m) && rx.lastbit && rx.skip && OnTrack(rx, |bits|, sofBits, size)
    requires Jittered(edges, FallsFirst(bits, m), m)
    ensures
      var r := Run(rx, edges, m, sofBits, size);
      r.bits == rx.bits + bits && (r.sofDone <==> rx.sofDone || |r.bits| >= sofBits)
    decreases |bits|, 1
  {
    hide FallsSecond, Run, Jittered, Falls;
    var u := Unit(m);
    JitteredSplit(edges, 2 * u, FallsSecond(bits, m), m);
    if bits == [] && GiveUp(rx, sofBits, size) {
      Stopped(rx, edges, m, sofBits, size);
    } else {
      SpanNear(edges[0], 2 * u, m);
      if bits == [] { Unfold(rx, edges, m, sofBits, size); }
      else { TakeEdge(rx, edges, |bits|, m, sofBits, size, 2 * u); }
      SecondRun(StepEdge(rx, edges[0], m, sofBits), bits, edges[1..], m, sofBits, size);
    }
  }

  lemma Stopped(rx: Rx, edges: seq<nat>, m: Mod, sofBits: nat, size: nat)
    requires WellFormed(rx, sofBits) && GiveUp(rx, sofBits, size)
    ensures Run(rx, edges, m, sofBits, size) == rx
  {
  }

  lemma FrameFalls(bits: seq<bool>, idle: nat, m: Mod)
    requires bits != [] && bits[0]
    ensures Falls(false, idle, FrameWave(bits, m))
         == [idle + T0 * LeadIn(m) + Unit(m)]
            + (if Anticollision(m) then FallsFirst(bits[1..], m) else FallsMid(bits[1..], m))
  {
    hide Falls, Wave;
    var lead, body := Hold(true, T0 * LeadIn(m)), Wave(bits, m) + END;
    assert FrameWave(bits, m) == [lead] + body;
    FallsStep(false, idle, lead, body);
    var since := idle + lead.ticks;
    RisesInto(since, bits, m);
    if Anticollision(m) {
      AnticollisionBit(since, bits, m);
    } else {
      ManchesterBit(false, since, bits, m);
    }
  }

  /** A wave that starts high falls at the same times whether the line was high or low before it. */
  lemma RisesInto(since: nat, bits: seq<bool>, m: Mod)
    requires bits != [] && bits[0]
    ensures Falls(true, since, Wave(bits, m) + END) == Falls(false, since, Wave(bits, m) + END)
  {
  }

  /**
    For every modulation and every non-empty frame that fits the buffer, the receiver recovers the frame
    from the sender's waveform, each time between edges being off by up to the tolerance.  With a
    four-bit SOF it keeps the last SOF bit and so never delivers the frame itself.
   */
  lemma TagToReader(frame: seq<bool>, idle: nat, edges: seq<nat>, m: Mod, sofBits: nat, size: nat)
    requires 1 <= sofBits <= 6 && frame != [] && |frame| + (if sofBits == 4 then 1 else 0) <= 8 * size
    requires
      var exact := Falls(false, idle, FrameWave(Sof(sofBits) + frame, m));
      && |edges| == |exact|
      && (forall i :: 1 <= i < |edges| ==> Near(edges[i], exact[i], m))
      && (edges != [] ==> T0 * T_WAIT_RESP <= edges[0] < T0 * T_PROG_MAX)
    ensures Visible(Run(IDLE, edges, m, sofBits, size), sofBits) == (if sofBits == 4 then [false] else []) + frame
  {
    hide Falls, FrameWave, FallsMid, FallsFirst, Near, Run, Sof, Visible, StepEdge;
    var sent := Sof(sofBits) + frame;
    var rest := sent[1..];
    SofStarts(sofBits, frame);
    FrameFalls(sent, idle, m);
    var falls := if Anticollision(m) then FallsFirst(rest, m) else FallsMid(rest, m);
    LaterEdges(edges, idle + T0 * LeadIn(m) + Unit(m), falls, m);
    FirstEdge(edges, m, sofBits, size);
    var rx := Rx(true, [true], true, true, 0, false);
    if Anticollision(m) {
      FirstRun(rx, rest, edges[1..], m, sofBits, size);
    } else {
      MidRun(rx, rest, edges[1..], m, sofBits, size);
    }
    var r := Run(IDLE, edges, m, sofBits, size);
    assert r.bits == sent;
    StripSent(r, frame, sofBits);
  }

  /**
    What the reader makes of an edge: the first one counts 200 periods or more after the last command; then 25, 41 and
    57 periods are two, three and four halves, and half as many at double speed.  Anything shorter is an error.
   */
  lemma EdgeMeaning(rx: Rx, edge: nat, m: Mod, sofBits: nat)
    ensures !rx.started ==>
      StepEdge(rx, edge, m, sofBits) == if edge >= 2400 then rx.(started := true, bits := [true]) else rx.(errors := rx.errors + 1)
    ensures rx.started && edge < (if m == AC2K || m == MC4K then 300 else 144) ==>
      StepEdge(rx, edge, m, sofBits) == rx.(errors := rx.errors + 1, sofDone := rx.sofDone || |rx.bits| >= sofBits)
    ensures
      var n := if m == AC2K || m == MC4K then edge / 12 else edge / 12 * 2;
      SpanOf(edge / 12, m)
        == if n >= (if m == AC2K || m == MC4K then 57 else 56) then Four
           else if n >= (if m == AC2K || m == MC4K then 41 else 40) then Three
           else if n >= (if m == AC2K || m == MC4K then 25 else 24) then Two else Short
  {
  }

  /**
    An edge more than 80 periods after the one before ends a reception that has begun, one after 750 any; and so do a
    full buffer and more than a hundred errors.
   */
  lemma Timeout(rx: Rx, edge: nat, rest: seq<nat>, m: Mod, sofBits: nat, size: nat)
    requires WellFormed(rx, sofBits)
    ensures Run(rx, [edge] + rest, m, sofBits, size)
         == if edge >= 750 * 12 || (rx.started && edge > 80 * 12) || rx.errors > 100 || |Visible(rx, sofBits)| >= 8 * size
            then rx
            else Run(StepEdge(rx, edge, m, sofBits), rest, m, sofBits, size)
  {
    hide Visible, StepEdge;
    var edges := [edge] + rest;
    assert edges[1..] == rest;
  }

  lemma {:induction false} NoiseIgnored(rx: Rx, edges: seq<nat>, noise: seq<nat>, m: Mod, sofBits: nat, size: nat)
    requires WellFormed(rx, sofBits) && noise != [] && noise[0] > 80 * 12
    requires Run(rx, edges, m, sofBits, size).started
    ensures Run(rx, edges + noise, m, sofBits, size) == Run(rx, edges, m, sofBits, size)
    decreases |edges|
  {
    hide Run, StepEdge, Visible;
    var all := edges + noise;
    if GiveUp(rx, sofBits, size) || (edges != [] && TooLate(rx, edges[0])) {
      Ended(rx, edges, m, sofBits, size);
      Ended(rx, all, m, sofBits, size);
    } else if edges == [] {
      Ended(rx, edges, m, sofBits, size);
      assert all == noise;
      Ended(rx, all, m, sofBits, size);
    } else {
      Unfold(rx, edges, m, sofBits, size);
      Unfold(rx, all, m, sofBits, size);
      StepIs(rx, edges[0], m, sofBits);
      assert all[1..] == edges[1..] + noise;
      NoiseIgnored(StepEdge(rx, edges[0], m, sofBits), edges[1..], noise, m, sofBits, size);
    }
  }

  /** Whatever is on the line behind a frame, 80 periods after its last edge, is not taken for a part of it. */
  lemma FrameThenNoise(frame: seq<bool>, idle: nat, edges: seq<nat>, noise: seq<nat>, m: Mod, sofBits: nat, size: nat)
    requires 1 <= sofBits <= 6 && frame != [] && |frame| + (if sofBits == 4 then 1 else 0) <= 8 * size
    requires
      var exact := Falls(false, idle, FrameWave(Sof(sofBits) + frame, m));
      && |edges| == |exact|
      && (forall i :: 1 <= i < |edges| ==> Near(edges[i], exact[i], m))
      && (edges != [] ==> T0 * T_WAIT_RESP <= edges[0] < T0 * T_PROG_MAX)
    requires noise != [] && noise[0] > 80 * 12
    ensures Visible(Run(IDLE, edges + noise, m, sofBits, size), sofBits) == (if sofBits == 4 then [false] else []) + frame
  {
    hide Falls, FrameWave, Near, Run, Sof, StepEdge;
    TagToReader(frame, idle, edges, m, sofBits, size);
    assert Run(IDLE, edges, m, sofBits, size).started;
    NoiseIgnored(IDLE, edges, noise, m, sofBits, size);
  }

  lemma SofStarts(sofBits: nat, frame: seq<bool>)
    requires 1 <= sofBits && frame != []
    ensures var sent := Sof(sofBits) + frame; sent[0] && sent == [true] + sent[1..] && |sent| > sofBits
  {
  }

  lemma LaterEdges(edges: seq<nat>, first: nat, falls: seq<nat>, m: Mod)
    requires |edges| == 1 + |falls| && forall i :: 1 <= i < |edges| ==> Near(edges[i], ([first] + falls)[i], m)
    ensures Jittered(edges[1..], falls, m)
  {
    hide Near;
    forall i | 0 <= i < |falls| ensures Near(edges[1..][i], falls[i], m) {
      assert Near(edges[i + 1], ([first] + falls)[i + 1], m);
    }
  }

  lemma FirstEdge(edges: seq<nat>, m: Mod, sofBits: nat, size: nat)
    requires edges != [] && T0 * T_WAIT_RESP <= edges[0] < T0 * T_PROG_MAX && 1 <= sofBits && size > 0
    ensures Run(IDLE, edges, m, sofBits, size)
         == Run(Rx(true, [true], true, true, 0, false), edges[1..], m, sofBits, size)
  {
    hide Run;
    Unfold(IDLE, edges, m, sofBits, size);
  }

  lemma StripSent(r: Rx, frame: seq<bool>, sofBits: nat)
    requires WellFormed(r, sofBits) && r.bits == Sof(sofBits) + frame && r.sofDone && 1 <= sofBits <= 6
    ensures Visible(r, sofBits) == (if sofBits == 4 then [false] else []) + frame
  {
    var sent := r.bits;
    if sofBits == 4 {
      assert sent[..4] == Sof(4) && Sof(4)[3] != Ones(4)[3];
      assert sent[3..] == [false] + frame;
    } else {
      assert sent[sofBits..] == frame;
    }
  }

  // ---------------------------------------------------------------------------
  // Reader to tag
  // ---------------------------------------------------------------------------

  /** The tag's receiver: `stale` says that a 1 taken back by a code violation is still in the buffer. */
  datatype TagRx = TagRx(bits: seq<bool>, stale: bool)

  function AddTagBit(rx: TagRx, bit: bool): TagRx {
    if rx.bits == [] then TagRx([bit || rx.stale], false) else rx.(bits := rx.bits + [bit])
  }

  predicate EndsReception(rx: TagRx, rb: nat) { rb >= T_STOP && |rx.bits| > 1 }

  function TagStep(rx: TagRx, rb: nat): TagRx {
    if rb >= T_STOP then TagRx([], rx.stale || (rx.bits != [] && rx.bits[0]))
    else if rb >= T_1_MIN then AddTagBit(rx, true)
    else if rb >= T_0_MIN then AddTagBit(rx, false)
    else rx
  }

  /** Reception over the falling edges, `overflow` periods having passed before the first is timed. */
  function TagRun(rx: TagRx, edges: seq<nat>, overflow: nat): TagRx
    decreases |edges|
  {
    if edges == [] || edges[0] >= T0 * T_EOF then rx
    else
      var rb := edges[0] / T0 + overflow;
      if EndsReception(rx, rb) then rx else TagRun(TagStep(rx, rb), edges[1..], 0)
  }

  const TAG_IDLE: TagRx := TagRx([], false)

  ghost predicate HoldsTagBits(data: seq<byte>, rx: TagRx) {
    |rx.bits| <= 8 * |data| &&
    forall j :: 0 <= j < 8 * |data| ==>
      (TestBitMsb(data, j) <==> if j == 0 && rx.bits == [] then rx.stale else j < |rx.bits| && rx.bits[j])
  }

  /** The tag's receive loop, which never looks at the size of its buffer; it stays inside when the frame fits there. */
  method TagReceiveFrame(rx: array<byte>, edges: seq<nat>, overflow: nat) returns (rxlen: nat)
    requires 0 < rx.Length && |TagRun(TAG_IDLE, edges, overflow).bits| <= 8 * rx.Length
    requires forall k :: 0 <= k < rx.Length ==> rx[k] == 0
    modifies rx
    ensures rxlen <= 8 * rx.Length && BitsIn(rx[..], rxlen) == TagRun(TAG_IDLE, edges, overflow).bits
  {
    hide TestBitMsb, SetBit, TagRun;
    ZeroBytesClear(rx[..]);
    rxlen := 0;
    var k, over := 0, overflow;
    ghost var g := TAG_IDLE;
    assert edges[0..] == edges;
    while k < |edges| && edges[k] < T0 * T_EOF
      invariant k <= |edges| && rxlen == |g.bits| && HoldsTagBits(rx[..], g)
      invariant g.bits != [] ==> !g.stale
      invariant TagRun(TAG_IDLE, edges, overflow) == TagRun(g, edges[k..], over)
    {
      var rb := edges[k] / T0 + over;
      UnfoldTag(g, edges[k..], over);
      assert edges[k..][1..] == edges[k + 1..];
      over := 0;
      if !EndsReception(g, rb) { TagRunGrows(TagStep(g, rb), edges[k + 1..], 0); }
      if rb >= T_STOP {
        if rxlen != 0 && rxlen != 1 {
          break;
        }
        rxlen := 0;
      } else if rb >= T_1_MIN {
        SetOneBit(rx[..], rxlen);
        ghost var before := rx[..];
        rx[rxlen / 8] := SetBit(rx[rxlen / 8], rxlen % 8);
        assert rx[..] == before[rxlen / 8 := SetBit(before[rxlen / 8], rxlen % 8)];
        rxlen := rxlen + 1;
      } else if rb >= T_0_MIN {
        rxlen := rxlen + 1;
      }
      g := TagStep(g, rb);
      k := k + 1;
    }
    UnfoldTag(g, edges[k..], over);
    assert BitsIn(rx[..], rxlen) == g.bits;
  }

  /** From the second bit on, edges only add bits. */
  lemma {:induction false} TagRunGrows(rx: TagRx, edges: seq<nat>, overflow: nat)
    ensures |rx.bits| <= 1 || |rx.bits| <= |TagRun(rx, edges, overflow).bits|
    decreases |edges|
  {
    UnfoldTag(rx, edges, overflow);
    if |rx.bits| > 1 && edges != [] && edges[0] < T0 * T_EOF && !EndsReception(rx, edges[0] / T0 + overflow) {
      TagRunGrows(TagStep(rx, edges[0] / T0 + overflow), edges[1..], 0);
    }
  }

  lemma UnfoldTag(rx: TagRx, edges: seq<nat>, overflow: nat)
    ensures TagRun(rx, edges, overflow) ==
      if edges == [] || edges[0] >= T0 * T_EOF || EndsReception(rx, edges[0] / T0 + overflow) then rx
      else TagRun(TagStep(rx, edges[0] / T0 + overflow), edges[1..], 0)
  {
  }

  /** The exact times between falls of a pulse-coded bit sequence. */
  function Durations(bits: seq<bool>): (d: seq<nat>)
    ensures |d| == |bits|
  {
    seq(|bits|, i requires 0 <= i < |bits| => T0 * (if bits[i] then T_1 else T_0))
  }

  lemma PulseFalls(since: nat, pause: nat, rest: seq<Hold>)
    ensures Falls(false, since, [Hold(true, T0 * T_LOW), Hold(false, pause)] + rest)
         == [since + T0 * T_LOW] + Falls(false, pause, rest)
  {
    FallsPair(false, since, Hold(true, T0 * T_LOW), Hold(false, pause), rest);
  }

  lemma {:induction false} PulsesHead(bits: seq<bool>)
    requires bits != []
    ensures Pulses(bits) == ReaderBit(bits[0]) + Pulses(bits[1..])
  {
    hide ReaderBit;
    var n := |bits| - 1;
    if n > 0 {
      PulsesHead(bits[..n]);
      assert bits[..n][1..] == bits[1..][..n - 1];
      var a, b, c := ReaderBit(bits[0]), Pulses(bits[1..][..n - 1]), ReaderBit(bits[n]);
      assert a + b + c == a + (b + c);
    } else {
      assert Pulses(bits[..0]) == [] && Pulses(bits[1..]) == [];
    }
  }

  const EOF: seq<Hold> := [Hold(true, T0 * T_LOW), Hold(false, 0)]

  /** The falls of coded bits and the end pulse, the line having been low for `since` ticks. */
  lemma {:induction false} BitFalls(since: nat, bits: seq<bool>)
    ensures Falls(false, since, Pulses(bits) + EOF) == [since + T0 * T_LOW] + Durations(bits)
    decreases |bits|
  {
    hide Falls, Pulses;
    if bits == [] {
      PulseFalls(since, 0, []);
      assert Pulses(bits) + EOF == EOF + [] by { PulsesNone(); }
      assert Falls(false, 0, []) == [] by { FallsNone(); }
    } else {
      PulsesHead(bits);
      var pause := T0 * ((if bits[0] then T_1 else T_0) - T_LOW);
      assert Pulses(bits) + EOF == ReaderBit(bits[0]) + (Pulses(bits[1..]) + EOF);
      PulseFalls(since, pause, Pulses(bits[1..]) + EOF);
      BitFalls(pause, bits[1..]);
      assert Durations(bits) == [pause + T0 * T_LOW] + Durations(bits[1..]);
    }
  }

  lemma PulsesNone()
    ensures Pulses([]) == []
  {
  }

  lemma ReaderFalls(idle: nat, bits: seq<bool>, sendSof: bool)
    ensures Falls(false, idle, ReaderWave(bits, sendSof)) ==
      [idle + T0 * T_LOW] + (if sendSof then [T0 * T_0, T0 * T_CODE_VIOLATION] else []) + Durations(bits)
  {
    hide Falls, Pulses, Durations;
    if sendSof {
      var gap := T0 * (T_CODE_VIOLATION - T_LOW);
      var violation, rest := [Hold(true, T0 * T_LOW), Hold(false, gap)], Pulses(bits) + EOF;
      assert ReaderWave(bits, sendSof) == ReaderBit(false) + (violation + rest);
      PulseFalls(idle, T0 * (T_0 - T_LOW), violation + rest);
      PulseFalls(T0 * (T_0 - T_LOW), gap, rest);
      BitFalls(gap, bits);
    } else {
      assert ReaderWave(bits, sendSof) == Pulses(bits) + EOF;
      BitFalls(idle, bits);
    }
  }

  /** A measured bit duration: at most 36 ticks short and 59 ticks long. */
  predicate NearBit(edge: nat, exact: nat) { exact <= edge + 36 && edge <= exact + 59 }

  lemma {:induction false} BitsReceived(rx: TagRx, bits: seq<bool>, edges: seq<nat>)
    requires !rx.stale && |edges| == |bits|
    requires forall i :: 0 <= i < |edges| ==> NearBit(edges[i], Durations(bits)[i])
    ensures TagRun(rx, edges, 0) == TagRx(rx.bits + bits, false)
    decreases |bits|
  {
    hide TagRun, NearBit;
    UnfoldTag(rx, edges, 0);
    if bits == [] {
      assert rx.bits + bits == rx.bits;
    } else {
      assert NearBit(edges[0], Durations(bits)[0]);
      OneDuration(rx, bits[0], edges[0]);
      forall i | 0 <= i < |edges| - 1 ensures NearBit(edges[1..][i], Durations(bits[1..])[i]) {
        assert NearBit(edges[i + 1], Durations(bits)[i + 1]);
      }
      BitsReceived(TagStep(rx, edges[0] / T0), bits[1..], edges[1..]);
      assert rx.bits + bits == rx.bits + [bits[0]] + bits[1..];
    }
  }

  lemma OneDuration(rx: TagRx, bit: bool, edge: nat)
    requires !rx.stale && NearBit(edge, T0 * (if bit then T_1 else T_0))
    ensures edge < T0 * T_EOF && !EndsReception(rx, edge / T0)
    ensures TagStep(rx, edge / T0) == TagRx(rx.bits + [bit], false)
  {
  }

  /**
    What the tag makes of an edge, in periods: 80 end the frame; 36 end it too when two bits are there, and start it
    again when not; 25 are a 1, 15 a 0, and fewer nothing.  A 1 that is taken back stays in the buffer, and turns the
    first bit of the next start into a 1.
   */
  lemma TagMeaning(rx: TagRx, edge: nat, overflow: nat, rest: seq<nat>)
    requires rx.bits != [] ==> !rx.stale
    ensures
      var n := edge / 12 + overflow;
      TagRun(rx, [edge] + rest, overflow)
        == if edge >= 960 || (n >= 36 && |rx.bits| >= 2) then rx
           else if n >= 36 then TagRun(TagRx([], rx.stale || rx.bits == [true]), rest, 0)
           else if n >= 25 then TagRun(TagRx(rx.bits + [true], false), rest, 0)
           else if n >= 15 then TagRun(TagRx(rx.bits + [rx.stale], false), rest, 0) else TagRun(rx, rest, 0)
  {
    assert ([edge] + rest)[1..] == rest;
    assert [] + [true] == [true] && [] + [rx.stale] == [rx.stale];
    assert |rx.bits| == 1 ==> rx.bits == [rx.bits[0]];
  }

  /**
    What the tag makes of a frame the reader sends over an idle line, with or without the Hitag µ start of frame.
    The code violation is exactly as long as the stop limit: if it comes out any shorter it is taken for a 1, and the
    two bits of the start of frame stay in front; so the frame is recovered if and only if that does not happen.
   */
  lemma ReaderToTag(frame: seq<bool>, sendSof: bool, idle: nat, edges: seq<nat>, overflow: nat)
    requires
      var exact := Falls(false, idle, ReaderWave(frame, sendSof));
      && |edges| == |exact|
      && (edges != [] ==> edges[0] < T0 * T_EOF && edges[0] / T0 + overflow >= T_STOP)
      && (forall i :: 1 <= i < |edges| ==> NearBit(edges[i], exact[i]))
    ensures sendSof ==> |edges| > 2
    ensures
      var heard := TagRun(TAG_IDLE, edges, overflow).bits;
      && heard == (if sendSof && edges[2] < T0 * T_STOP then [false, true] else []) + frame
      && (heard == frame <==> !sendSof || edges[2] >= T0 * T_STOP)
  {
    hide Falls, TagRun, NearBit;
    var exact := Falls(false, idle, ReaderWave(frame, sendSof));
    ReaderFalls(idle, frame, sendSof);
    UnfoldTag(TAG_IDLE, edges, overflow);
    assert TagRun(TAG_IDLE, edges, overflow) == TagRun(TAG_IDLE, edges[1..], 0);
    var skip := if sendSof then 3 else 1;
    var rx := TAG_IDLE;
    if sendSof {
      assert NearBit(edges[1], exact[1]) && NearBit(edges[2], exact[2]);
      rx := AfterViolation(edges[2]);
      SofHeard(edges);
    }
    forall i | 0 <= i < |frame| ensures NearBit(edges[skip..][i], Durations(frame)[i]) {
      assert NearBit(edges[i + skip], exact[i + skip]);
    }
    BitsReceived(rx, frame, edges[skip..]);
    assert [] + frame == frame;
  }

  /** The receiver behind a code violation of a measured length. */
  function AfterViolation(edge: nat): TagRx {
    if edge < T0 * T_STOP then TagRx([false, true], false) else TAG_IDLE
  }

  lemma SofHeard(edges: seq<nat>)
    requires |edges| > 2 && NearBit(edges[1], T0 * T_0) && NearBit(edges[2], T0 * T_CODE_VIOLATION)
    ensures TagRun(TAG_IDLE, edges[1..], 0) == TagRun(AfterViolation(edges[2]), edges[3..], 0)
  {
    hide TagRun;
    var one := TagRx([false], false);
    OneDuration(TAG_IDLE, false, edges[1]);
    UnfoldTag(TAG_IDLE, edges[1..], 0);
    UnfoldTag(one, edges[2..], 0);
    assert edges[1..][1..] == edges[2..] && edges[2..][1..] == edges[3..];
    assert edges[1..][0] == edges[1] && edges[2..][0] == edges[2];
    assert TAG_IDLE.bits + [false] == [false] && [false] + [true] == [false, true];
    ViolationTimed(edges[2]);
  }

  lemma ViolationTimed(edge: nat)
    requires NearBit(edge, T0 * T_CODE_VIOLATION)
    ensures T0 * T_1_MIN <= edge < T0 * T_EOF
    ensures TagStep(TagRx([false], false), edge / T0) == AfterViolation(edge)
  {
  }
}
