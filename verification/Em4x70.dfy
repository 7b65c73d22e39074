/**
  EM4x70: receiving Manchester bits from the lengths of pulses, with the edge that is timed switching between
  rising and falling.
 */
module Em4x70 {
  import opened Bits

  const TICKS_PER_FC := 12
  const HALF_PERIOD := 16 * TICKS_PER_FC
  const FULL_PERIOD := 32 * TICKS_PER_FC
  const TOLERANCE := 8 * TICKS_PER_FC
  const TIMEOUT := 4 * FULL_PERIOD
  const PULSES_TO_SEARCH := 16

  // ---------------------------------------------------------------------------
  // The line
  // ---------------------------------------------------------------------------

  /** The level of the line and how long it and each of the following, alternating levels hold. */
  datatype Line = Line(high: bool, holds: seq<nat>)

  datatype Pulse = Pulse(ticks: nat, line: Line)

  /**
    The time between two rising or two falling edges: wait for the first edge unless the line is already at the
    level it leads to, then time both levels. 0 when it takes too long; a line that has gone quiet stays quiet.
   */
  function NextPulse(line: Line, rising: bool): Pulse {
    var wait := if line.high != rising && line.holds != [] then line.holds[0] else 0;
    var holds := if line.high != rising && line.holds != [] then line.holds[1..] else line.holds;
    if |holds| < 3 || wait + holds[0] + holds[1] > TIMEOUT then Pulse(0, Line(rising, []))
    else Pulse(holds[0] + holds[1], Line(rising, holds[2..]))
  }

  predicate CheckPulseLength(ticks: nat, target: nat)
    requires target >= TOLERANCE
  {
    target - TOLERANCE <= ticks <= target + TOLERANCE
  }

  // ---------------------------------------------------------------------------
  // The decoder
  // ---------------------------------------------------------------------------

  /** What one pulse says: the bits, and the edge to time next. A falling edge in mid-bit is a 1. */
  datatype Reading = Unclear | Reading(bits: seq<bool>, rising: bool)

  function Read(ticks: nat, rising: bool): Reading {
    if CheckPulseLength(ticks, FULL_PERIOD) then Reading([!rising], rising)
    else if CheckPulseLength(ticks, 3 * HALF_PERIOD) then Reading([rising, rising], !rising)
    else if CheckPulseLength(ticks, 2 * FULL_PERIOD) then Reading([rising, !rising], rising)
    else Unclear
  }

  /**
    What a pulse says, in ticks, twelve a field period: 288 to 480 one bit, up to 672 two equal bits and the other edge
    next, up to 864 two different bits; anything else ends the reception.
   */
  lemma PulseMeaning(ticks: nat, rising: bool)
    ensures Read(ticks, rising)
      == if 288 <= ticks <= 480 then Reading([!rising], rising)
         else if 480 < ticks <= 672 then Reading([rising, rising], !rising)
         else if 672 < ticks <= 864 then Reading([rising, !rising], rising)
         else Unclear
  {
  }

  /** How a pulse is timed: from the first edge of its kind to the next, unless that takes more than four periods. */
  lemma PulseTimed(line: Line, rising: bool)
    ensures
      var h, skip := line.holds, if line.high == rising then 0 else 1;
      NextPulse(line, rising)
        == if |h| < skip + 3 || (if skip == 0 then 0 else h[0]) + h[skip] + h[skip + 1] > 4 * 384
           then Pulse(0, Line(rising, [])) else Pulse(h[skip] + h[skip + 1], Line(rising, h[skip + 2..]))
  {
    if line.high != rising && |line.holds| >= 4 { assert line.holds[1..][2..] == line.holds[3..]; }
  }

  /** At most `limit` bits. */
  function Decode(line: Line, rising: bool, limit: nat): (bits: seq<bool>)
    ensures |bits| <= limit
    decreases limit
  {
    if limit == 0 then []
    else
      var pulse := NextPulse(line, rising);
      match Read(pulse.ticks, rising)
      case Unclear => []
      case Reading(bits, next) =>
        if limit == 1 then bits[..1] else bits + Decode(pulse.line, next, limit - |bits|)
  }

  // ---------------------------------------------------------------------------
  // Manchester code on the line
  // ---------------------------------------------------------------------------

  /**
    The holds behind the mid-bit edge of a bit `last`, when `bits` follow and the line then holds its level for
    `tail`: half a period to the bit boundary if the next bit is the same, none there if it differs.
   */
  function Rest(last: bool, bits: seq<bool>, tail: nat): (h: seq<nat>)
    ensures h != []
    decreases |bits|
  {
    if bits == [] then [tail]
    else if bits[0] == last then [HALF_PERIOD, HALF_PERIOD] + Rest(last, bits[1..], tail)
    else [FULL_PERIOD] + Rest(bits[0], bits[1..], tail)
  }

  /** Every pulse, between rising as between falling edges, is off by less than eight field periods. */
  ghost predicate Near(holds: seq<nat>, exact: seq<nat>) {
    |holds| == |exact|
    && (|holds| >= 2 ==>
          && -TOLERANCE < holds[0] + holds[1] - exact[0] - exact[1] < TOLERANCE
          && Near(holds[1..], exact[1..]))
  }

  lemma NearTail(holds: seq<nat>, exact: seq<nat>, k: nat)
    requires Near(holds, exact) && k <= |holds|
    ensures |exact| == |holds| && Near(holds[k..], exact[k..])
  {
    if k == 0 {
      assert holds[0..] == holds && exact[0..] == exact;
    } else if |holds| >= 2 {
      NearTail(holds[1..], exact[1..], k - 1);
      assert holds[1..][k - 1..] == holds[k..] && exact[1..][k - 1..] == exact[k..];
    }
  }

  /**
    The decoder in step behind bit `last`: it times the edges that stand in mid-bit of `last`, and either the line
    has just made that edge, or it stands at the bit boundary half a period before it.
   */
  ghost predicate InStep(line: Line, last: bool, bits: seq<bool>, tail: nat) {
    if line.high != last then Near(line.holds, Rest(last, bits, tail))
    else line.holds != [] && Near(line.holds, [HALF_PERIOD] + Rest(last, bits, tail))
  }

  lemma RestHead(last: bool, bits: seq<bool>, tail: nat)
    requires bits != []
    ensures Rest(last, bits, tail)
      == (if bits[0] == last then [HALF_PERIOD, HALF_PERIOD] else [FULL_PERIOD]) + Rest(bits[0], bits[1..], tail)
  {
  }

  /** `holds` begins with two levels that last `sum` together, and goes on with `next`. */
  ghost predicate Begins(holds: seq<nat>, sum: nat, next: seq<nat>) {
    |holds| >= 3 && holds[0] + holds[1] == sum && holds[2..] == next
  }

  lemma SameAhead(last: bool, bits: seq<bool>, tail: nat)
    requires bits != [] && bits[0] == last
    ensures Begins(Rest(last, bits, tail), FULL_PERIOD, Rest(last, bits[1..], tail))
  {
    RestHead(last, bits, tail);
    hide Rest;
  }

  lemma DoubleAhead(last: bool, bits: seq<bool>, tail: nat)
    requires |bits| >= 2 && bits[0] == bits[1] == !last
    ensures Begins(Rest(last, bits, tail), 3 * HALF_PERIOD, [HALF_PERIOD] + Rest(!last, bits[2..], tail))
  {
    RestHead(last, bits, tail);
    RestHead(!last, bits[1..], tail);
    assert bits[1..][1..] == bits[2..];
    var rest := Rest(!last, bits[2..], tail);
    hide Rest;
    assert [FULL_PERIOD] + ([HALF_PERIOD, HALF_PERIOD] + rest) == [FULL_PERIOD, HALF_PERIOD] + ([HALF_PERIOD] + rest);
  }

  lemma AlternateAhead(last: bool, bits: seq<bool>, tail: nat)
    requires |bits| >= 2 && bits[0] == !last && bits[1] == last
    ensures Begins(Rest(last, bits, tail), 2 * FULL_PERIOD, Rest(last, bits[2..], tail))
  {
    RestHead(last, bits, tail);
    RestHead(!last, bits[1..], tail);
    assert bits[1..][1..] == bits[2..];
    var rest := Rest(last, bits[2..], tail);
    hide Rest;
    assert [FULL_PERIOD] + ([FULL_PERIOD] + rest) == [FULL_PERIOD, FULL_PERIOD] + rest;
  }

  lemma NearPulse(holds: seq<nat>, exact: seq<nat>, sum: nat, next: seq<nat>)
    requires Near(holds, exact) && Begins(exact, sum, next)
    ensures |holds| >= 3 && -TOLERANCE < holds[0] + holds[1] - sum < TOLERANCE && Near(holds[2..], next)
  {
    NearTail(holds, exact, 2);
  }

  /** A pulse over the first two levels tells the first one or two of `bits` and leaves a decoder in step. */
  ghost predicate Tells(holds: seq<nat>, last: bool, bits: seq<bool>, tail: nat) {
    |holds| >= 3 && holds[0] + holds[1] < 2 * FULL_PERIOD + TOLERANCE
    && match Read(holds[0] + holds[1], !last)
       case Unclear => false
       case Reading(read, next) =>
         && 0 < |read| <= 2 && read <= bits
         && InStep(Line(!last, holds[2..]), !next, bits[|read|..], tail)
  }

  /** A pulse timed from the mid-bit edge of `last`. */
  lemma ReadsBits(holds: seq<nat>, last: bool, bits: seq<bool>, tail: nat)
    requires Near(holds, Rest(last, bits, tail)) && |bits| >= 2
    ensures Tells(holds, last, bits, tail)
  {
    var exact := Rest(last, bits, tail);
    if bits[0] == last {
      SameAhead(last, bits, tail);
      NearPulse(holds, exact, FULL_PERIOD, Rest(last, bits[1..], tail));
    } else if bits[1] == bits[0] {
      DoubleAhead(last, bits, tail);
      NearPulse(holds, exact, 3 * HALF_PERIOD, [HALF_PERIOD] + Rest(!last, bits[2..], tail));
      hide Rest, Near;
    } else {
      AlternateAhead(last, bits, tail);
      NearPulse(holds, exact, 2 * FULL_PERIOD, Rest(last, bits[2..], tail));
    }
  }

  /** What is timed: everything, or everything behind the wait for the first edge. */
  function Timed(line: Line, rising: bool): seq<nat> {
    if line.high != rising && line.holds != [] then line.holds[1..] else line.holds
  }

  /** One pulse of a decoder in step. */
  lemma PulseInStep(line: Line, last: bool, bits: seq<bool>, tail: nat)
    requires InStep(line, last, bits, tail) && |bits| >= 2
    ensures
      var h := Timed(line, !last);
      Tells(h, last, bits, tail) && NextPulse(line, !last) == Pulse(h[0] + h[1], Line(!last, h[2..]))
  {
    var rest := Rest(last, bits, tail);
    hide Tells;
    if line.high != last {
      ReadsBits(line.holds, last, bits, tail);
      assert Bounded(line.holds) by { TellsBounded(line.holds, last, bits, tail); }
    } else {
      var h := line.holds;
      assert ([HALF_PERIOD] + rest)[1..] == rest;
      NearTail(h, [HALF_PERIOD] + rest, 1);
      ReadsBits(h[1..], last, bits, tail);
      TellsBounded(h[1..], last, bits, tail);
      assert -TOLERANCE < h[0] + h[1] - HALF_PERIOD - rest[0] < TOLERANCE;
      assert rest[0] <= FULL_PERIOD;
      hide Rest, InStep, Near;
      assert h[1..][0] == h[1] && h[1..][1] == h[2];
    }
  }

  predicate Bounded(holds: seq<nat>) { |holds| >= 3 && holds[0] + holds[1] < 2 * FULL_PERIOD + TOLERANCE }

  lemma TellsBounded(holds: seq<nat>, last: bool, bits: seq<bool>, tail: nat)
    requires Tells(holds, last, bits, tail)
    ensures Bounded(holds)
  {
    hide Read, InStep;
  }

  /** The decoder returns the bits that were sent, also when the pulse that ends at the limit stands for two. */
  lemma {:induction false} BitsDecoded(line: Line, last: bool, bits: seq<bool>, tail: nat, limit: nat)
    requires InStep(line, last, bits, tail) && |bits| >= limit + 1
    ensures Decode(line, !last, limit) == bits[..limit]
    decreases limit
  {
    if limit > 0 {
      hide InStep, Read, NextPulse, Decode;
      PulseTold(line, last, bits, tail);
      DecodeStep(line, !last, limit);
      var pulse := NextPulse(line, !last);
      var r := Read(pulse.ticks, !last);
      var rest := if limit == 1 then [] else Decode(pulse.line, r.rising, limit - |r.bits|);
      if limit > 1 {
        BitsDecoded(pulse.line, !r.rising, bits[|r.bits|..], tail, limit - |r.bits|);
      }
      TakeFirst(bits, r.bits, limit, rest, Decode(line, !last, limit));
    }
  }

  lemma PulseTold(line: Line, last: bool, bits: seq<bool>, tail: nat)
    requires InStep(line, last, bits, tail) && |bits| >= 2
    ensures
      var pulse := NextPulse(line, !last);
      var r := Read(pulse.ticks, !last);
      r.Reading? && 0 < |r.bits| <= 2 && r.bits <= bits && InStep(pulse.line, !r.rising, bits[|r.bits|..], tail)
  {
    PulseInStep(line, last, bits, tail);
    hide InStep, Read, NextPulse, Timed;
  }

  lemma TakeFirst(s: seq<bool>, first: seq<bool>, n: nat, rest: seq<bool>, whole: seq<bool>)
    requires first <= s && 0 < |first| <= 2 && 0 < n <= |s|
    requires n > 1 ==> rest == s[|first|..][..n - |first|]
    requires whole == if n == 1 then first[..1] else first + rest
    ensures whole == s[..n]
  {
  }

  // ---------------------------------------------------------------------------
  // The header: ones and then four zeros
  // ---------------------------------------------------------------------------

  /** Rising pulses until one lasts a period and a half, at most `tries` of them. */
  function FindTransition(line: Line, tries: nat): Option<Line>
    decreases tries
  {
    if tries == 0 then None
    else
      var pulse := NextPulse(line, true);
      if CheckPulseLength(pulse.ticks, 3 * HALF_PERIOD) then Some(pulse.line) else FindTransition(pulse.line, tries - 1)
  }

  function SkipZeros(line: Line, n: nat): Option<Line>
    decreases n
  {
    if n == 0 then Some(line)
    else
      var pulse := NextPulse(line, true);
      if CheckPulseLength(pulse.ticks, FULL_PERIOD) then SkipZeros(pulse.line, n - 1) else None
  }

  function Received(line: Line, limit: nat): seq<bool> {
    match FindTransition(line, PULSES_TO_SEARCH)
    case None => []
    case Some(l) => match SkipZeros(l, 3) case None => [] case Some(data) => Decode(data, true, limit)
  }

  /** The holds from the start of a 1 with `ones` more ones behind it, then four zeros and the data. */
  function HeaderHolds(ones: nat, data: seq<bool>, tail: nat): seq<nat> {
    if ones == 0 then [HALF_PERIOD, FULL_PERIOD] + Rest(false, [false, false, false] + data, tail)
    else [HALF_PERIOD, HALF_PERIOD] + HeaderHolds(ones - 1, data, tail)
  }

  lemma OnesAhead(ones: nat, data: seq<bool>, tail: nat)
    ensures
      if ones == 0 then
        Begins(HeaderHolds(ones, data, tail), 3 * HALF_PERIOD, Rest(false, [false, false, false] + data, tail))
      else Begins(HeaderHolds(ones, data, tail), FULL_PERIOD, HeaderHolds(ones - 1, data, tail))
    ensures HeaderHolds(ones, data, tail)[0] == HALF_PERIOD
  {
    hide Rest;
  }

  /** From the start of a 1 the search counts the ones off and stops in mid-bit of the first 0. */
  lemma {:induction false} TransitionFound(line: Line, ones: nat, data: seq<bool>, tail: nat, tries: nat)
    requires line.high && Near(line.holds, HeaderHolds(ones, data, tail)) && ones < tries
    ensures
      var found := FindTransition(line, tries);
      found.Some? && found.value.high && Near(found.value.holds, Rest(false, [false, false, false] + data, tail))
    decreases ones
  {
    OnesAhead(ones, data, tail);
    hide Near, Rest, HeaderHolds;
    if ones == 0 {
      NearPulse(line.holds, HeaderHolds(0, data, tail), 3 * HALF_PERIOD, Rest(false, [false, false, false] + data, tail));
    } else {
      NearPulse(line.holds, HeaderHolds(ones, data, tail), FULL_PERIOD, HeaderHolds(ones - 1, data, tail));
      TransitionFound(NextPulse(line, true).line, ones - 1, data, tail, tries - 1);
    }
  }

  /** The search gives up after its pulses: with as many ones ahead or more it finds nothing. */
  lemma {:induction false} TransitionMissed(line: Line, ones: nat, data: seq<bool>, tail: nat, tries: nat)
    requires line.high && Near(line.holds, HeaderHolds(ones, data, tail)) && ones >= tries
    ensures FindTransition(line, tries) == None
    decreases tries
  {
    if tries > 0 {
      OnesAhead(ones, data, tail);
      NearPulse(line.holds, HeaderHolds(ones, data, tail), FULL_PERIOD, HeaderHolds(ones - 1, data, tail));
      hide Near, Rest, HeaderHolds;
      TransitionMissed(NextPulse(line, true).line, ones - 1, data, tail, tries - 1);
    }
  }

  /** From the start of a 1, reception succeeds with up to 15 more ones ahead, and returns nothing with 16 or more. */
  lemma HeaderWithin(line: Line, ones: nat, data: seq<bool>, tail: nat, limit: nat)
    requires line.high && Near(line.holds, HeaderHolds(ones, data, tail)) && |data| >= limit + 1
    ensures Received(line, limit) == if ones < 16 then data[..limit] else []
  {
    if ones < 16 {
      TransitionFound(line, ones, data, tail, 16);
      var l := FindTransition(line, PULSES_TO_SEARCH).value;
      assert Zeros(3) == [false, false, false];
      ZerosSkipped(l, 3, data, tail);
      BitsDecoded(SkipZeros(l, 3).value, false, data, tail, limit);
    } else {
      TransitionMissed(line, ones, data, tail, 16);
    }
  }

  lemma {:induction false} ZerosSkipped(line: Line, n: nat, data: seq<bool>, tail: nat)
    requires line.high && Near(line.holds, Rest(false, Zeros(n) + data, tail))
    ensures
      var rest := SkipZeros(line, n);
      rest.Some? && rest.value.high && Near(rest.value.holds, Rest(false, data, tail))
    decreases n
  {
    if n == 0 {
      assert Zeros(0) + data == data;
    } else {
      assert (Zeros(n) + data)[1..] == Zeros(n - 1) + data;
      SameAhead(false, Zeros(n) + data, tail);
      NearPulse(line.holds, Rest(false, Zeros(n) + data, tail), FULL_PERIOD, Rest(false, Zeros(n - 1) + data, tail));
      hide Near, Rest;
      ZerosSkipped(NextPulse(line, true).line, n - 1, data, tail);
    }
  }

  /** The holds of a header that reception joins `left` ticks before the end of a half bit. */
  function Joined(high: bool, left: nat, ones: nat, data: seq<bool>, tail: nat): seq<nat> {
    [left] + (if high then [HALF_PERIOD] else []) + HeaderHolds(ones, data, tail)
  }

  /** Wherever in the leading ones reception joins, the search gets into step within two more pulses. */
  lemma TransitionFoundFrom(line: Line, left: nat, ones: nat, data: seq<bool>, tail: nat)
    requires left <= HALF_PERIOD && ones <= 14 && Near(line.holds, Joined(line.high, left, ones, data, tail))
    ensures
      var found := FindTransition(line, PULSES_TO_SEARCH);
      found.Some? && found.value.high && Near(found.value.holds, Rest(false, [false, false, false] + data, tail))
  {
    var exact, header := Joined(line.high, left, ones, data, tail), HeaderHolds(ones, data, tail);
    OnesAhead(ones, data, tail);
    var h := line.holds;
    hide HeaderHolds, Rest;
    if line.high {
      assert exact[2..] == header && exact[0] + exact[1] == left + HALF_PERIOD;
      NearPulse(h, exact, left + HALF_PERIOD, header);
      hide Near;
      TransitionFound(NextPulse(line, true).line, ones, data, tail, PULSES_TO_SEARCH - 1);
    } else {
      assert exact[1..] == header && exact[0] == left;
      NearTail(h, exact, 1);
      assert -TOLERANCE < h[0] + h[1] - left - header[0] < TOLERANCE;
      TransitionFound(Line(true, h[1..]), ones, data, tail, PULSES_TO_SEARCH);
      var sum := if ones == 0 then 3 * HALF_PERIOD else FULL_PERIOD;
      NearPulse(h[1..], header, sum, header[2..]);
      hide Near;
      SameSearch(line, PULSES_TO_SEARCH);
    }
  }

  /** Waiting for the first rising edge does not matter to the search. */
  lemma SameSearch(line: Line, tries: nat)
    requires !line.high && |line.holds| >= 4 && tries > 0
    requires line.holds[0] + line.holds[1] <= FULL_PERIOD + TOLERANCE
    requires line.holds[1] + line.holds[2] <= 3 * HALF_PERIOD + TOLERANCE
    ensures FindTransition(line, tries) == FindTransition(Line(true, line.holds[1..]), tries)
  {
    var h := line.holds;
    assert h[1..][0] == h[1] && h[1..][1] == h[2] && h[1..][2..] == h[3..];
  }

  /**
    Reception that joins anywhere in the last 15 ones of a header returns the first `limit` bits behind it, for
    every limit the data exceeds by a bit, with every pulse off by less than eight field periods.
   */
  lemma HeaderThenData(line: Line, left: nat, ones: nat, data: seq<bool>, tail: nat, limit: nat)
    requires left <= HALF_PERIOD && ones <= 14 && Near(line.holds, Joined(line.high, left, ones, data, tail))
    requires |data| >= limit + 1
    ensures Received(line, limit) == data[..limit]
  {
    TransitionFoundFrom(line, left, ones, data, tail);
    var l := FindTransition(line, PULSES_TO_SEARCH).value;
    assert Zeros(3) == [false, false, false];
    ZerosSkipped(l, 3, data, tail);
    BitsDecoded(SkipZeros(l, 3).value, false, data, tail, limit);
  }

  // ---------------------------------------------------------------------------
  // The receiver
  // ---------------------------------------------------------------------------

  class Antenna {
    var line: Line

    constructor (line: Line)
      ensures this.line == line
    {
      this.line := line;
    }

    method GetPulseLength(rising: bool) returns (pl: nat)
      modifies this
      ensures Pulse(pl, line) == NextPulse(old(line), rising)
    {
      var pulse := NextPulse(line, rising);
      line := pulse.line;
      pl := pulse.ticks;
    }

    /** The search for the transition from ones to zeros. */
    method FindHeader() returns (found: bool)
      modifies this
      ensures (if found then Some(line) else None) == FindTransition(old(line), PULSES_TO_SEARCH)
    {
      found := false;
      for i := 0 to PULSES_TO_SEARCH
        invariant !found && FindTransition(line, PULSES_TO_SEARCH - i) == FindTransition(old(line), PULSES_TO_SEARCH)
      {
        var pl := GetPulseLength(true);
        if CheckPulseLength(pl, 3 * HALF_PERIOD) {
          found := true;
          break;
        }
      }
    }

    method SkipHeaderZeros() returns (ok: bool)
      modifies this
      ensures (if ok then Some(line) else None) == SkipZeros(old(line), 3)
    {
      for i := 0 to 3
        invariant SkipZeros(line, 3 - i) == SkipZeros(old(line), 3)
      {
        var pl := GetPulseLength(true);
        if !CheckPulseLength(pl, FULL_PERIOD) { return false; }
      }
      return true;
    }

    /** `em4x70_receive`: at most `max` bits into `bits`. */
    method Receive(bits: array<bool>, max: nat) returns (n: nat)
      requires max <= bits.Length
      modifies this, bits
      ensures n <= max && bits[..n] == Received(old(line), max)
    {
      var found := FindHeader();
      if !found { return 0; }
      var ok := SkipHeaderZeros();
      if !ok { return 0; }
      n := ReceiveData(bits, max);
    }

    method ReceiveData(bits: array<bool>, max: nat) returns (n: nat)
      requires max <= bits.Length
      modifies this, bits
      ensures n <= max && bits[..n] == Decode(old(line), true, max)
    {
      hide NextPulse, CheckPulseLength, Decode;
      NothingDecoded();
      var rising := true;
      n := 0;
      ghost var all := Decode(line, true, max);
      while n < max
        invariant n <= max && bits[..n] + Decode(line, rising, max - n) == all
        decreases max - n
      {
        ghost var before, left, l := bits[..n], max - n, line;
        var pl := GetPulseLength(rising);
        if CheckPulseLength(pl, FULL_PERIOD) {
          n := Put(bits, n, max, [!rising]);
          Progress(l, rising, left, before, bits[..n], all);
        } else if CheckPulseLength(pl, 3 * HALF_PERIOD) {
          n := Put(bits, n, max, [rising, rising]);
          Progress(l, rising, left, before, bits[..n], all);
          rising := !rising;
        } else if CheckPulseLength(pl, 2 * FULL_PERIOD) {
          n := Put(bits, n, max, [rising, !rising]);
          Progress(l, rising, left, before, bits[..n], all);
        } else {
          DecodeStep(l, rising, left);
          assert before + [] == before;
          break;
        }
      }
    }

    /** Stores the bits of a pulse, the second one only if there is room for it. */
    method Put(bits: array<bool>, n: nat, max: nat, read: seq<bool>) returns (m: nat)
      requires n < max <= bits.Length && 0 < |read| <= 2
      modifies bits
      ensures m <= max && m - n == (if |read| == 2 && n + 1 == max then 1 else |read|)
      ensures bits[..m] == old(bits[..n]) + read[..m - n]
    {
      bits[n] := read[0];
      m := n + 1;
      if |read| > 1 && m < max {
        bits[m] := read[1];
        m := m + 1;
      }
    }
  }

  lemma NothingDecoded()
    ensures forall line, rising :: Decode(line, rising, 0) == []
  {
  }

  /** The part of the answer that is stored grows by what a pulse says. */
  lemma Progress(line: Line, rising: bool, limit: nat, before: seq<bool>, now: seq<bool>, all: seq<bool>)
    requires limit > 0 && before + Decode(line, rising, limit) == all
    requires
      var r := Read(NextPulse(line, rising).ticks, rising);
      r.Reading? && var k := if limit == 1 then 1 else |r.bits|; now == before + r.bits[..k]
    ensures
      var pulse := NextPulse(line, rising);
      var r := Read(pulse.ticks, rising);
      var k := |now| - |before|;
      0 < k <= limit && now + Decode(pulse.line, r.rising, limit - k) == all
  {
    hide NextPulse, CheckPulseLength;
    var pulse := NextPulse(line, rising);
    var r := Read(pulse.ticks, rising);
    DecodeStep(line, rising, limit);
    var k := |now| - |before|;
    var rest := Decode(pulse.line, r.rising, limit - k);
    assert r.bits[..|r.bits|] == r.bits;
    assert before + (r.bits[..k] + rest) == now + rest;
  }

  lemma DecodeStep(line: Line, rising: bool, limit: nat)
    requires limit > 0
    ensures
      var pulse := NextPulse(line, rising);
      Decode(line, rising, limit)
        == match Read(pulse.ticks, rising)
           case Unclear => []
           case Reading(bits, next) => if limit == 1 then bits[..1] else bits + Decode(pulse.line, next, limit - |bits|)
  {
  }

  // ---------------------------------------------------------------------------
  // From bits to bytes
  // ---------------------------------------------------------------------------

  /** Eight bits, the first one most significant. */
  method BitsToByte(bits: seq<bool>, at: nat) returns (b: byte)
    requires at + 8 <= |bits|
    ensures MsbFirst(b) == bits[at..at + 8]
  {
    hide Value;
    var x := 0;
    assert Value(bits[at..at]) == 0 by { NoValue(bits[at..at]); }
    for i := 0 to 8
      invariant x == Value(bits[at..at + i])
    {
      NextValue(bits, at, i);
      x := 2 * x + Bit(bits[at + i]);
    }
    ghost var s := bits[at..at + 8];
    ValueBound(s);
    assert Pow2(8) == 256;
    b := x;
    ByteOfBits(s, b);
  }

  lemma NoValue(s: seq<bool>)
    requires s == []
    ensures Value(s) == 0
  {
  }

  lemma NextValue(bits: seq<bool>, at: nat, i: nat)
    requires at + i < |bits|
    ensures Value(bits[at..at + i + 1]) == 2 * Value(bits[at..at + i]) + Bit(bits[at + i])
  {
    var s := bits[at..at + i + 1];
    assert s[..i] == bits[at..at + i];
  }

  /** `encoded_bit_array_to_bytes`: the first byte received is stored last; bits that fill no byte are dropped. */
  method BitsToBytes(bits: seq<bool>, out: array<byte>)
    requires |bits| / 8 <= out.Length
    modifies out
    ensures
      var n := |bits| / 8;
      && (forall k | 0 <= k < n :: MsbFirst(out[k]) == bits[8 * (n - 1 - k)..8 * (n - k)])
      && out[n..] == old(out[n..])
  {
    hide MsbFirst;
    var n := |bits| / 8;
    for i := 1 to n + 1
      invariant forall k | n - i < k < n :: MsbFirst(out[k]) == bits[8 * (n - 1 - k)..8 * (n - k)]
      invariant out[n..] == old(out[n..])
    {
      out[n - i] := BitsToByte(bits, 8 * (i - 1));
    }
  }
}
