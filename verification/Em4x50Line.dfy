/**
  The EM4x50 tag-to-reader line code.  A simulated tag drives the line cycle by cycle; the reader decodes the
  times between falling edges, in ticks of which a carrier cycle has twelve.
 */
module Em4x50Line {
  import opened Bits
  import opened Waveform
  import opened Em4x50Word

  const CYCLES2TICKS: nat := 12
  const TOLERANCE: nat := 8
  const FULL_PERIOD: nat := 64
  const HALF_PERIOD: nat := 32
  const EOPABORTED: int := -5
  const WORD64: nat := 0x1_0000_0000_0000_0000

  function Level(high: bool, cycles: nat): Hold { Hold(high, cycles * CYCLES2TICKS) }

  // ---------------------------------------------------------------------------
  // The tag
  // ---------------------------------------------------------------------------

  /** `n` carrier cycles at one level. */
  function Cycles(high: bool, n: nat): seq<Hold> {
    if n == 0 then [] else [Level(high, 1)] + Cycles(high, n - 1)
  }

  /** A Manchester bit whose first half lasts `h` of the 64 cycles. */
  function BitWave(bit: bool, h: nat): seq<Hold>
    requires h <= FULL_PERIOD
  {
    [Level(bit, h), Level(!bit, FULL_PERIOD - h)]
  }

  function Wave(bits: seq<bool>, h: nat): seq<Hold>
    requires h <= FULL_PERIOD
  {
    if bits == [] then [] else BitWave(bits[0], h) + Wave(bits[1..], h)
  }

  /** The bits as the simulator drives them: the level changes after cycle 32 is over, the 33rd. */
  function CycleWave(bits: seq<bool>): seq<Hold> {
    if bits == [] then []
    else CycleWave(bits[..|bits| - 1]) + Cycles(bits[|bits| - 1], 33) + Cycles(!bits[|bits| - 1], 31)
  }

  /** A listen window in which the reader asks for nothing. */
  const LISTEN_WINDOW: seq<Hold> :=
    [Level(false, 32), Level(true, 32), Level(false, 128), Level(true, 64), Level(false, 64)]

  lemma {:induction false} CyclesAre(high: bool, n: nat)
    ensures Cycles(high, n) == seq(n, _ => Hold(high, 12))
  {
    if n > 0 {
      CyclesAre(high, n - 1);
      assert seq(n, _ => Hold(high, 12)) == [Hold(high, 12)] + seq(n - 1, _ => Hold(high, 12));
    }
  }

  /** Cycle `t` of bit `i`: twelve ticks at the level of the bit up to cycle 33, at the other level from there on. */
  lemma {:induction false} CycleAt(bits: seq<bool>, i: nat, t: nat)
    requires i < |bits| && t < 64
    ensures |CycleWave(bits)| == 64 * |bits|
    ensures CycleWave(bits)[64 * i + t] == Hold(if t < 33 then bits[i] else !bits[i], 12)
  {
    hide Cycles;
    var n := |bits| - 1;
    CyclesAre(bits[n], 33);
    CyclesAre(!bits[n], 31);
    if n > 0 { CycleAt(bits[..n], if i < n then i else 0, t); }
  }

  class SimLine {
    var wave: seq<Hold>

    constructor ()
      ensures wave == []
    {
      wave := [];
    }

    method SendBit(bit: bool)
      modifies this
      ensures wave == old(wave) + Cycles(bit, 33) + Cycles(!bit, 31)
    {
      var level := bit;
      for t := 0 to FULL_PERIOD
        invariant level == (if t <= 32 then bit else !bit)
        invariant wave == old(wave) + Cycles(bit, if t <= 33 then t else 33) + Cycles(!bit, if t <= 33 then 0 else t - 33)
      {
        CyclesAppend(level, if t < 33 then t else t - 33);
        wave := wave + [Level(level, 1)];
        if t == HALF_PERIOD {
          level := !level;
        }
      }
    }

    method SendByte(b: byte, paritycheck: bool)
      modifies this
      ensures wave == old(wave) + CycleWave(MsbFirst(b) + (if paritycheck then [Parity(MsbFirst(b))] else []))
    {
      hide BitsOf, Shr, Cycles, Parity, MsbFirst, CycleWave;
      ghost var s := MsbFirst(b);
      assert s == BitsOf(b, 8) by { MsbIsBits(b); }
      var parity := 0;
      assert Parity(s[..0]) == false by { EmptyParity(); }
      assert CycleWave(s[..0]) == [] by { NoWave(); }
      for i := 0 to 8
        invariant wave == old(wave) + CycleWave(s[..i]) && parity == Bit(Parity(s[..i]))
      {
        BitTest(b, 8, 7 - i);
        ParityStep(s, i);
        CycleWaveStep(s, i);
        SendBit(Shr(b, 7 - i) % 2 == 1);
        parity := XorLow(parity, Shr(b, 7 - i) % 2);
      }
      assert s[..8] == s;
      if paritycheck {
        CycleWaveJoins(s, [parity == 1]);
        LastBit(parity == 1);
        SendBit(parity == 1);
      } else {
        assert s + [] == s;
      }
    }

    /** Sends a word least significant bit first, with all its parities. */
    method SendWord(word: nat)
      requires word < WORD32
      modifies this
      ensures wave == old(wave) + CycleWave(Encode(BitsUp(word, 32)))
    {
      hide BitsOf, BitsUp, CycleWave, ColumnParities, Cycles, RowsUpTo;
      ghost var d := BitsUp(word, 32);
      var msb := Reflect32(word);
      SendRows(msb);
      var cparity := CalculateColumns(msb, d);
      ColumnByte(d);
      SendByte(cparity, false);
      CycleWaveJoins(RowsUpTo(d, 4), ColumnParities(d));
      SendBit(false);
      CycleWaveJoins(RowsUpTo(d, 4) + ColumnParities(d), [false]);
      LastBit(false);
      EncodeParts(d);
    }

    method SendRows(msb: nat)
      requires msb < WORD32
      modifies this
      ensures wave == old(wave) + CycleWave(RowsUpTo(BitsOf(msb, 32), 4))
    {
      hide BitsOf, Shr, Parity, MsbFirst, CycleWave, RowBits;
      ghost var d := BitsOf(msb, 32);
      assert CycleWave(RowsUpTo(d, 0)) == [] by { NoWave(); }
      for i := 0 to 4
        invariant wave == old(wave) + CycleWave(RowsUpTo(d, i))
      {
        WordByte(msb, i);
        ghost var b: byte := Shr(msb, (3 - i) * 8) % 256;
        SendByte(Shr(msb, (3 - i) * 8) % 256, true);
        RowIsByte(d, i, b);
        CycleWaveJoins(RowsUpTo(d, i), RowBits(d, i));
      }
    }
  }

  lemma MsbIsBits(b: byte)
    ensures MsbFirst(b) == BitsOf(b, 8)
  {
  }

  lemma CycleWaveStep(s: seq<bool>, i: nat)
    requires i < |s|
    ensures CycleWave(s[..i + 1]) == CycleWave(s[..i]) + Cycles(s[i], 33) + Cycles(!s[i], 31)
  {
    assert s[..i + 1][..i] == s[..i];
  }

  lemma NoWave()
    ensures CycleWave([]) == []
  {
  }

  lemma LastBit(b: bool)
    ensures CycleWave([b]) == Cycles(b, 33) + Cycles(!b, 31)
  {
    assert [b][..0] == [] && CycleWave([]) == [];
  }

  /** `reflect32`: the bits in the opposite order. */
  function Reflect32(x: nat): (r: nat)
    requires x < WORD32
    ensures BitsOf(r, 32) == BitsUp(x, 32) && r == Value(BitsUp(x, 32)) && r < WORD32
  {
    BitsOfValue(BitsUp(x, 32));
    ValueBound(BitsUp(x, 32));
    PowByte(8);
    PowByte(16);
    PowByte(24);
    assert Pow2(8) == 256;
    Value(BitsUp(x, 32))
  }

  lemma RowIsByte(d: seq<bool>, i: nat, b: byte)
    requires |d| == 32 && i < 4 && MsbFirst(b) == d[8 * i..8 * i + 8]
    ensures MsbFirst(b) + [Parity(MsbFirst(b))] == RowBits(d, i)
  {
  }

  lemma ColumnByte(d: seq<bool>)
    requires |d| == 32
    ensures Value(ColumnParities(d)) < 256
    ensures MsbFirst(Value(ColumnParities(d))) + [] == ColumnParities(d)
  {
    var s := ColumnParities(d);
    hide ColumnParities;
    ByteOfBits(s, 0);
  }

  lemma {:induction false} CyclesAppend(high: bool, n: nat)
    ensures Cycles(high, n + 1) == Cycles(high, n) + [Level(high, 1)]
  {
    if n > 0 { CyclesAppend(high, n - 1); }
  }

  lemma {:induction false} CycleWaveJoins(a: seq<bool>, b: seq<bool>)
    ensures CycleWave(a + b) == CycleWave(a) + CycleWave(b)
  {
    hide Cycles;
    if b == [] {
      assert a + b == a;
    } else {
      var n := |b| - 1;
      CycleWaveJoins(a, b[..n]);
      assert (a + b)[..|a + b| - 1] == a + b[..n];
      var x, y, z := CycleWave(a), CycleWave(b[..n]), Cycles(b[n], 33);
      assert x + y + z + Cycles(!b[n], 31) == x + (y + z + Cycles(!b[n], 31));
    }
  }

  /** Consecutive cycles at one level fall at the same times as one long hold. */
  lemma {:induction false} FallsCycles(high: bool, since: nat, level: bool, n: nat, rest: seq<Hold>)
    requires n > 0
    ensures Falls(high, since, Cycles(level, n) + rest) == Falls(high, since, [Level(level, n)] + rest)
    decreases n
  {
    hide Falls;
    var first := Level(level, 1);
    if n > 1 {
      assert Cycles(level, n) + rest == [first] + (Cycles(level, n - 1) + rest);
      FallsStep(high, since, first, Cycles(level, n - 1) + rest);
      FallsStep(high, since, Level(level, n), rest);
      FallsStep(level, since + first.ticks, Level(level, n - 1), rest);
      FallsStep(level, first.ticks, Level(level, n - 1), rest);
      FallsCycles(level, since + first.ticks, level, n - 1, rest);
      FallsCycles(level, first.ticks, level, n - 1, rest);
    } else {
      assert Cycles(level, 1) == [first] + Cycles(level, 0);
      assert Cycles(level, 1) + rest == [Level(level, 1)] + rest;
    }
  }

  lemma {:induction false} CyclesAreBits(high: bool, since: nat, bits: seq<bool>, rest: seq<Hold>)
    ensures Falls(high, since, CycleWave(bits) + rest) == Falls(high, since, Wave(bits, 33) + rest)
    decreases |bits|, 0
  {
    hide Falls, Cycles;
    if bits == [] {
      assert CycleWave(bits) + rest == Wave(bits, 33) + rest;
    } else {
      var b, later := bits[0], bits[1..];
      CycleWaveJoins([b], later);
      LastBit(b);
      assert bits == [b] + later;
      var x, y := CycleWave(later) + rest, Wave(later, 33) + rest;
      assert CycleWave(bits) + rest == Cycles(b, 33) + (Cycles(!b, 31) + x);
      assert Wave(bits, 33) + rest == [Level(b, 33)] + ([Level(!b, 31)] + y);
      FallsCycles(high, since, b, 33, Cycles(!b, 31) + x);
      OneHold(high, since, Level(b, 33), !b, x, y, later, rest);
    }
  }

  lemma {:induction false} OneHold(high: bool, since: nat, first: Hold, level: bool, x: seq<Hold>, y: seq<Hold>,
                                   later: seq<bool>, rest: seq<Hold>)
    requires x == CycleWave(later) + rest && y == Wave(later, 33) + rest
    ensures Falls(high, since, [first] + (Cycles(level, 31) + x)) == Falls(high, since, [first] + ([Level(level, 31)] + y))
    decreases |later|, 2
  {
    hide Falls, Cycles;
    FallsStep(high, since, first, Cycles(level, 31) + x);
    FallsStep(high, since, first, [Level(level, 31)] + y);
    SecondHold(first.high, first.ticks, level, x, y, later, rest);
    SecondHold(first.high, since + first.ticks, level, x, y, later, rest);
  }

  lemma {:induction false} SecondHold(high: bool, since: nat, level: bool, x: seq<Hold>, y: seq<Hold>,
                                      later: seq<bool>, rest: seq<Hold>)
    requires x == CycleWave(later) + rest && y == Wave(later, 33) + rest
    ensures Falls(high, since, Cycles(level, 31) + x) == Falls(high, since, [Level(level, 31)] + y)
    decreases |later|, 1
  {
    hide Falls, Cycles;
    var hold := Level(level, 31);
    FallsCycles(high, since, level, 31, x);
    FallsStep(high, since, hold, x);
    FallsStep(high, since, hold, y);
    CyclesAreBits(level, hold.ticks, later, rest);
    CyclesAreBits(level, since + hold.ticks, later, rest);
  }

  // ---------------------------------------------------------------------------
  // The reader
  // ---------------------------------------------------------------------------

  /** `check_pulse_length`: within eight cycles of `length` cycles, both ends included. */
  predicate CheckPulse(pl: nat, length: nat)
    requires length >= TOLERANCE
  {
    (length - TOLERANCE) * CYCLES2TICKS <= pl <= (length + TOLERANCE) * CYCLES2TICKS
  }

  /** The bits decoded so far, and whether the last fall was at the start of a 0 still to be counted. */
  datatype Rx = Rx(bits: seq<bool>, change: bool)

  function First(pl: nat): (rx: Rx)
    ensures rx.bits != []
  {
    if CheckPulse(pl, 96) then Rx([true], false)
    else if CheckPulse(pl, 128) then Rx([false], true)
    else Rx([false, true], false)
  }

  function Step(rx: Rx, pl: nat): (r: Rx)
    requires rx.bits != []
    ensures r.bits != []
  {
    var last := rx.bits[|rx.bits| - 1];
    if CheckPulse(pl, 64) then rx.(bits := rx.bits + [last])
    else if CheckPulse(pl, 96) then
      if rx.change then Rx(rx.bits + [last, !last], false) else Rx(rx.bits + [!last], true)
    else if CheckPulse(pl, 128) then rx.(bits := rx.bits + [false, true])
    else rx.(bits := rx.bits + [false])
  }

  /** The word between two listen windows: what was decoded before a pulse of three periods, less one bit. */
  function Run(rx: Rx, pulses: seq<nat>): (word: seq<seq<bool>>)
    requires rx.bits != []
    ensures |word| <= 1
    decreases |pulses|
  {
    if pulses == [] then []
    else if CheckPulse(pulses[0], 192) then [rx.bits[..|rx.bits| - 1]]
    else Run(Step(rx, pulses[0]), pulses[1..])
  }

  function Decode(pulses: seq<nat>): seq<seq<bool>> {
    if pulses == [] then [] else Run(First(pulses[0]), pulses[1..])
  }

  /** How a word starts, by the ticks of the pulse that ends in it: 1.5 or 2 periods, or anything else. */
  lemma FirstMeaning(pl: nat, rest: seq<nat>)
    ensures Decode([pl] + rest)
      == Run(if 1056 <= pl <= 1248 then Rx([true], false)
             else if 1440 <= pl <= 1632 then Rx([false], true)
             else Rx([false, true], false), rest)
  {
    assert ([pl] + rest)[1..] == rest;
  }

  /** What a pulse inside a word means, by its ticks: 1, 1.5, 2 or 3 periods, or a 0 when it is none of them. */
  lemma PulseMeaning(bits: seq<bool>, b: bool, change: bool, pl: nat, rest: seq<nat>)
    ensures Run(Rx(bits + [b], change), [pl] + rest)
      == if 672 <= pl <= 864 then Run(Rx(bits + [b, b], change), rest)
         else if 1056 <= pl <= 1248 && change then Run(Rx(bits + [b, b, !b], false), rest)
         else if 1056 <= pl <= 1248 then Run(Rx(bits + [b, !b], true), rest)
         else if 1440 <= pl <= 1632 then Run(Rx(bits + [b, false, true], change), rest)
         else if 2208 <= pl <= 2400 then [bits]
         else Run(Rx(bits + [b, false], change), rest)
  {
    var s := bits + [b];
    assert ([pl] + rest)[1..] == rest && s[..|s| - 1] == bits && s[|s| - 1] == b;
    assert s + [b] == bits + [b, b] && s + [!b] == bits + [b, !b] && s + [b, !b] == bits + [b, b, !b];
    assert s + [false, true] == bits + [b, false, true] && s + [false] == bits + [b, false];
  }

  /** The `n` last of the bits, zeros in front if there are fewer. */
  function Low(bits: seq<bool>, n: nat): (w: seq<bool>)
    ensures |w| == n
  {
    (Zeros(n) + bits)[|bits|..]
  }

  /** Decodes one word; `pulses` ends where the button is pressed. */
  method GetWordFromBitstream(pulses: seq<nat>) returns (res: int, data: nat)
    ensures Decode(pulses) == [] ==> res == -5 && data == 0
    ensures Decode(pulses) != [] ==>
      var bits := Decode(pulses)[0];
      res == (if Accepts(Low(bits, 45)) then |bits| else 0) && data == Value(DataOf(Low(bits, 45)))
  {
    hide Value, Accepts, DataOf;
    data := 0;
    if pulses == [] {
      return EOPABORTED, 0;
    }
    var bitchange, cnt, word := false, 0, 0;
    var pl := pulses[0];
    if CheckPulse(pl, 96) {
      word := 1;
    } else if CheckPulse(pl, 128) {
      bitchange := true;
    } else {
      word := 1;
      cnt := cnt + 1;
    }
    ghost var rx := First(pl);
    FirstValue(pl);
    var k := 1;
    while k < |pulses|
      invariant 1 <= k <= |pulses| && rx.bits != [] && Decode(pulses) == Run(rx, pulses[k..])
      invariant bitchange == rx.change && cnt == |rx.bits| - 1 && word == Value(rx.bits) % WORD64
      invariant data == 0
    {
      pl := pulses[k];
      assert pulses[k..][1..] == pulses[k + 1..];
      if CheckPulse(pl, 192) && !CheckPulse(pl, 64) && !CheckPulse(pl, 96) && !CheckPulse(pl, 128) {
        cnt := cnt + 1;
        word := 2 * word % WORD64;
        AddBit(rx.bits, false);
        word := Shr(word, 2);
        DropTwo(rx.bits, word);
        var ok;
        ok, data := ExtractParities(word);
        return if ok then cnt - 1 else 0, data;
      }
      word, cnt, bitchange := PulseBits(word, cnt, bitchange, pl, rx);
      rx := Step(rx, pl);
      k := k + 1;
    }
    res := EOPABORTED;
  }

  /** Adds the bits a pulse inside the word stands for. */
  method PulseBits(word: nat, cnt: nat, change: bool, pl: nat, ghost rx: Rx)
    returns (word': nat, cnt': nat, change': bool)
    requires rx.bits != [] && change == rx.change && cnt == |rx.bits| - 1 && word == Value(rx.bits) % WORD64
    ensures
      var next := Step(rx, pl);
      change' == next.change && cnt' == |next.bits| - 1 && word' == Value(next.bits) % WORD64
  {
    hide Value;
    var last := word % 2;
    ghost var b, before := rx.bits[|rx.bits| - 1], rx.bits;
    LastIsLow(before);
    change', cnt', word' := change, cnt + 1, 2 * word % WORD64;
    AddBit(before, false);
    AddBit(before, b);
    AddBit(before, !b);
    if CheckPulse(pl, 64) {
      word' := word' + last;
    } else if CheckPulse(pl, 96) {
      if change' {
        word' := word' + last;
        word' := 2 * word' % WORD64 + (1 - last);
        AddBit(before + [b], !b);
        assert before + [b] + [!b] == before + [b, !b];
        cnt' := cnt' + 1;
        change' := false;
      } else {
        word' := word' + (1 - last);
        change' := true;
      }
    } else if CheckPulse(pl, 128) {
      cnt' := cnt' + 1;
      word' := 2 * word' % WORD64 + 1;
      AddBit(before + [false], true);
      assert before + [false] + [true] == before + [false, true];
    }
  }

  lemma FirstValue(pl: nat)
    ensures Value(First(pl).bits) == if CheckPulse(pl, 128) && !CheckPulse(pl, 96) then 0 else 1
  {
    assert [false, true][..1] == [false];
  }

  lemma {:induction false} LastIsLow(bits: seq<bool>)
    requires bits != []
    ensures Value(bits) % WORD64 % 2 == Bit(bits[|bits| - 1])
  {
    var v, b := Value(bits[..|bits| - 1]), Bit(bits[|bits| - 1]);
    LowDigit(2 * v + b, WORD64 / 2);
  }

  lemma LowDigit(x: nat, half: nat)
    requires half > 0
    ensures x % (2 * half) % 2 == x % 2
  {
    HalfOfMod(x, half);
  }

  lemma {:induction false} AddBit(bits: seq<bool>, b: bool)
    ensures Value(bits + [b]) % WORD64 == 2 * (Value(bits) % WORD64) % WORD64 + Bit(b)
  {
    assert (bits + [b])[..|bits|] == bits;
    var v := Value(bits);
    DoubleMod(v, Bit(b));
  }

  lemma DoubleMod(v: nat, b: nat)
    requires b < 2
    ensures (2 * v + b) % WORD64 == 2 * (v % WORD64) % WORD64 + b
  {
  }

  lemma {:induction false} LowValue(s: seq<bool>, n: nat)
    ensures BitsOf(Value(s), n) == Low(s, n)
  {
    if n > 0 {
      if s == [] {
        LowValue(s, n - 1);
        assert Low(s, n) == Low(s, n - 1) + [false];
      } else {
        var t, b := s[..|s| - 1], s[|s| - 1];
        LowValue(t, n - 1);
        assert Value(s) == 2 * Value(t) + Bit(b);
        assert Low(s, n) == Low(t, n - 1) + [b];
      }
    }
  }

  /** `word >>= 2` after a last `word <<= 1` leaves the decoded bits without their last. */
  lemma {:induction false} DropTwo(bits: seq<bool>, word: nat)
    requires bits != [] && word == Shr(Value(bits + [false]) % WORD64, 2)
    ensures BitsOf(word, 45) == Low(bits[..|bits| - 1], 45)
  {
    hide BitsOf, Value, Shr;
    var s := bits + [false];
    var v := Value(s);
    WordSize();
    ShrBits(v % WORD64, 2, 45);
    ModBits(v, 64);
    SuffixBits(v % WORD64, 64, 47);
    SuffixBits(v, 64, 47);
    LowValue(s, 47);
    LowDrops(bits);
  }

  lemma LowDrops(bits: seq<bool>)
    requires bits != []
    ensures Low(bits + [false], 47)[..45] == Low(bits[..|bits| - 1], 45)
  {
    var a, b := Low(bits + [false], 47), Low(bits[..|bits| - 1], 45);
    forall i | 0 <= i < 45 ensures a[..45][i] == b[i] {
      var k := |bits| + 1 + i;
      assert a[i] == (Zeros(47) + (bits + [false]))[k];
      assert b[i] == (Zeros(45) + bits[..|bits| - 1])[k - 2];
    }
  }

  lemma WordSize()
    ensures Pow2(64) == WORD64
  {
    assert Pow2(8) == 256;
    PowByte(8);
    PowByte(16);
    PowByte(24);
    PowByte(32);
    PowByte(40);
    PowByte(48);
    PowByte(56);
  }

  // ---------------------------------------------------------------------------
  // The reader decodes what the tag sends
  // ---------------------------------------------------------------------------

  /** A word between two listen windows, seen from the last fall of the first window. */
  function WordFalls(bits: seq<bool>, h: nat): seq<nat>
    requires h <= FULL_PERIOD
  {
    Falls(false, Ticks(64), Wave(bits, h) + LISTEN_WINDOW)
  }

  function Ticks(cycles: nat): nat { cycles * CYCLES2TICKS }

  /** The falls after one in the middle of a 1. */
  function FallsMid(bits: seq<bool>, h: nat): seq<nat>
    requires h <= FULL_PERIOD
  {
    Falls(false, Ticks(FULL_PERIOD - h), Wave(bits, h) + LISTEN_WINDOW)
  }

  /** The falls after one at the start of a 0, with that 0 and then `bits` to come. */
  function FallsEdge(bits: seq<bool>, h: nat): seq<nat>
    requires h <= FULL_PERIOD
  {
    Falls(true, Ticks(FULL_PERIOD), Wave(bits, h) + LISTEN_WINDOW)
  }

  const TAIL: seq<nat> := [64 * CYCLES2TICKS, 192 * CYCLES2TICKS]

  /** The listen window in ticks, and the times between its falls. */
  lemma WindowFalls(high: bool, since: nat)
    ensures LISTEN_WINDOW == [Hold(false, 384), Hold(true, 384), Hold(false, 1536), Hold(true, 768), Hold(false, 768)]
    ensures Falls(high, since, LISTEN_WINDOW) ==
      (if high then [since] else []) + [if high then Ticks(64) else since + Ticks(64), Ticks(192)]
  {
    hide Falls;
    var a, b, c := Level(false, 32), Level(true, 32), Level(false, 128);
    var d, e := Level(true, 64), Level(false, 64);
    assert LISTEN_WINDOW == [a, b] + ([c, d] + [e]);
    FallsPair(high, since, a, b, [c, d] + [e]);
    assert [c, d] + [e] == [c] + ([d] + ([e] + []));
    assert forall t: nat :: [t] + ([Ticks(192)] + Falls(false, e.ticks, [])) == [t, Ticks(192)] by { NoMoreFalls(e.ticks); }
    FallsStep(true, since + a.ticks + b.ticks, c, [d] + ([e] + []));
    FallsStep(true, a.ticks + b.ticks, c, [d] + ([e] + []));
    FallsStep(false, c.ticks, d, [e] + []);
    FallsStep(true, c.ticks + d.ticks, e, []);
  }

  lemma NoMoreFalls(since: nat)
    ensures Falls(false, since, []) == []
  {
  }

  lemma BitFalls(high: bool, since: nat, bits: seq<bool>, h: nat)
    requires h <= FULL_PERIOD && bits != []
    ensures
      var rest := Wave(bits[1..], h) + LISTEN_WINDOW;
      Falls(high, since, Wave(bits, h) + LISTEN_WINDOW) ==
        if bits[0] then [since + Ticks(h)] + Falls(false, Ticks(FULL_PERIOD - h), rest)
        else if high then [since] + Falls(true, Ticks(FULL_PERIOD), rest)
        else Falls(true, since + Ticks(FULL_PERIOD), rest)
  {
    hide Falls;
    var rest := Wave(bits[1..], h) + LISTEN_WINDOW;
    var a, b := Level(bits[0], h), Level(!bits[0], FULL_PERIOD - h);
    assert Wave(bits, h) + LISTEN_WINDOW == [a, b] + rest by { WaveHead(bits, h); }
    FallsPair(high, since, a, b, rest);
  }

  lemma WaveHead(bits: seq<bool>, h: nat)
    requires h <= FULL_PERIOD && bits != []
    ensures Wave(bits, h) == BitWave(bits[0], h) + Wave(bits[1..], h)
  {
  }

  lemma NoBits(h: nat)
    requires h <= FULL_PERIOD
    ensures Wave([], h) + LISTEN_WINDOW == LISTEN_WINDOW
  {
  }

  /** From a line that has been low: one bit 1 falls in its middle, a 0 needs the bit after it. */
  lemma TwoBitFalls(since: nat, bits: seq<bool>, h: nat)
    requires h <= FULL_PERIOD && bits != []
    ensures Falls(false, since, Wave(bits, h) + LISTEN_WINDOW) ==
      if bits[0] then [since + Ticks(h)] + FallsMid(bits[1..], h)
      else if |bits| == 1 then [since + Ticks(64)] + TAIL
      else if bits[1] then [since + Ticks(64 + h)] + FallsMid(bits[2..], h)
      else [since + Ticks(64)] + FallsEdge(bits[2..], h)
  {
    hide Falls, Wave;
    BitFalls(false, since, bits, h);
    if !bits[0] {
      if |bits| == 1 {
        assert bits[1..] == [];
        NoBits(h);
        WindowFalls(true, since + Ticks(64));
        assert [since + Ticks(64)] + TAIL == [since + Ticks(64)] + [Ticks(64), Ticks(192)];
      } else {
        assert bits[1..][1..] == bits[2..];
        BitFalls(true, since + Ticks(64), bits[1..], h);
      }
    }
  }

  lemma EdgeFalls(bits: seq<bool>, h: nat)
    requires h <= FULL_PERIOD
    ensures FallsEdge(bits, h) ==
      if bits == [] then [Ticks(64)] + TAIL
      else if bits[0] then [Ticks(64 + h)] + FallsMid(bits[1..], h)
      else [Ticks(64)] + FallsEdge(bits[1..], h)
  {
    hide Falls, Wave;
    if bits == [] {
      NoBits(h);
      WindowFalls(true, Ticks(64));
      assert [Ticks(64)] + TAIL == [Ticks(64)] + [Ticks(64), Ticks(192)];
    } else {
      BitFalls(true, Ticks(64), bits, h);
    }
  }

  lemma MidFalls(bits: seq<bool>, h: nat)
    requires h <= FULL_PERIOD && bits != []
    ensures FallsMid(bits, h) ==
      if bits[0] then [Ticks(64)] + FallsMid(bits[1..], h)
      else if |bits| == 1 then [Ticks(128 - h)] + TAIL
      else if bits[1] then [Ticks(128)] + FallsMid(bits[2..], h)
      else [Ticks(128 - h)] + FallsEdge(bits[2..], h)
  {
    hide Falls, Wave;
    TwoBitFalls(Ticks(64 - h), bits, h);
  }

  /** Every time may be off by eight cycles with halves of equal length, by seven with halves of 33 and 31. */
  function Slack(h: nat): nat { if h == 32 then Ticks(8) else Ticks(7) }

  predicate Near(pl: nat, exact: nat, h: nat) {
    exact <= pl + Slack(h) && pl <= exact + Slack(h)
  }

  predicate Jittered(pulses: seq<nat>, exact: seq<nat>, h: nat) {
    |pulses| == |exact| && forall i :: 0 <= i < |pulses| ==> Near(pulses[i], exact[i], h)
  }

  lemma JitteredSplit(pulses: seq<nat>, x: nat, rest: seq<nat>, h: nat)
    requires Jittered(pulses, [x] + rest, h)
    ensures pulses != [] && Near(pulses[0], x, h) && Jittered(pulses[1..], rest, h)
  {
    hide Near;
    var exact := [x] + rest;
    assert Near(pulses[0], exact[0], h);
    forall i | 0 <= i < |rest| ensures Near(pulses[1..][i], rest[i], h) {
      assert Near(pulses[i + 1], exact[i + 1], h);
    }
  }

  /** Which of the four known lengths a pulse is taken for. */
  lemma PulseNear(pl: nat, cycles: nat, h: nat)
    requires h == 32 || h == 33
    requires Near(pl, Ticks(cycles), h)
    ensures cycles == 64 ==> CheckPulse(pl, 64)
    ensures cycles == 128 - h || cycles == 64 + h ==> CheckPulse(pl, 96) && !CheckPulse(pl, 64)
    ensures cycles == 128 ==> CheckPulse(pl, 128) && !CheckPulse(pl, 64) && !CheckPulse(pl, 96)
    ensures cycles == 128 + h ==> !CheckPulse(pl, 96) && !CheckPulse(pl, 128)
    ensures cycles == 192 <== CheckPulse(pl, 192) && (cycles == 64 || cycles == 128 - h || cycles == 64 + h || cycles == 128)
    ensures cycles == 192 ==> CheckPulse(pl, 192)
  {
  }

  /** One pulse inside the word. */
  lemma TakePulse(rx: Rx, pulses: seq<nat>, cycles: nat, rest: seq<nat>, h: nat)
    requires (h == 32 || h == 33) && rx.bits != []
    requires cycles == 64 || cycles == 128 - h || cycles == 64 + h || cycles == 128
    requires Jittered(pulses, [Ticks(cycles)] + rest, h)
    ensures pulses != [] && Jittered(pulses[1..], rest, h)
    ensures Run(rx, pulses) == Run(Stepped(rx, cycles), pulses[1..])
  {
    hide Jittered, Near;
    JitteredSplit(pulses, Ticks(cycles), rest, h);
    PulseNear(pulses[0], cycles, h);
  }

  /** The receiver after a pulse of so many cycles. */
  function Stepped(rx: Rx, cycles: nat): (r: Rx)
    requires rx.bits != []
    ensures r.bits != []
  {
    var last := rx.bits[|rx.bits| - 1];
    if cycles == 64 then rx.(bits := rx.bits + [last])
    else if cycles == 128 then rx.(bits := rx.bits + [false, true])
    else if rx.change then Rx(rx.bits + [last, !last], false) else Rx(rx.bits + [!last], true)
  }

  function Last(rx: Rx): bool
    requires rx.bits != []
  {
    rx.bits[|rx.bits| - 1]
  }

  /** A 0 seen whole, then the listen window: its first pulse counts as a further 0, which is dropped. */
  lemma WindowRun(rx: Rx, pulses: seq<nat>, h: nat)
    requires (h == 32 || h == 33) && rx.bits != [] && !Last(rx)
    requires Jittered(pulses, TAIL, h)
    ensures Run(rx, pulses) == [rx.bits]
  {
    hide Jittered, Near, Run;
    assert TAIL == [Ticks(64)] + ([Ticks(192)] + []);
    TakePulse(rx, pulses, 64, [Ticks(192)] + [], h);
    JitteredSplit(pulses[1..], Ticks(192), [], h);
    PulseNear(pulses[1..][0], 192, h);
    EndOfWord(Stepped(rx, 64), pulses[1..]);
    assert (rx.bits + [false])[..|rx.bits|] == rx.bits;
  }

  lemma EndOfWord(rx: Rx, pulses: seq<nat>)
    requires rx.bits != [] && pulses != [] && CheckPulse(pulses[0], 192)
    ensures Run(rx, pulses) == [rx.bits[..|rx.bits| - 1]]
  {
  }

  lemma {:induction false} MidRun(rx: Rx, bits: seq<bool>, pulses: seq<nat>, h: nat)
    requires (h == 32 || h == 33) && rx.bits != [] && Last(rx) && !rx.change
    requires bits != [] && !bits[|bits| - 1] && Jittered(pulses, FallsMid(bits, h), h)
    ensures Run(rx, pulses) == [rx.bits + bits]
    decreases |bits|, 0
  {
    hide Jittered, Run, FallsEdge, FallsMid;
    MidFalls(bits, h);
    assert bits == [bits[0]] + bits[1..];
    if bits[0] {
      TakePulse(rx, pulses, 64, FallsMid(bits[1..], h), h);
      MidThen(rx, Stepped(rx, 64), [true], bits[1..], pulses[1..], h);
    } else if |bits| == 1 {
      TakePulse(rx, pulses, 128 - h, TAIL, h);
      WindowRun(Stepped(rx, 128 - h), pulses[1..], h);
      assert bits == [false];
    } else {
      assert bits == [false, bits[1]] + bits[2..];
      if bits[1] {
        TakePulse(rx, pulses, 128, FallsMid(bits[2..], h), h);
        MidThen(rx, Stepped(rx, 128), [false, true], bits[2..], pulses[1..], h);
      } else {
        TakePulse(rx, pulses, 128 - h, FallsEdge(bits[2..], h), h);
        EdgeThen(rx, Stepped(rx, 128 - h), bits[2..], pulses[1..], h);
      }
    }
  }

  lemma {:induction false} EdgeRun(rx: Rx, bits: seq<bool>, pulses: seq<nat>, h: nat)
    requires (h == 32 || h == 33) && rx.bits != [] && !Last(rx) && rx.change
    requires (bits != [] ==> !bits[|bits| - 1]) && Jittered(pulses, FallsEdge(bits, h), h)
    ensures Run(rx, pulses) == [rx.bits + ([false] + bits)]
    decreases |bits|, 0
  {
    EdgeFalls(bits, h);
    hide Jittered, Run, FallsMid, FallsEdge;
    if bits == [] {
      TakePulse(rx, pulses, 64, TAIL, h);
      WindowRun(Stepped(rx, 64), pulses[1..], h);
      assert [false] + bits == [false];
    } else if bits[0] {
      TakePulse(rx, pulses, 64 + h, FallsMid(bits[1..], h), h);
      MidThen(rx, Stepped(rx, 64 + h), [false, true], bits[1..], pulses[1..], h);
      assert [false, true] + bits[1..] == [false] + bits;
    } else {
      TakePulse(rx, pulses, 64, FallsEdge(bits[1..], h), h);
      EdgeThen(rx, Stepped(rx, 64), bits[1..], pulses[1..], h);
      assert bits == [false] + bits[1..] && [false] + bits == [false, false] + bits[1..];
    }
  }

  /** Having decoded `first`, the receiver is in the middle of a 1. */
  lemma {:induction false} MidThen(rx: Rx, next: Rx, first: seq<bool>, rest: seq<bool>, pulses: seq<nat>, h: nat)
    requires (h == 32 || h == 33) && first != [] && first[|first| - 1] && next == Rx(rx.bits + first, false)
    requires rest != [] && !rest[|rest| - 1] && Jittered(pulses, FallsMid(rest, h), h)
    ensures Run(next, pulses) == [rx.bits + (first + rest)]
    decreases |rest|, 1
  {
    hide Jittered, Run, FallsMid;
    MidRun(next, rest, pulses, h);
    assert rx.bits + first + rest == rx.bits + (first + rest);
  }

  /** Having decoded one 0, the receiver is at the start of another. */
  lemma {:induction false} EdgeThen(rx: Rx, next: Rx, rest: seq<bool>, pulses: seq<nat>, h: nat)
    requires (h == 32 || h == 33) && next == Rx(rx.bits + [false], true)
    requires (rest != [] ==> !rest[|rest| - 1]) && Jittered(pulses, FallsEdge(rest, h), h)
    ensures Run(next, pulses) == [rx.bits + ([false, false] + rest)]
    decreases |rest|, 1
  {
    hide Jittered, Run, FallsEdge;
    EdgeRun(next, rest, pulses, h);
    assert rx.bits + [false] + ([false] + rest) == rx.bits + ([false, false] + rest);
  }

  /** Any word of two bits or more that ends in a stop bit is decoded, however it is jittered. */
  lemma BitsDecoded(bits: seq<bool>, h: nat, pulses: seq<nat>)
    requires (h == 32 || h == 33) && |bits| >= 2 && !bits[|bits| - 1]
    requires Jittered(pulses, WordFalls(bits, h), h)
    ensures Decode(pulses) == [bits]
  {
    hide Jittered, Near, Run, FallsMid, FallsEdge;
    TwoBitFalls(Ticks(64), bits, h);
    if bits[0] {
      JitteredSplit(pulses, Ticks(64 + h), FallsMid(bits[1..], h), h);
      PulseNear(pulses[0], 64 + h, h);
      MidRun(Rx([true], false), bits[1..], pulses[1..], h);
      assert bits == [true] + bits[1..];
    } else if bits[1] {
      JitteredSplit(pulses, Ticks(128 + h), FallsMid(bits[2..], h), h);
      PulseNear(pulses[0], 128 + h, h);
      MidRun(Rx([false, true], false), bits[2..], pulses[1..], h);
      assert bits == [false, true] + bits[2..];
    } else {
      JitteredSplit(pulses, Ticks(128), FallsEdge(bits[2..], h), h);
      PulseNear(pulses[0], 128, h);
      EdgeRun(Rx([false], true), bits[2..], pulses[1..], h);
      assert bits == [false] + ([false] + bits[2..]);
    }
  }

  /** Reception only adds bits behind those it has. */
  lemma {:induction false} RunStarts(rx: Rx, pulses: seq<nat>)
    requires |rx.bits| >= 2
    ensures Run(rx, pulses) != [] ==> Run(rx, pulses)[0] != [] && Run(rx, pulses)[0][0] == rx.bits[0]
    decreases |pulses|
  {
    if pulses != [] && !CheckPulse(pulses[0], 192) {
      hide CheckPulse;
      RunStarts(Step(rx, pulses[0]), pulses[1..]);
    }
  }

  /**
    Every 32-bit word survives the air: encoded, driven cycle by cycle by the simulated tag between two
    listen windows, and every time between falls off by up to seven cycles.
   */
  lemma {:induction false} WordDecoded(data: nat, pulses: seq<nat>)
    requires data < WORD32
    requires Jittered(pulses, Falls(false, Ticks(64), CycleWave(Encode(BitsUp(data, 32))) + LISTEN_WINDOW), 33)
    ensures
      var word := Encode(BitsUp(data, 32));
      && Decode(pulses) == [word] && |word| == 45
      && Accepts(Low(word, 45)) && DataOf(Low(word, 45)) == BitsUp(data, 32)
  {
    hide Jittered, Falls, Encode, Accepts, DataOf, BitsUp, Decode;
    var word := Encode(BitsUp(data, 32));
    StopBit(BitsUp(data, 32));
    CyclesAreBits(false, Ticks(64), word, LISTEN_WINDOW);
    BitsDecoded(word, 33, pulses);
    AcceptsEncodings(word, BitsUp(data, 32));
    assert Low(word, 45) == word;
  }

  /** The same for a word with halves of equal length, where every time may be off by up to eight cycles. */
  lemma NominalWordDecoded(data: nat, pulses: seq<nat>)
    requires data < WORD32
    requires Jittered(pulses, WordFalls(Encode(BitsUp(data, 32)), 32), 32)
    ensures
      var word := Encode(BitsUp(data, 32));
      && Decode(pulses) == [word] && |word| == 45
      && Accepts(Low(word, 45)) && DataOf(Low(word, 45)) == BitsUp(data, 32)
  {
    hide Jittered, WordFalls, Encode, Accepts, DataOf, BitsUp, Decode;
    var word := Encode(BitsUp(data, 32));
    StopBit(BitsUp(data, 32));
    BitsDecoded(word, 32, pulses);
    AcceptsEncodings(word, BitsUp(data, 32));
    assert Low(word, 45) == word;
  }

  /** Every time is off by at most `s` ticks. */
  predicate Within(pulses: seq<nat>, exact: seq<nat>, s: nat) {
    |pulses| == |exact| && forall i :: 0 <= i < |pulses| ==> exact[i] <= pulses[i] + s && pulses[i] <= exact[i] + s
  }

  /** The times between falls of a word as the simulated tag drives it. */
  function SentFalls(data: nat): seq<nat> {
    Falls(false, Ticks(64), CycleWave(Encode(BitsUp(data, 32))) + LISTEN_WINDOW)
  }

  /** Every word that is sent is decoded, whatever the times, as long as they are off by at most `s` ticks. */
  ghost predicate WordsSurvive(s: nat) {
    forall data: nat, pulses | data < WORD32 && Within(pulses, SentFalls(data), s) ::
      Decode(pulses) == [Encode(BitsUp(data, 32))]
  }

  /** The same for words with halves of equal length. */
  ghost predicate NominalWordsSurvive(s: nat) {
    forall data: nat, pulses | data < WORD32 && Within(pulses, WordFalls(Encode(BitsUp(data, 32)), 32), s) ::
      Decode(pulses) == [Encode(BitsUp(data, 32))]
  }

  lemma WithinIsJittered(pulses: seq<nat>, exact: seq<nat>, s: nat, h: nat)
    requires Within(pulses, exact, s) && s <= Slack(h)
    ensures Jittered(pulses, exact, h)
  {
    forall i | 0 <= i < |pulses| ensures Near(pulses[i], exact[i], h) {
      assert exact[i] <= pulses[i] + s && pulses[i] <= exact[i] + s;
    }
  }

  /** A word that starts with a 1 is lost when its first fall is late by one tick more than the slack. */
  lemma LateFirstFall(bits: seq<bool>, h: nat) returns (pulses: seq<nat>)
    requires (h == 32 || h == 33) && bits != [] && bits[0]
    ensures forall s | s > Slack(h) :: Within(pulses, WordFalls(bits, h), s)
    ensures Decode(pulses) != [bits]
  {
    var exact := WordFalls(bits, h);
    TwoBitFalls(Ticks(64), bits, h);
    assert exact[0] == Ticks(64 + h);
    hide WordFalls, FallsMid, Run;
    pulses := exact[0 := exact[0] + Slack(h) + 1];
    assert First(pulses[0]) == Rx([false, true], false);
    RunStarts(First(pulses[0]), pulses[1..]);
  }

  /** The word 1 starts with a 1, as least significant bits go first. */
  lemma OneStarts()
    ensures Encode(BitsUp(1, 32))[0]
  {
    var d := BitsUp(1, 32);
    assert d[0] by { assert d == [true] + BitsUp(0, 31); }
    FirstSent(d);
  }

  lemma FirstSent(d: seq<bool>)
    requires |d| == 32
    ensures Encode(d)[0] == d[0]
  {
    hide Encode, ColumnParities, Parity;
    EncodeRows(d);
    assert Encode(d)[9 * 0..9 * 0 + 9] == RowBits(d, 0);
    assert Encode(d)[0..9][0] == RowBits(d, 0)[0] == d[0];
  }

  /** With equal halves eight cycles are tolerated, and not a tick more. */
  lemma NominalSlack(s: nat)
    ensures NominalWordsSurvive(s) <==> s <= 96
  {
    hide Within, WordFalls, Encode, Decode, BitsUp;
    if s <= Ticks(8) {
      forall data: nat, pulses | data < WORD32 && Within(pulses, WordFalls(Encode(BitsUp(data, 32)), 32), s)
        ensures Decode(pulses) == [Encode(BitsUp(data, 32))]
      {
        WithinIsJittered(pulses, WordFalls(Encode(BitsUp(data, 32)), 32), s, 32);
        NominalWordDecoded(data, pulses);
      }
    } else {
      OneStarts();
      var pulses := LateFirstFall(Encode(BitsUp(1, 32)), 32);
      assert Within(pulses, WordFalls(Encode(BitsUp(1, 32)), 32), s);
    }
  }

  /** With the simulator's halves of 33 and 31 cycles seven cycles are tolerated, and not a tick more. */
  lemma SimulatorSlack(s: nat)
    ensures WordsSurvive(s) <==> s <= 84
  {
    hide Within, Falls, SentFalls, WordFalls, Encode, Decode, BitsUp;
    if s <= Ticks(7) {
      forall data: nat, pulses | data < WORD32 && Within(pulses, SentFalls(data), s)
        ensures Decode(pulses) == [Encode(BitsUp(data, 32))]
      {
        SentAre(data);
        WithinIsJittered(pulses, SentFalls(data), s, 33);
        SentDecoded(data, pulses);
      }
    } else {
      OneStarts();
      SentAre(1);
      var pulses := LateFirstFall(Encode(BitsUp(1, 32)), 33);
      assert Within(pulses, SentFalls(1), s);
    }
  }

  lemma {:induction false} SentAre(data: nat)
    ensures SentFalls(data) == WordFalls(Encode(BitsUp(data, 32)), 33)
  {
    hide Falls, Encode, BitsUp;
    CyclesAreBits(false, Ticks(64), Encode(BitsUp(data, 32)), LISTEN_WINDOW);
  }

  lemma SentDecoded(data: nat, pulses: seq<nat>)
    requires data < WORD32 && Jittered(pulses, SentFalls(data), 33)
    ensures Decode(pulses) == [Encode(BitsUp(data, 32))]
  {
    hide Jittered, Falls, Encode, Accepts, DataOf, BitsUp, Decode;
    WordDecoded(data, pulses);
  }

  lemma StopBit(d: seq<bool>)
    requires |d| == 32
    ensures !Encode(d)[44]
  {
    EncodeRows(d);
  }

  /** The reader's result for such a word: 45 bits, and the data in the order it was sent. */
  method ReceiveSentWord(pulses: seq<nat>, ghost data: nat) returns (res: int, got: nat)
    requires data < WORD32
    requires Jittered(pulses, Falls(false, Ticks(64), CycleWave(Encode(BitsUp(data, 32))) + LISTEN_WINDOW), 33)
    ensures res == 45 && got == Reflect32(data)
  {
    hide Jittered, Falls, Encode, Accepts, DataOf, BitsUp, Decode;
    WordDecoded(data, pulses);
    res, got := GetWordFromBitstream(pulses);
  }
}
