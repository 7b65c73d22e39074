/**
  The ISO/IEC 18092 deframer: one received byte at a time, at any of eight bit
  alignments and in either polarity.  The specification is a reader of the bit
  sequence heard since synchronisation search began.
 */
module Felica {
  import opened Bits

  datatype State = Unsyncd | TryingSync | GetLength | GetData | GetCrc | Full
  datatype Polarity = Unknown | Normal | Inverted

  const MAX_RF_FRAME_SIZE: nat := 260
  const SYNC_16BIT: word16 := 0xB24D
  const SYNC: seq<bool> := [true, false, true, true, false, false, true, false,
                            false, true, false, false, true, true, false, true]

  // ---------------------------------------------------------------------------
  // The bit-level frame reader
  // ---------------------------------------------------------------------------

  ghost predicate EndsWith(s: seq<bool>, code: seq<bool>) {
    |code| <= |s| && s[|s| - |code|..] == code
  }

  /** The sixteen bits before position `p` are the synchronisation code, or its complement. */
  ghost predicate SyncAt(air: seq<bool>, p: nat) {
    p <= |air| && (EndsWith(air[..p], SYNC) || EndsWith(air[..p], Flip(SYNC)))
  }

  ghost predicate FirstSync(air: seq<bool>, p: nat) {
    SyncAt(air, p) && forall q: nat | q < p :: !SyncAt(air, q)
  }

  /** Where the synchronisation code first ends; 0 when it has not been heard. */
  ghost function SyncEnd(air: seq<bool>): (p: nat)
    ensures p <= |air|
  {
    SyncEndFrom(air, 0)
  }

  ghost function SyncEndFrom(air: seq<bool>, q: nat): (p: nat)
    ensures p <= |air|
    decreases |air| - q
  {
    if q > |air| then 0 else if SyncAt(air, q) then q else SyncEndFrom(air, q + 1)
  }

  lemma {:induction false} SyncEndFromMeaning(air: seq<bool>, q: nat)
    requires q <= |air| + 1 && forall r: nat | r < q :: !SyncAt(air, r)
    ensures
      var p := SyncEndFrom(air, q);
      if p == 0 then forall r: nat :: !SyncAt(air, r) else FirstSync(air, p)
    decreases |air| + 1 - q
  {
    if q <= |air| && !SyncAt(air, q) { SyncEndFromMeaning(air, q + 1); }
  }

  /** The search ends at the first position, and only there, where the code or its complement ends. */
  lemma SyncEndIsFirst(air: seq<bool>, p: nat)
    ensures SyncEnd(air) == 0 <==> forall r: nat :: !SyncAt(air, r)
    ensures p > 0 ==> (SyncEnd(air) == p <==> FirstSync(air, p))
  {
    SyncEndFromMeaning(air, 0);
    assert !SyncAt(air, 0);
  }

  ghost function PolarityOf(air: seq<bool>): Polarity
    requires SyncEnd(air) > 0
  {
    var p := SyncEnd(air);
    if EndsWith(air[..p], SYNC) then Normal else Inverted
  }

  /** The bits after the synchronisation code, with the polarity undone. */
  ghost function Payload(air: seq<bool>): seq<bool>
    requires SyncEnd(air) > 0
  {
    var rest := air[SyncEnd(air)..];
    if PolarityOf(air) == Inverted then Flip(rest) else rest
  }

  /** How many whole bytes have followed the synchronisation code. */
  ghost function Done(air: seq<bool>): nat
    requires SyncEnd(air) > 0
  {
    |Payload(air)| / 8
  }

  /** The `k`-th whole byte after the synchronisation code. */
  ghost function FrameByte(air: seq<bool>, k: nat): byte
    requires SyncEnd(air) > 0 && k < Done(air)
  {
    ByteOf(Payload(air)[8 * k..8 * k + 8])
  }

  /** Bytes read after the synchronisation code for length byte `n`: a length of 1 reads one too many. */
  function BytesToRead(n: nat): nat { (if n < 2 then 2 else n) + 2 }

  ghost function StateOf(air: seq<bool>): State {
    if air == [] then Unsyncd
    else if SyncEnd(air) == 0 then TryingSync
    else if Done(air) == 0 then GetLength
    else
      var total := BytesToRead(FrameByte(air, 0));
      if Done(air) < total - 2 then GetData else if Done(air) < total then GetCrc else Full
  }

  /** The reader's memory after one more received byte. */
  ghost function Hear(air: seq<bool>, bt: byte): seq<bool> {
    if StateOf(air) == Full || (air == [] && bt == 0) then air
    else
      var longer := air + LsbFirst(bt);
      if StateOf(air) == GetLength && SyncEnd(longer) > 0 && Done(longer) > 0 && FrameByte(longer, 0) == 0 then [] else longer
  }

  ghost function HearAll(air: seq<bool>, bytes: seq<byte>): seq<bool>
    decreases |bytes|
  {
    if bytes == [] then air else HearAll(Hear(air, bytes[0]), bytes[1..])
  }

  lemma SyncCode()
    ensures SYNC == BitsOf(SYNC_16BIT, 16) && SYNC == MsbFirst(0xB2) + MsbFirst(0x4D)
  {
    hide BitsOf;
    FourBits(0xB24D, 12);
    FourBits(0xB24, 8);
    FourBits(0xB2, 4);
    FourBits(0x4D, 4);
    FourBits(0xB, 0);
    FourBits(0x4, 0);
    assert BitsOf(0, 0) == [];
  }

  lemma SyncStable(air: seq<bool>, more: seq<bool>)
    requires SyncEnd(air) > 0
    ensures SyncEnd(air + more) == SyncEnd(air)
    ensures PolarityOf(air + more) == PolarityOf(air)
  {
    var p, longer := SyncEnd(air), air + more;
    SyncEndIsFirst(air, p);
    SyncEndIsFirst(longer, p);
    assert longer[..p] == air[..p];
    forall q: nat | q < p ensures !SyncAt(longer, q) {
      assert !SyncAt(air, q);
      assert longer[..q] == air[..q];
    }
    assert FirstSync(longer, p);
  }

  lemma PayloadGrows(air: seq<bool>, more: seq<bool>)
    requires SyncEnd(air) > 0
    ensures SyncEnd(air + more) == SyncEnd(air)
    ensures PolarityOf(air + more) == PolarityOf(air)
    ensures Payload(air + more) == Payload(air) + (if PolarityOf(air) == Inverted then Flip(more) else more)
  {
    SyncStable(air, more);
    var p := SyncEnd(air);
    assert (air + more)[p..] == air[p..] + more;
  }

  /** A 16-bit register filled by shifting bits in from zero. */
  ghost function Register(s: seq<bool>): word16
  {
    if s == [] then 0 else (2 * Register(s[..|s| - 1]) + Bit(s[|s| - 1])) % 0x1_0000
  }

  lemma RegisterStep(s: seq<bool>, b: byte)
    ensures Register(s + [b % 2 == 1]) == (2 * Register(s) + b % 2) % 0x1_0000
  {
    var t := s + [b % 2 == 1];
    assert t[..|t| - 1] == s;
  }

  /** The last sixteen bits heard, with zeros before the first. */
  ghost function Window(s: seq<bool>): (w: seq<bool>)
    ensures |w| == 16
  {
    (Zeros(16) + s)[|s|..]
  }

  lemma WindowStep(s: seq<bool>, b: bool)
    ensures Window(s + [b]) == Window(s)[1..] + [b]
  {
  }

  lemma WordPow()
    ensures Pow2(16) == 0x1_0000
  {
    assert Pow2(8) == 256;
  }

  lemma {:induction false} RegisterBits(s: seq<bool>)
    ensures BitsOf(Register(s), 16) == Window(s)
  {
    hide BitsOf, Pow2;
    WordPow();
    if s == [] {
      ZeroValue(16);
      BitsOfValue(Zeros(16));
      assert Window(s) == Zeros(16);
    } else {
      hide Window;
      var n := |s| - 1;
      RegisterBits(s[..n]);
      ShiftLeft(Register(s[..n]), s[n], 16);
      WindowStep(s[..n], s[n]);
      assert s == s[..n] + [s[n]];
    }
  }

  lemma {:induction false} ZeroValue(n: nat)
    ensures Value(Zeros(n)) == 0
  {
    if n > 0 {
      ZeroValue(n - 1);
      assert Zeros(n)[..n - 1] == Zeros(n - 1);
    }
  }

  lemma WindowIsSync(s: seq<bool>)
    ensures Window(s) == SYNC <==> EndsWith(s, SYNC)
  {
    if |s| < 16 {
      assert Window(s)[0] == Zeros(16)[|s|];
    } else {
      assert Window(s) == s[|s| - 16..];
    }
  }

  /** The zero fill never matches early: a register shows SYNC only when sixteen real bits are SYNC. */
  lemma RegisterShowsSync(s: seq<bool>)
    ensures Register(s) == SYNC_16BIT <==> EndsWith(s, SYNC)
  {
    hide Window, Register, BitsOf, Pow2;
    RegisterBits(s);
    SyncCode();
    WordPow();
    if BitsOf(Register(s), 16) == BitsOf(SYNC_16BIT, 16) { BitsInjective(Register(s), SYNC_16BIT, 16); }
    WindowIsSync(s);
  }

  lemma FlippedEnd(s: seq<bool>, code: seq<bool>)
    ensures EndsWith(Flip(s), code) <==> EndsWith(s, Flip(code))
  {
    if |code| <= |s| {
      var w := s[|s| - |code|..];
      assert Flip(s)[|s| - |code|..] == Flip(w);
      assert Flip(Flip(w)) == w && Flip(Flip(code)) == code;
    }
  }

  lemma NotBothCodes(s: seq<bool>)
    ensures !(EndsWith(s, SYNC) && EndsWith(s, Flip(SYNC)))
  {
    assert SYNC[0] != Flip(SYNC)[0];
  }

  lemma {:induction false} RegistersFindSync(s: seq<bool>)
    ensures Register(s) == SYNC_16BIT <==> EndsWith(s, SYNC)
    ensures Register(Flip(s)) == SYNC_16BIT <==> EndsWith(s, Flip(SYNC))
    ensures SyncAt(s, |s|) <==> Register(s) == SYNC_16BIT || Register(Flip(s)) == SYNC_16BIT
    ensures !(Register(s) == SYNC_16BIT && Register(Flip(s)) == SYNC_16BIT)
  {
    hide EndsWith, Register;
    RegisterShowsSync(s);
    RegisterShowsSync(Flip(s));
    FlippedEnd(s, SYNC);
    NotBothCodes(s);
    assert s[..|s|] == s;
  }

  // ---------------------------------------------------------------------------
  // The receiver
  // ---------------------------------------------------------------------------

  /** `buf` holds the code, the whole bytes of `air`, and the first bits of the next byte. */
  ghost predicate Stored(air: seq<bool>, buf: seq<byte>, o: nat)
    requires |buf| == MAX_RF_FRAME_SIZE && SyncEnd(air) > 0
  {
    var done, q := Done(air), Payload(air);
    && o < 8 && done + 2 < MAX_RF_FRAME_SIZE
    && |q| == 8 * done + (if o == 0 then 0 else 8 - o)
    && buf[0] == 0xB2 && buf[1] == 0x4D
    && (forall k :: 0 <= k < done ==> buf[2 + k] == FrameByte(air, k))
    && (o > 0 ==> MsbFirst(buf[2 + done])[o..] == q[8 * done..])
  }

  lemma NextBit(b: byte, bt: byte, j: nat)
    requires j < 8 && BitsUp(b, 8 - j) == LsbFirst(bt)[j..]
    ensures LsbFirst(bt)[j] == (b % 2 == 1)
    ensures BitsUp(b / 2, 7 - j) == LsbFirst(bt)[j + 1..]
  {
    hide LsbFirst;
    var s := LsbFirst(bt);
    assert BitsUp(b, 8 - j) == [b % 2 == 1] + BitsUp(b / 2, 7 - j);
    assert s[j..] == [s[j]] + s[j + 1..];
    assert BitsUp(b, 8 - j)[0] == (b % 2 == 1) && BitsUp(b, 8 - j)[1..] == BitsUp(b / 2, 7 - j);
  }

  lemma TailOf(a: seq<bool>, b: seq<bool>, i: nat)
    requires i <= |b|
    ensures (a + b)[|a| + i..] == b[i..]
  {
  }

  lemma SlideBy(x: seq<bool>, y: seq<bool>, o: nat, j: nat)
    requires |x| == |y| == 8 && o <= j < 8
    ensures (x[j - o..] + y[o..j])[1..] + [y[j]] == x[j + 1 - o..] + y[o..j + 1]
  {
    assert y[o..j + 1] == y[o..j] + [y[j]];
    assert x[j - o..][1..] == x[j + 1 - o..];
  }

  class FelicaFrame {
    var state: State
    var shiftReg: word16
    var shiftRegInv: word16
    var posCnt: int
    var crcOk: bool
    var remLen: int
    var len: nat
    var byteOffset: nat
    var polarity: Polarity
    const framebytes: array<byte>
    const checkCrc: seq<byte> -> bool
    ghost var air: seq<bool>  // every bit heard since the search began

    /** The fields and the buffer say what the bit-level reader says of `air`. */
    ghost predicate Valid()
      reads this, framebytes
    {
      && framebytes.Length == MAX_RF_FRAME_SIZE
      && |air| % 8 == 0
      && state == StateOf(air)
      && (state == TryingSync ==> shiftReg == Register(air) && shiftRegInv == Register(Flip(air)))
      && (state != Unsyncd && state != TryingSync ==> Locked())
    }

    ghost predicate Locked()
      requires framebytes.Length == MAX_RF_FRAME_SIZE
      reads this, framebytes
    {
      SyncEnd(air) > 0 && Filled() && Counted()
    }

    /** The buffer holds the bytes read so far, and the first bits of the next. */
    ghost predicate Filled()
      requires framebytes.Length == MAX_RF_FRAME_SIZE && SyncEnd(air) > 0
      reads this`byteOffset, this`polarity, this`posCnt, this`air, framebytes
    {
      && byteOffset < 8 && polarity == PolarityOf(air)
      && posCnt == Done(air) + (if byteOffset == 0 then 1 else 2)
      && Stored(air, framebytes[..], byteOffset)
    }

    ghost predicate Counted()
      requires framebytes.Length == MAX_RF_FRAME_SIZE && SyncEnd(air) > 0
      reads this, framebytes
    {
      var done := Done(air);
      done > 0 ==>
        var n := framebytes[2];
        && n > 0 && len == n + 4 && done <= BytesToRead(n)
        && (state == GetData ==> remLen == n - done)
        && (state == GetCrc ==> remLen == BytesToRead(n) - done)
        && (state == Full ==> remLen == 0 && crcOk == checkCrc(framebytes[2..len]))
    }

    constructor (checkCrc: seq<byte> -> bool)
      ensures Valid() && air == [] && fresh(framebytes)
      ensures this.checkCrc == checkCrc
    {
      this.checkCrc := checkCrc;
      framebytes := new byte[MAX_RF_FRAME_SIZE];
      new;
      Reset();
    }

    method Reset()
      requires framebytes.Length == MAX_RF_FRAME_SIZE
      modifies this
      ensures Valid() && air == [] && state == Unsyncd && polarity == Unknown
    {
      state, posCnt, shiftReg, shiftRegInv := Unsyncd, 0, 0, 0;
      crcOk, remLen, len, byteOffset, polarity := false, 0, 0, 0, Unknown;
      air := [];
    }

    /** Shifts bits `from..to` of `bt` into the byte at `posCnt`; `b` holds the bits not yet used. */
    method ShiftRun(b: byte, from: nat, to: nat, ghost bt: byte) returns (rest: byte)
      requires framebytes.Length == MAX_RF_FRAME_SIZE && 0 <= posCnt < MAX_RF_FRAME_SIZE
      requires from <= to <= 8 && BitsUp(b, 8 - from) == LsbFirst(bt)[from..]
      modifies framebytes
      ensures BitsUp(rest, 8 - to) == LsbFirst(bt)[to..]
      ensures MsbFirst(framebytes[posCnt])
           == MsbFirst(old(framebytes[posCnt]))[to - from..] + LsbFirst(bt)[from..to]
      ensures forall k | 0 <= k < MAX_RF_FRAME_SIZE && k != posCnt :: framebytes[k] == old(framebytes[k])
    {
      hide MsbFirst, LsbFirst;
      rest := b;
      for j := from to to
        invariant BitsUp(rest, 8 - j) == LsbFirst(bt)[j..]
        invariant MsbFirst(framebytes[posCnt])
               == MsbFirst(old(framebytes[posCnt]))[j - from..] + LsbFirst(bt)[from..j]
        invariant forall k | 0 <= k < MAX_RF_FRAME_SIZE && k != posCnt :: framebytes[k] == old(framebytes[k])
      {
        ShiftLeftByte(framebytes[posCnt], rest);
        NextBit(rest, bt, j);
        SlideBy(MsbFirst(old(framebytes[posCnt])), LsbFirst(bt), from, j);
        framebytes[posCnt] := (2 * framebytes[posCnt] + rest % 2) % 256;
        rest := rest / 2;
      }
    }

    /** Shifts a byte into the buffer, first bit received into the highest place. */
    method ShiftInByte(bt: byte)
      requires framebytes.Length == MAX_RF_FRAME_SIZE && byteOffset < 8
      requires 0 <= posCnt < MAX_RF_FRAME_SIZE - 1
      modifies this`posCnt, this`remLen, framebytes
      ensures posCnt == old(posCnt) + 1 && remLen == old(remLen) - 1
      ensures MsbFirst(framebytes[old(posCnt)])
           == MsbFirst(old(framebytes[posCnt]))[byteOffset..] + LsbFirst(bt)[..byteOffset]
      ensures MsbFirst(framebytes[posCnt])
           == MsbFirst(old(framebytes[posCnt + 1]))[8 - byteOffset..] + LsbFirst(bt)[byteOffset..]
      ensures forall k | 0 <= k < MAX_RF_FRAME_SIZE && k != old(posCnt) && k != posCnt ::
                framebytes[k] == old(framebytes[k])
    {
      hide MsbFirst, BitsUp;
      var b := ShiftRun(bt, 0, byteOffset, bt);
      posCnt := posCnt + 1;
      remLen := remLen - 1;
      b := ShiftRun(b, byteOffset, 8, bt);
    }

    /** One received byte: afterwards the fields and the buffer agree with the bit-level reader. */
    method Process18092Byte(bt: byte)
      requires Valid()
      modifies this, framebytes
      ensures Valid() && air == Hear(old(air), bt)
      ensures old(state) == Full ==> unchanged(this) && unchanged(framebytes)
    {
      hide LsbFirst, Stored, Payload, Register, SyncEnd, FrameByte;
      match state
      case Unsyncd =>
        if bt > 0 {
          FirstByte(bt);
          var btr := Reflect8(bt);
          shiftReg, shiftRegInv := btr, 255 - btr;
          polarity := Unknown;
          state := TryingSync;
          air := LsbFirst(bt);
        }
      case TryingSync =>
        Searching(air);
        TrySync(bt);
      case GetLength => ReadLength(bt);
      case GetData => ReadData(bt);
      case GetCrc => ReadCrc(bt);
      case Full =>
    }

    method ReadLength(bt: byte)
      requires Valid() && state == GetLength
      modifies this, framebytes
      ensures Valid() && air == Hear(old(air), bt)
    {
      hide LsbFirst, Stored, Payload, Register, SyncEnd, FrameByte;
      Collect(bt);
      LengthByte(air, framebytes[..], byteOffset);
      var n: int := framebytes[2];
      if n == 0 || n + 4 > MAX_RF_FRAME_SIZE {
        Reset();
      } else {
        remLen := n - 1;
        len := n + 4;
        state := GetData;
      }
    }

    method ReadData(bt: byte)
      requires Valid() && state == GetData
      modifies this, framebytes
      ensures Valid() && air == Hear(old(air), bt)
    {
      hide LsbFirst, Stored, Payload, Register, SyncEnd, FrameByte;
      assert Filled();
      LengthByte(air, framebytes[..], byteOffset);
      Collect(bt);
      LengthByte(air, framebytes[..], byteOffset);
      hide Filled;
      if remLen <= 0 {
        state := GetCrc;
        remLen := 2;
      }
    }

    method ReadCrc(bt: byte)
      requires Valid() && state == GetCrc
      modifies this, framebytes
      ensures Valid() && air == Hear(old(air), bt)
    {
      hide LsbFirst, Stored, Payload, Register, SyncEnd, FrameByte;
      assert Filled();
      LengthByte(air, framebytes[..], byteOffset);
      Collect(bt);
      LengthByte(air, framebytes[..], byteOffset);
      hide Filled;
      if remLen <= 0 {
        remLen := 0;
        crcOk := checkCrc(framebytes[2..len]);
        state := Full;
      }
    }

    /** The three collecting states: undo the polarity and shift the byte in. */
    method Collect(bt: byte)
      requires Valid() && (state == GetLength || state == GetData || state == GetCrc)
      modifies this`posCnt, this`remLen, this`air, framebytes
      ensures air == old(air) + LsbFirst(bt) && SyncEnd(air) > 0
      ensures Filled() && Done(air) == Done(old(air)) + 1 && remLen == old(remLen) - 1
      ensures Done(old(air)) > 0 ==> framebytes[2] == old(framebytes[2])
    {
      hide MsbFirst, LsbFirst, SyncEnd, StateOf, SyncEndFrom, Stored, Payload, FrameByte;
      ghost var before := framebytes[..];
      StillReading(air);
      StoredRoom(air, before, byteOffset);
      var bt' := if polarity == Inverted then 255 - bt else bt;
      ShiftInByte(bt');
      StoreByte(air, bt, before, framebytes[..], byteOffset);
      air := air + LsbFirst(bt);
    }

    /** `STATE_TRYING_SYNC`: looks for the code at each of the eight bit positions of `bt`. */
    method TrySync(bt: byte)
      requires Valid() && state == TryingSync
      modifies this, framebytes
      ensures Valid() && air == old(air) + LsbFirst(bt)
    {
      hide BitsUp, Register, StateOf, SyncEnd, SyncAt, EndsWith, PolarityOf, Stored, Payload;
      var btNorm: byte, btInv: byte := bt, 255 - bt;
      ghost var n := |air|;
      ghost var whole := air + LsbFirst(bt);
      Searching(air);
      NotYetHeard(air, LsbFirst(bt));
      assert air == whole[..n];
      for i := 0 to 8
        invariant framebytes.Length == MAX_RF_FRAME_SIZE && state == TryingSync && air == whole[..n + i]
        invariant shiftReg == Register(air) && shiftRegInv == Register(Flip(air))
        invariant BitsUp(btNorm, 8 - i) == LsbFirst(bt)[i..]
        invariant BitsUp(btInv, 8 - i) == LsbFirst(255 - bt)[i..]
        invariant forall q: nat | q < n + i || q == n :: !SyncAt(whole, q)
      {
        SyncShows(whole, n + i);
        if shiftReg == SYNC_16BIT || shiftRegInv == SYNC_16BIT {
          var inverted := shiftRegInv == SYNC_16BIT;
          TailOf(whole[..n], LsbFirst(bt), i);
          Found(whole, i, if inverted then btInv else btNorm, bt, inverted);
          return;
        }
        ShiftRegisters(whole, n, i, bt, btNorm, btInv);
        shiftReg := (2 * shiftReg + btNorm % 2) % 0x1_0000;
        shiftRegInv := (2 * shiftRegInv + btInv % 2) % 0x1_0000;
        btNorm := btNorm / 2;
        btInv := btInv / 2;
        air := whole[..n + i + 1];
      }
      SyncShows(whole, n + 8);
      assert whole[..n + 8] == whole;
      if shiftReg == SYNC_16BIT || shiftRegInv == SYNC_16BIT {
        TailOf(whole[..n], LsbFirst(bt), 8);
        Found(whole, 8, 0, bt, shiftRegInv == SYNC_16BIT);
      } else {
        StillSearching(whole);
      }
    }

    /** The code ended `i` bits into `bt`; `b` holds the bits of `bt` that follow it. */
    method Found(ghost whole: seq<bool>, i: nat, b: byte, bt: byte, inverted: bool)
      requires framebytes.Length == MAX_RF_FRAME_SIZE && |whole| % 8 == 0 && 0 < i <= 8 && |whole| >= 8
      requires FirstSync(whole, |whole| - 8 + i) && whole[|whole| - 8 + i..] == LsbFirst(bt)[i..]
      requires inverted == !EndsWith(whole[..|whole| - 8 + i], SYNC)
      requires i < 8 ==> BitsUp(b, 8 - i) == LsbFirst(if inverted then 255 - bt else bt)[i..]
      modifies this, framebytes
      ensures Valid() && air == whole
    {
      hide MsbFirst, LsbFirst, EndsWith, StateOf, Payload, FirstSync;
      air := whole;
      LockedAt(air, |air| - 8 + i, i, bt);
      Lock(i % 8, inverted);
      if i < 8 {
        var rest := ShiftRun(b, i, 8, if inverted then 255 - bt else bt);
      }
      StoredAtLock(air, |air| - 8 + i, i, bt, framebytes[..]);
    }

    /** Starts a frame whose bytes begin `offset` bits into each received byte. */
    method Lock(offset: nat, useInverted: bool)
      requires framebytes.Length == MAX_RF_FRAME_SIZE && offset < 8
      modifies this`state, this`byteOffset, this`posCnt, this`polarity, framebytes
      ensures state == GetLength && byteOffset == offset && posCnt == (if offset == 0 then 1 else 2)
      ensures polarity == (if useInverted then Inverted else Normal)
      ensures framebytes[0] == 0xB2 && framebytes[1] == 0x4D && framebytes[2] == 0
    {
      state := GetLength;
      framebytes[0], framebytes[1], framebytes[2] := 0xB2, 0x4D, 0x00;
      byteOffset := offset;
      polarity := if useInverted then Inverted else Normal;
      posCnt := if offset == 0 then 1 else 2;
    }
  }

  lemma NotYetHeard(air: seq<bool>, more: seq<bool>)
    requires SyncEnd(air) == 0
    ensures forall q: nat | q <= |air| :: !SyncAt(air + more, q)
  {
    SyncEndIsFirst(air, 0);
    forall q: nat | q <= |air| ensures !SyncAt(air + more, q) {
      assert !SyncAt(air, q);
      assert (air + more)[..q] == air[..q];
    }
  }

  lemma StillReading(air: seq<bool>)
    requires SyncEnd(air) > 0 && StateOf(air) != Full
    ensures Done(air) < 257
  {
  }

  lemma BytesStable(air: seq<bool>, more: seq<bool>, k: nat)
    requires SyncEnd(air) > 0 && k < Done(air)
    ensures SyncEnd(air + more) == SyncEnd(air) && k < Done(air + more)
    ensures FrameByte(air + more, k) == FrameByte(air, k)
  {
    PayloadGrows(air, more);
    assert Payload(air + more)[8 * k..8 * k + 8] == Payload(air)[8 * k..8 * k + 8];
  }

  /** One more received byte completes one more frame byte. */
  lemma OneMoreByte(air: seq<bool>, bt: byte, o: nat)
    requires SyncEnd(air) > 0 && o < 8
    requires |Payload(air)| == 8 * Done(air) + (if o == 0 then 0 else 8 - o)
    ensures SyncEnd(air + LsbFirst(bt)) == SyncEnd(air)
    ensures
      var longer := air + LsbFirst(bt);
      var bits := LsbFirst(if PolarityOf(air) == Inverted then 255 - bt else bt);
      var (done, q, q') := (Done(air), Payload(air), Payload(longer));
      && PolarityOf(longer) == PolarityOf(air)
      && q' == q + bits && Done(longer) == done + 1
      && q'[8 * done..8 * done + 8] == (if o == 0 then bits else q[8 * done..] + bits[..o])
      && q'[8 * (done + 1)..] == (if o == 0 then [] else bits[o..])
  {
    hide LsbFirst, SyncEnd;
    ComplementBits(bt);
    PayloadGrows(air, LsbFirst(bt));
    var bits := LsbFirst(if PolarityOf(air) == Inverted then 255 - bt else bt);
    SplitTail(Payload(air), bits, Done(air), o);
    hide Payload, PolarityOf;
    assert |Payload(air) + bits| == |Payload(air)| + 8;
  }

  lemma SplitTail(q: seq<bool>, bits: seq<bool>, done: nat, o: nat)
    requires |bits| == 8 && o < 8 && |q| == 8 * done + (if o == 0 then 0 else 8 - o)
    ensures (q + bits)[8 * done..8 * done + 8] == (if o == 0 then bits else q[8 * done..] + bits[..o])
    ensures (q + bits)[8 * (done + 1)..] == (if o == 0 then [] else bits[o..])
  {
  }

  lemma StoredRoom(air: seq<bool>, buf: seq<byte>, o: nat)
    requires |buf| == MAX_RF_FRAME_SIZE && SyncEnd(air) > 0 && Done(air) < 257
    requires Stored(air, buf, o)
    ensures o < 8 && Done(air) + 3 < MAX_RF_FRAME_SIZE
  {
  }

  /** Shifting one more received byte in keeps the buffer in step with the bits heard. */
  lemma StoreByte(air: seq<bool>, bt: byte, before: seq<byte>, after: seq<byte>, o: nat)
    requires SyncEnd(air) > 0 && Done(air) < 257 && |before| == |after| == MAX_RF_FRAME_SIZE
    requires Stored(air, before, o)
    requires
      var at := Done(air) + (if o == 0 then 1 else 2);
      var bits := LsbFirst(if PolarityOf(air) == Inverted then 255 - bt else bt);
      && MsbFirst(after[at]) == MsbFirst(before[at])[o..] + bits[..o]
      && MsbFirst(after[at + 1]) == MsbFirst(before[at + 1])[8 - o..] + bits[o..]
      && forall k :: 0 <= k < MAX_RF_FRAME_SIZE && k != at && k != at + 1 ==> after[k] == before[k]
    ensures SyncEnd(air + LsbFirst(bt)) == SyncEnd(air)
    ensures Done(air + LsbFirst(bt)) == Done(air) + 1
    ensures PolarityOf(air + LsbFirst(bt)) == PolarityOf(air)
    ensures Stored(air + LsbFirst(bt), after, o)
    ensures Done(air) > 0 ==> after[2] == before[2]
  {
    hide MsbFirst, LsbFirst, SyncEnd, SyncEndFrom, PolarityOf, Payload, FrameByte;
    var done := Done(air);
    var at := done + (if o == 0 then 1 else 2);
    var longer := air + LsbFirst(bt);
    OneMoreByte(air, bt, o);
    if o == 0 { MsbFirstInjective(after[at], before[at]); }
    FrameByteIs(longer, done, after[2 + done]);
    forall k | 0 <= k < done ensures after[2 + k] == FrameByte(longer, k) {
      BytesStable(air, LsbFirst(bt), k);
    }
  }

  lemma FrameByteIs(air: seq<bool>, k: nat, b: byte)
    requires SyncEnd(air) > 0 && k < Done(air)
    requires MsbFirst(b) == Payload(air)[8 * k..8 * k + 8]
    ensures FrameByte(air, k) == b
  {
    hide MsbFirst, SyncEnd, Payload;
    ByteOfBits(Payload(air)[8 * k..8 * k + 8], b);
  }

  lemma Searching(air: seq<bool>)
    requires StateOf(air) == TryingSync
    ensures air != [] && SyncEnd(air) == 0
  {
  }

  lemma StillSearching(air: seq<bool>)
    requires air != [] && forall q: nat | q <= |air| :: !SyncAt(air, q)
    ensures StateOf(air) == TryingSync
  {
    assert forall q: nat :: !SyncAt(air, q);
    SyncEndIsFirst(air, 0);
  }

  lemma SyncShows(air: seq<bool>, p: nat)
    requires p <= |air|
    ensures SyncAt(air, p) <==> Register(air[..p]) == SYNC_16BIT || Register(Flip(air[..p])) == SYNC_16BIT
    ensures Register(air[..p]) == SYNC_16BIT <==> EndsWith(air[..p], SYNC)
    ensures !(Register(air[..p]) == SYNC_16BIT && Register(Flip(air[..p])) == SYNC_16BIT)
  {
    hide Register, EndsWith;
    RegistersFindSync(air[..p]);
    assert air[..p][..p] == air[..p];
  }

  /** One step of both shift registers, and of both copies of the received byte. */
  lemma ShiftRegisters(air: seq<bool>, n: nat, i: nat, bt: byte, btNorm: byte, btInv: byte)
    requires i < 8 && |air| == n + 8 && air[n..] == LsbFirst(bt)
    requires BitsUp(btNorm, 8 - i) == LsbFirst(bt)[i..]
    requires BitsUp(btInv, 8 - i) == LsbFirst(255 - bt)[i..]
    ensures Register(air[..n + i + 1]) == (2 * Register(air[..n + i]) + btNorm % 2) % 0x1_0000
    ensures Register(Flip(air[..n + i + 1])) == (2 * Register(Flip(air[..n + i])) + btInv % 2) % 0x1_0000
    ensures BitsUp(btNorm / 2, 7 - i) == LsbFirst(bt)[i + 1..]
    ensures BitsUp(btInv / 2, 7 - i) == LsbFirst(255 - bt)[i + 1..]
  {
    hide LsbFirst, Register, BitsUp;
    var heard := air[..n + i];
    ComplementBits(bt);
    NextBit(btNorm, bt, i);
    NextBit(btInv, 255 - bt, i);
    RegisterStep(heard, btNorm);
    RegisterStep(Flip(heard), btInv);
    assert air[n + i] == LsbFirst(bt)[i];
    assert heard + [btNorm % 2 == 1] == air[..n + i + 1];
    assert Flip(heard) + [btInv % 2 == 1] == Flip(air[..n + i + 1]);
  }

  /** Synchronisation found `i` bits into byte `bt`; `i == 8` is its very end. */
  lemma LockedAt(air: seq<bool>, p: nat, i: nat, bt: byte)
    requires FirstSync(air, p) && 0 < i <= 8 && air[p..] == LsbFirst(bt)[i..]
    ensures SyncEnd(air) == p && Done(air) == 0 && StateOf(air) == GetLength
    ensures Payload(air) == LsbFirst(if PolarityOf(air) == Inverted then 255 - bt else bt)[i..]
    ensures PolarityOf(air) == (if EndsWith(air[..p], SYNC) then Normal else Inverted)
  {
    hide LsbFirst;
    ComplementBits(bt);
    assert p > 0;
    SyncEndIsFirst(air, p);
  }

  lemma StoredAtLock(air: seq<bool>, p: nat, i: nat, bt: byte, buf: seq<byte>)
    requires FirstSync(air, p) && 0 < i <= 8 && air[p..] == LsbFirst(bt)[i..]
    requires SyncEnd(air) == p && |buf| == MAX_RF_FRAME_SIZE && buf[0] == 0xB2 && buf[1] == 0x4D
    requires i < 8 ==> MsbFirst(buf[2])[i..] == LsbFirst(if PolarityOf(air) == Inverted then 255 - bt else bt)[i..]
    ensures Stored(air, buf, i % 8)
  {
    hide LsbFirst, MsbFirst;
    LockedAt(air, p, i, bt);
  }

  lemma {:induction false} RegisterIsValue(s: seq<bool>)
    requires |s| <= 8
    ensures Value(s) < 256 && Register(s) == Value(s)
  {
    if s != [] { RegisterIsValue(s[..|s| - 1]); }
    ByteValue(s);
  }

  lemma ByteValue(s: seq<bool>)
    requires |s| <= 8
    ensures Value(s) < 256
  {
    ValueBound(s);
    PowBound(|s|);
  }

  lemma {:induction false} PowBound(n: nat)
    requires n <= 8
    ensures Pow2(n) <= 256
    decreases 8 - n
  {
    assert Pow2(8) == 256;
    if n < 8 { PowBound(n + 1); }
  }

  lemma {:induction false} FlippedValue(s: seq<bool>)
    ensures Value(Flip(s)) == Pow2(|s|) - 1 - Value(s)
  {
    if s != [] {
      var n := |s| - 1;
      FlippedValue(s[..n]);
      assert Flip(s)[..n] == Flip(s[..n]);
    }
  }

  /** The registers after the first byte that is not zero. */
  lemma FirstByte(bt: byte)
    ensures Reflect8(bt) == Register(LsbFirst(bt)) && 255 - Reflect8(bt) == Register(Flip(LsbFirst(bt)))
    ensures StateOf(LsbFirst(bt)) == TryingSync && [] + LsbFirst(bt) == LsbFirst(bt)
  {
    hide LsbFirst, Register;
    assert Pow2(8) == 256;
    RegisterIsValue(LsbFirst(bt));
    RegisterIsValue(Flip(LsbFirst(bt)));
    FlippedValue(LsbFirst(bt));
    StillSearching(LsbFirst(bt));
  }

  lemma LengthByte(air: seq<bool>, buf: seq<byte>, o: nat)
    requires |buf| == MAX_RF_FRAME_SIZE && SyncEnd(air) > 0 && Done(air) > 0 && Stored(air, buf, o)
    ensures buf[2] == FrameByte(air, 0)
  {
  }

  // ---------------------------------------------------------------------------
  // Frames on the air
  // ---------------------------------------------------------------------------

  function Polarised(s: seq<bool>, inverted: bool): (r: seq<bool>)
    ensures |r| == |s|
  {
    if inverted then Flip(s) else s
  }

  /** A complete frame: code, length byte that counts itself and the data, data, CRC. */
  predicate IsFrame(frame: seq<byte>) {
    |frame| >= 5 && frame[0] == 0xB2 && frame[1] == 0x4D && frame[2] >= 1 && |frame| - 4 == frame[2]
  }

  /** A frame's beginning: the code and a length byte. */
  predicate Coded(frame: seq<byte>) { |frame| >= 3 && frame[0] == 0xB2 && frame[1] == 0x4D }

  /** How many bits the line has carried when the reader has enough: with length byte 1 it reads one byte too many. */
  function Enough(frame: seq<byte>, m: nat): nat
    requires IsFrame(frame)
  {
    m + 8 * |frame| + (if frame[2] == 1 then 8 else 0)
  }

  lemma SyncEitherWay(s: seq<bool>, p: nat)
    ensures SyncAt(Flip(s), p) <==> SyncAt(s, p)
  {
    if p <= |s| {
      assert Flip(s)[..p] == Flip(s[..p]);
      assert Flip(Flip(SYNC)) == SYNC;
      FlippedEnd(s[..p], SYNC);
      FlippedEnd(s[..p], Flip(SYNC));
    }
  }

  /** A zero preamble of any length followed by the code has no earlier match. */
  lemma NoEarlyMatch(s: seq<bool>, m: nat, q: nat)
    requires |s| >= m + 16 && s[..m + 16] == Zeros(m) + SYNC && q < m + 16
    ensures !SyncAt(s, q)
  {
    if 16 <= q {
      var w := s[..q][q - 16..];
      assert forall i :: 0 <= i < 16 ==> w[i] == (Zeros(m) + SYNC)[q - 16 + i];
      assert !w[0] && (q - 15 < m ==> !w[1]);
      var f := Flip(SYNC);
      assert SYNC[0] && f[1] && !f[3];
      if q - 15 >= m { assert w[3] == SYNC[2]; }
      assert w != SYNC && w != f;
    }
  }

  lemma FirstMatch(s: seq<bool>, m: nat, inverted: bool)
    requires |s| >= m + 16 && s[..m + 16] == Polarised(Zeros(m) + SYNC, inverted)
    ensures SyncEnd(s) == m + 16
    ensures PolarityOf(s) == if inverted then Inverted else Normal
  {
    var t := Polarised(s, inverted);
    assert Flip(Flip(s)) == s;
    assert Flip(Flip(Zeros(m) + SYNC)) == Zeros(m) + SYNC;
    assert t[..m + 16] == Polarised(s[..m + 16], inverted);
    forall q: nat | q < m + 16 ensures !SyncAt(s, q) {
      NoEarlyMatch(t, m, q);
      SyncEitherWay(t, q);
    }
    assert s[..m + 16][m..] == Polarised(SYNC, inverted);
    NotBothCodes(s[..m + 16]);
    SyncEndIsFirst(s, m + 16);
  }

  /** What the line carries: a zero preamble, the frame, and anything that follows, in either polarity. */
  function Sent(frame: seq<byte>, m: nat, tail: seq<bool>): (s: seq<bool>)
    ensures |s| == m + 8 * |frame| + |tail|
  {
    Zeros(m) + Stream(frame, false) + tail
  }

  lemma BeforeSync(frame: seq<byte>, m: nat, inverted: bool, tail: seq<bool>, n: nat)
    requires Coded(frame) && 0 < n < m + 16
    ensures StateOf(Polarised(Sent(frame, m, tail), inverted)[..n]) == TryingSync
  {
    hide Stream, SyncEnd, SyncAt;
    var sent := Sent(frame, m, tail);
    var line := Polarised(sent, inverted);
    var air := line[..n];
    FrameStarts(frame);
    assert sent[..m + 16] == Zeros(m) + SYNC;
    assert line[..m + 16] == Polarised(Zeros(m) + SYNC, inverted);
    FirstMatch(line, m, inverted);
    SyncEndIsFirst(line, m + 16);
    forall q: nat | q <= |air| ensures !SyncAt(air, q) {
      assert !SyncAt(line, q);
      SyncPrefix(line, n, q);
    }
    StillSearching(air);
  }

  lemma SyncPrefix(line: seq<bool>, n: nat, q: nat)
    requires q <= n <= |line|
    ensures SyncAt(line[..n], q) <==> SyncAt(line, q)
  {
    assert line[..n][..q] == line[..q];
  }

  /** From the end of the code on, the reader's bytes are those of the frame. */
  lemma AfterCode(frame: seq<byte>, m: nat, inverted: bool, tail: seq<bool>, n: nat, air: seq<bool>)
    requires Coded(frame) && m + 16 <= n <= |Sent(frame, m, tail)|
    requires air == Polarised(Sent(frame, m, tail), inverted)[..n]
    ensures SyncEnd(air) == m + 16 && Done(air) == (n - m - 16) / 8
    ensures forall k :: 0 <= k < Done(air) && k + 2 < |frame| ==> FrameByte(air, k) == frame[2 + k]
  {
    hide Stream, SyncEnd, MsbFirst, FrameByte;
    var bits, sent := Stream(frame, false), Sent(frame, m, tail);
    FrameStarts(frame);
    assert sent[..m + 16] == Zeros(m) + SYNC;
    assert air[..m + 16] == Polarised(sent[..m + 16], inverted);
    FirstMatch(air, m, inverted);
    PayloadSent(sent, m, inverted, n, air);
    forall k | 0 <= k < Done(air) && k + 2 < |frame| ensures FrameByte(air, k) == frame[2 + k] {
      StreamAt(frame, false, k + 2);
      SliceSent(bits, m, tail, n, k);
      FrameByteIs(air, k, frame[2 + k]);
    }
  }

  lemma AfterSync(frame: seq<byte>, m: nat, inverted: bool, tail: seq<bool>, n: nat, air: seq<bool>)
    requires IsFrame(frame) && m + 16 <= n <= |Sent(frame, m, tail)|
    requires air == Polarised(Sent(frame, m, tail), inverted)[..n]
    ensures SyncEnd(air) == m + 16 && Done(air) == (n - m - 16) / 8
    ensures forall k :: 0 <= k < Done(air) && k + 2 < |frame| ==> FrameByte(air, k) == frame[2 + k]
    ensures StateOf(air) == Full <==> n >= Enough(frame, m)
  {
    hide Stream, SyncEnd, MsbFirst, FrameByte, Polarised, Sent;
    AfterCode(frame, m, inverted, tail, n, air);
  }

  lemma PayloadSent(sent: seq<bool>, m: nat, inverted: bool, n: nat, air: seq<bool>)
    requires m + 16 <= n <= |sent| && air == Polarised(sent, inverted)[..n]
    requires SyncEnd(air) == m + 16 && PolarityOf(air) == if inverted then Inverted else Normal
    ensures Payload(air) == sent[m + 16..n]
  {
    hide SyncEnd, PolarityOf;
  }

  lemma SliceSent(bits: seq<bool>, m: nat, tail: seq<bool>, n: nat, k: nat)
    requires m + 16 <= n <= m + |bits| + |tail| && 8 * k + 24 <= |bits| && 8 * k + 8 <= n - m - 16
    ensures (Zeros(m) + bits + tail)[m + 16..n][8 * k..8 * k + 8] == bits[8 * (k + 2)..8 * (k + 2) + 8]
  {
    var x := Zeros(m) + bits + tail;
    assert x[m + 16..n][8 * k..8 * k + 8] == x[m + 16 + 8 * k..m + 24 + 8 * k];
    assert x[m..m + |bits|] == bits;
    assert x[m + 16 + 8 * k..m + 24 + 8 * k] == x[m..m + |bits|][16 + 8 * k..24 + 8 * k];
  }

  lemma FrameStarts(frame: seq<byte>)
    requires Coded(frame)
    ensures Stream(frame, false)[..16] == SYNC
  {
    hide Stream;
    StreamAt(frame, false, 0);
    StreamAt(frame, false, 1);
    SyncCode();
    assert Stream(frame, false)[..16] == Stream(frame, false)[..8] + Stream(frame, false)[8..16];
  }

  lemma {:induction false} HearOneMore(air: seq<bool>, bytes: seq<byte>, bt: byte)
    ensures HearAll(air, bytes + [bt]) == Hear(HearAll(air, bytes), bt)
    decreases |bytes|
  {
    hide Hear;
    if bytes == [] {
      assert HearAll(Hear(air, bt), []) == Hear(air, bt);
    } else {
      HearOneMore(Hear(air, bytes[0]), bytes[1..], bt);
      assert (bytes + [bt])[1..] == bytes[1..] + [bt];
    }
  }

  /** Zero bytes heard before anything else are skipped: only whole preamble bytes at normal polarity. */
  function Skipped(m: nat, inverted: bool): nat { if inverted then 0 else m / 8 }

  /** What the reader remembers after `n` received bytes of a frame transmission. */
  ghost function Remembered(frame: seq<byte>, m: nat, inverted: bool, tail: seq<bool>, n: nat): seq<bool>
    requires IsFrame(frame) && 8 * n <= |Sent(frame, m, tail)|
  {
    var z, last := Skipped(m, inverted), (Enough(frame, m) + 7) / 8;
    if n <= z then []
    else Polarised(Sent(frame, m, tail), inverted)[8 * z..if n <= last then 8 * n else 8 * last]
  }

  lemma ShorterPreamble(frame: seq<byte>, m: nat, z: nat, inverted: bool, tail: seq<bool>, n: nat)
    requires 8 * z <= m && 8 * z <= n <= |Sent(frame, m, tail)|
    ensures Polarised(Sent(frame, m, tail), inverted)[8 * z..n]
         == Polarised(Sent(frame, m - 8 * z, tail), inverted)[..n - 8 * z]
  {
    hide Stream;
    var r := Stream(frame, false) + tail;
    DropZeros(8 * z, m - 8 * z, r);
    SentIs(frame, m, tail);
    SentIs(frame, m - 8 * z, tail);
    hide Sent;
    var s, t := Sent(frame, m, tail), Sent(frame, m - 8 * z, tail);
    CutBoth(s, t, 8 * z, n);
    CutBoth(Flip(s), Flip(t), 8 * z, n);
  }

  lemma SentIs(frame: seq<byte>, m: nat, tail: seq<bool>)
    ensures Sent(frame, m, tail) == Zeros(m) + (Stream(frame, false) + tail)
  {
    hide Stream;
  }

  lemma DropZeros(a: nat, b: nat, r: seq<bool>)
    ensures (Zeros(a + b) + r)[a..] == Zeros(b) + r
    ensures Flip(Zeros(a + b) + r)[a..] == Flip(Zeros(b) + r)
  {
  }

  lemma CutBoth(s: seq<bool>, t: seq<bool>, k: nat, n: nat)
    requires k <= n <= |s| && s[k..] == t
    ensures s[k..n] == t[..n - k]
  {
  }

  /** The `n`-th received byte: zero exactly while whole preamble bytes arrive at normal polarity. */
  lemma {:induction false} ReceivedByte(frame: seq<byte>, m: nat, inverted: bool, tail: seq<bool>, bytes: seq<byte>,
                                        n: nat)
    requires Coded(frame) && n < |bytes| && n <= Skipped(m, inverted) && 8 * |bytes| <= |Sent(frame, m, tail)|
    requires Stream(bytes, true) == Polarised(Sent(frame, m, tail), inverted)[..8 * |bytes|]
    ensures bytes[n] == 0 <==> n < Skipped(m, inverted)
  {
    hide Stream, LsbFirst;
    var sent := Sent(frame, m, tail);
    var line, b := Polarised(sent, inverted), LsbFirst(bytes[n]);
    StreamAt(bytes, true, n);
    LsbFirstZero(bytes[n]);
    FrameStarts(frame);
    assert b == line[..8 * |bytes|][8 * n..8 * n + 8] == line[8 * n..8 * n + 8];
    if n < Skipped(m, inverted) {
      assert b == Zeros(m)[8 * n..8 * n + 8] == Zeros(8);
    } else {
      var first := if inverted then 0 else m - 8 * n;
      var code := Stream(frame, false)[..16];
      if inverted && m == 0 {
        assert b[1] == !code[1];
      } else {
        assert b[first] == if inverted then !Zeros(m)[0] else code[0];
      }
      assert Zeros(8)[first] == Zeros(8)[1] == false;
    }
  }

  lemma {:induction false} HeardAll(frame: seq<byte>, m: nat, inverted: bool, tail: seq<bool>, bytes: seq<byte>, n: nat)
    requires IsFrame(frame) && n <= |bytes| && 8 * |bytes| <= |Sent(frame, m, tail)|
    requires Stream(bytes, true) == Polarised(Sent(frame, m, tail), inverted)[..8 * |bytes|]
    ensures HearAll([], bytes[..n]) == Remembered(frame, m, inverted, tail, n)
  {
    hide Stream, LsbFirst, StateOf, SyncEnd, Sent;
    if n > 0 {
      var k := n - 1;
      HeardAll(frame, m, inverted, tail, bytes, k);
      HearOneMore([], bytes[..k], bytes[k]);
      assert bytes[..n] == bytes[..k] + [bytes[k]];
      HeardStep(frame, m, inverted, tail, bytes, k);
    }
  }

  lemma {:induction false} HeardStep(frame: seq<byte>, m: nat, inverted: bool, tail: seq<bool>, bytes: seq<byte>,
                                     k: nat)
    requires IsFrame(frame) && k < |bytes| && 8 * |bytes| <= |Sent(frame, m, tail)|
    requires Stream(bytes, true) == Polarised(Sent(frame, m, tail), inverted)[..8 * |bytes|]
    ensures Hear(Remembered(frame, m, inverted, tail, k), bytes[k]) == Remembered(frame, m, inverted, tail, k + 1)
  {
    hide Stream, LsbFirst, SyncEnd, Sent, Polarised, FrameByte, StateOf, Hear;
    var z, last := Skipped(m, inverted), (Enough(frame, m) + 7) / 8;
    var line := Polarised(Sent(frame, m, tail), inverted);
    if k < z {
      ReceivedByte(frame, m, inverted, tail, bytes, k);
      HearSilence(bytes[k]);
    } else if k >= last {
      Known(frame, m, inverted, tail, 8 * last);
      HearWhenFull(line[8 * z..8 * last], bytes[k]);
    } else {
      HeardWithin(frame, m, inverted, tail, bytes, k, line);
      assert k == z ==> line[8 * z..8 * k] == [];
    }
  }

  lemma {:induction false} HeardWithin(frame: seq<byte>, m: nat, inverted: bool, tail: seq<bool>, bytes: seq<byte>,
                                       k: nat, line: seq<bool>)
    requires IsFrame(frame) && k < |bytes| && 8 * |bytes| <= |line| && line == Polarised(Sent(frame, m, tail), inverted)
    requires Stream(bytes, true) == line[..8 * |bytes|]
    requires Skipped(m, inverted) <= k < (Enough(frame, m) + 7) / 8
    ensures Hear(line[8 * Skipped(m, inverted)..8 * k], bytes[k]) == line[8 * Skipped(m, inverted)..8 * (k + 1)]
  {
    hide Stream, LsbFirst, SyncEnd, Sent, Polarised, FrameByte, StateOf, Hear, Done, Holds;
    var z, bt := Skipped(m, inverted), bytes[k];
    var before, after := line[8 * z..8 * k], line[8 * z..8 * (k + 1)];
    assert after == before + LsbFirst(bt) by {
      StreamAt(bytes, true, k);
      NextSlice(line, 8 * |bytes|, 8 * z, 8 * k);
    }
    assert StateOf(before) != Full && (before != [] || bt != 0) by {
      if k > z {
        Known(frame, m, inverted, tail, 8 * k);
      } else {
        ReceivedByte(frame, m, inverted, tail, bytes, k);
        HearSilence(0);
        assert before == [];
      }
    }
    Known(frame, m, inverted, tail, 8 * (k + 1));
    HearMore(before, bt, after);
  }

  lemma HearSilence(bt: byte)
    ensures StateOf([]) == Unsyncd && (bt == 0 ==> Hear([], bt) == [])
  {
  }

  lemma HearWhenFull(air: seq<bool>, bt: byte)
    requires StateOf(air) == Full
    ensures Hear(air, bt) == air
  {
  }

  lemma HearMore(air: seq<bool>, bt: byte, longer: seq<bool>)
    requires StateOf(air) != Full && (air != [] || bt != 0) && longer == air + LsbFirst(bt)
    requires SyncEnd(longer) > 0 && Done(longer) > 0 ==> FrameByte(longer, 0) != 0
    ensures Hear(air, bt) == longer
  {
    hide StateOf;
  }

  lemma NextSlice(line: seq<bool>, n: nat, a: nat, b: nat)
    requires a <= b && b + 8 <= n <= |line|
    ensures line[a..b] + line[..n][b..b + 8] == line[a..b + 8]
  {
  }

  /** Every byte of the frame after its code has been read. */
  ghost predicate Holds(air: seq<bool>, frame: seq<byte>) {
    && SyncEnd(air) > 0 && Done(air) >= |frame| - 2
    && forall k :: 0 <= k < |frame| - 2 ==> FrameByte(air, k) == frame[2 + k]
  }

  /** The reader's state after the line has carried `n` bits, with the skipped zero bytes forgotten. */
  lemma Known(frame: seq<byte>, m: nat, inverted: bool, tail: seq<bool>, n: nat)
    requires IsFrame(frame) && 8 * Skipped(m, inverted) < n <= |Sent(frame, m, tail)|
    ensures
      var air := Polarised(Sent(frame, m, tail), inverted)[8 * Skipped(m, inverted)..n];
      && StateOf(air) != Unsyncd && (StateOf(air) == Full <==> n >= Enough(frame, m))
      && (SyncEnd(air) > 0 && Done(air) > 0 ==> FrameByte(air, 0) == frame[2])
      && (n >= m + 8 * |frame| ==> Holds(air, frame))
  {
    hide Stream, SyncEnd, FrameByte, Polarised;
    var z := Skipped(m, inverted);
    var s := m - 8 * z;
    ShorterPreamble(frame, m, z, inverted, tail, n);
    var air := Polarised(Sent(frame, s, tail), inverted)[..n - 8 * z];
    if n - 8 * z < s + 16 {
      BeforeSync(frame, s, inverted, tail, n - 8 * z);
      Searching(air);
    } else {
      AfterSync(frame, s, inverted, tail, n - 8 * z, air);
    }
  }

  /**
    Whatever the alignment of the received bytes and whatever the polarity, the reader is full exactly
    when the byte that holds the last bit of the frame has arrived (with length byte 1, the byte behind
    it), and then holds the bytes sent.
   */
  lemma FrameReceived(frame: seq<byte>, m: nat, inverted: bool, tail: seq<bool>, bytes: seq<byte>)
    requires IsFrame(frame) && 8 * |bytes| <= |Sent(frame, m, tail)|
    requires Stream(bytes, true) == Polarised(Sent(frame, m, tail), inverted)[..8 * |bytes|]
    ensures
      var air := HearAll([], bytes);
      && (StateOf(air) == Full <==> 8 * |bytes| >= Enough(frame, m))
      && (StateOf(air) == Full ==> Holds(air, frame))
  {
    hide Stream, SyncEnd, FrameByte, Polarised, Sent;
    HeardAll(frame, m, inverted, tail, bytes, |bytes|);
    assert bytes[..|bytes|] == bytes;
    var z, last := Skipped(m, inverted), (Enough(frame, m) + 7) / 8;
    if |bytes| > z { Known(frame, m, inverted, tail, 8 * (if |bytes| <= last then |bytes| else last)); }
  }

  /** Feeds received bytes to the receiver until it is full. */
  method Receive(f: FelicaFrame, bytes: seq<byte>) returns (used: nat)
    requires f.Valid() && f.air == []
    modifies f, f.framebytes
    ensures f.Valid() && used <= |bytes| && f.air == HearAll([], bytes[..used])
    ensures f.state == Full || used == |bytes|
    ensures forall n :: 0 <= n < used ==> StateOf(HearAll([], bytes[..n])) != Full
  {
    hide Hear, StateOf;
    used := 0;
    while used < |bytes| && f.state != Full
      invariant f.Valid() && used <= |bytes| && f.air == HearAll([], bytes[..used])
      invariant forall n :: 0 <= n < used ==> StateOf(HearAll([], bytes[..n])) != Full
    {
      assert bytes[..used + 1] == bytes[..used] + [bytes[used]];
      HearOneMore([], bytes[..used], bytes[used]);
      f.Process18092Byte(bytes[used]);
      used := used + 1;
    }
  }

  /** A whole frame, received: the buffer starts with the frame, and no byte past the last one needed is consumed. */
  method ReceiveFrame(f: FelicaFrame, bytes: seq<byte>, ghost frame: seq<byte>, ghost m: nat,
                      ghost inverted: bool, ghost tail: seq<bool>) returns (used: nat)
    requires f.Valid() && f.air == [] && IsFrame(frame)
    requires Enough(frame, m) <= 8 * |bytes| <= |Sent(frame, m, tail)|
    requires Stream(bytes, true) == Polarised(Sent(frame, m, tail), inverted)[..8 * |bytes|]
    modifies f, f.framebytes
    ensures f.Valid() && f.state == Full && f.len == |frame|
    ensures f.framebytes[..f.len] == frame
    ensures f.crcOk == f.checkCrc(frame[2..])
    ensures used == (Enough(frame, m) + 7) / 8
  {
    hide Stream, Sent, Polarised, StateOf, Hear;
    used := Receive(f, bytes);
    forall n | 0 <= n <= |bytes|
      ensures StateOf(HearAll([], bytes[..n])) == Full ==> Holds(HearAll([], bytes[..n]), frame)
      ensures StateOf(HearAll([], bytes[..n])) == Full <==> 8 * n >= Enough(frame, m)
    {
      StreamPrefix(bytes, n);
      var line := Polarised(Sent(frame, m, tail), inverted);
      assert line[..8 * |bytes|][..8 * n] == line[..8 * n];
      FrameReceived(frame, m, inverted, tail, bytes[..n]);
    }
    ghost var least := (Enough(frame, m) + 7) / 8;
    ghost var atLeast := HearAll([], bytes[..least]);
    BufferHolds(f.air, f.framebytes[..], f.byteOffset, frame);
    assert f.framebytes[..f.len] == frame;
    assert f.framebytes[2..f.len] == frame[2..];
  }

  lemma BufferHolds(air: seq<bool>, buf: seq<byte>, o: nat, frame: seq<byte>)
    requires |buf| == MAX_RF_FRAME_SIZE && IsFrame(frame) && Holds(air, frame) && Stored(air, buf, o)
    ensures buf[..|frame|] == frame
  {
    hide FrameByte, SyncEnd;
    forall k | 0 <= k < |frame| ensures buf[k] == frame[k] {
      if k >= 2 { assert buf[2 + (k - 2)] == FrameByte(air, k - 2); }
    }
  }

  /** When the last bit of a frame has just arrived, the reader is full unless the length byte is 1. */
  lemma {:induction false} LengthOneOverreads(frame: seq<byte>, m: nat, inverted: bool, tail: seq<bool>,
                                              bytes: seq<byte>)
    requires IsFrame(frame) && 8 * |bytes| <= |Sent(frame, m, tail)|
    requires Stream(bytes, true) == Polarised(Sent(frame, m, tail), inverted)[..8 * |bytes|]
    requires m + 8 * |frame| <= 8 * |bytes| < m + 8 * |frame| + 8
    ensures StateOf(HearAll([], bytes)) == Full <==> frame[2] != 1
  {
    hide Stream, Sent, Polarised, StateOf, HearAll, Holds;
    FrameReceived(frame, m, inverted, tail, bytes);
  }

  // ---------------------------------------------------------------------------
  // A frame without length
  // ---------------------------------------------------------------------------

  lemma {:induction false} HearAppend(air: seq<bool>, a: seq<byte>, b: seq<byte>)
    ensures HearAll(air, a + b) == HearAll(HearAll(air, a), b)
    decreases |a|
  {
    hide Hear;
    if a == [] {
      assert a + b == b;
    } else {
      HearAppend(Hear(air, a[0]), a[1..], b);
      assert (a + b)[1..] == a[1..] + b;
    }
  }

  /** What is on the line when `n` bits have been heard, a byte at a time, the skipped zeros forgotten. */
  ghost function Partly(frame: seq<byte>, m: nat, inverted: bool, tail: seq<bool>, n: nat): seq<bool>
    requires 8 * n <= |Sent(frame, m, tail)|
  {
    var z := Skipped(m, inverted);
    if n <= z then [] else Polarised(Sent(frame, m, tail), inverted)[8 * z..8 * n]
  }

  /** Before and behind the end of the code: what the reader knows. */
  lemma PartlyKnown(frame: seq<byte>, m: nat, inverted: bool, tail: seq<bool>, n: nat)
    requires Coded(frame) && Skipped(m, inverted) < n && 8 * n <= |Sent(frame, m, tail)|
    ensures
      var air := Partly(frame, m, inverted, tail, n);
      && air != []
      && (8 * n < m + 24 ==> StateOf(air) != Full && (SyncEnd(air) > 0 ==> Done(air) == 0))
      && (m + 16 <= 8 * n ==> SyncEnd(air) > 0 && Done(air) == (8 * n - m - 16) / 8)
      && (m + 24 <= 8 * n ==> FrameByte(air, 0) == frame[2])
  {
    hide Stream, SyncEnd, FrameByte, Polarised, Sent, StateOf, Done;
    assert 8 * Skipped(m, inverted) <= m;
    var z := Skipped(m, inverted);
    var s := m - 8 * z;
    ShorterPreamble(frame, m, z, inverted, tail, 8 * n);
    var air := Polarised(Sent(frame, s, tail), inverted)[..8 * n - 8 * z];
    if 8 * n < m + 16 {
      BeforeSync(frame, s, inverted, tail, 8 * n - 8 * z);
      Searching(air);
      assert StateOf(air) != Full;
    } else {
      AfterCode(frame, s, inverted, tail, 8 * n - 8 * z, air);
      Coming(air);
    }
  }

  lemma Coming(air: seq<bool>)
    requires SyncEnd(air) > 0
    ensures air != [] && (Done(air) == 0 ==> StateOf(air) == GetLength)
  {
    hide SyncEnd;
    assert SyncEnd([]) == 0 by { NoCodeYet(); }
  }

  lemma NoCodeYet()
    ensures SyncEnd([]) == 0
  {
  }

  lemma PartlyStep(frame: seq<byte>, m: nat, inverted: bool, tail: seq<bool>, k: nat)
    requires 8 * k + 8 <= |Sent(frame, m, tail)|
    ensures k <= Skipped(m, inverted) ==> Partly(frame, m, inverted, tail, k) == []
    ensures k >= Skipped(m, inverted) ==>
      Partly(frame, m, inverted, tail, k + 1)
        == Partly(frame, m, inverted, tail, k) + Polarised(Sent(frame, m, tail), inverted)[8 * k..8 * k + 8]
  {
    hide Sent, Polarised, Skipped;
    var line := Polarised(Sent(frame, m, tail), inverted);
    if k > Skipped(m, inverted) { NextSlice(line, |line|, 8 * Skipped(m, inverted), 8 * k); }
  }

  lemma {:induction false} ByteOnLine(bytes: seq<byte>, line: seq<bool>, k: nat)
    requires k < |bytes| && 8 * |bytes| <= |line| && Stream(bytes, true) == line[..8 * |bytes|]
    ensures LsbFirst(bytes[k]) == line[8 * k..8 * k + 8]
  {
    hide Stream, LsbFirst;
    StreamAt(bytes, true, k);
  }

  /** One more byte of the line: zero while whole preamble bytes are skipped, and otherwise behind what was heard. */
  lemma {:induction false} HeardByte(frame: seq<byte>, m: nat, inverted: bool, tail: seq<bool>, bytes: seq<byte>,
                                     k: nat)
    requires Coded(frame) && k < |bytes| && 8 * |bytes| <= |Sent(frame, m, tail)| && 8 * k < m + 24
    requires Stream(bytes, true) == Polarised(Sent(frame, m, tail), inverted)[..8 * |bytes|]
    ensures
      var before, after := Partly(frame, m, inverted, tail, k), Partly(frame, m, inverted, tail, k + 1);
      if k < Skipped(m, inverted) then bytes[k] == 0 && before == after == []
      else after == before + LsbFirst(bytes[k]) && StateOf(before) != Full && (before != [] || bytes[k] != 0)
  {
    hide Stream, LsbFirst, SyncEnd, Sent, Polarised, FrameByte, StateOf, Done, Partly, Skipped, Coded;
    PartlyStep(frame, m, inverted, tail, k);
    if k < Skipped(m, inverted) { PartlyNone(frame, m, inverted, tail, k + 1); }
    if k <= Skipped(m, inverted) {
      ReceivedByte(frame, m, inverted, tail, bytes, k);
      HearSilence(0);
    } else {
      PartlyKnown(frame, m, inverted, tail, k);
    }
    ByteOnLine(bytes, Polarised(Sent(frame, m, tail), inverted), k);
  }

  lemma PartlyNone(frame: seq<byte>, m: nat, inverted: bool, tail: seq<bool>, n: nat)
    requires 8 * n <= |Sent(frame, m, tail)| && n <= Skipped(m, inverted)
    ensures Partly(frame, m, inverted, tail, n) == []
  {
  }

  lemma {:induction false} HeardPartly(frame: seq<byte>, m: nat, inverted: bool, tail: seq<bool>, bytes: seq<byte>,
                                       n: nat)
    requires Coded(frame) && n <= |bytes| && 8 * |bytes| <= |Sent(frame, m, tail)| && 8 * n < m + 24
    requires Stream(bytes, true) == Polarised(Sent(frame, m, tail), inverted)[..8 * |bytes|]
    ensures HearAll([], bytes[..n]) == Partly(frame, m, inverted, tail, n)
  {
    hide Stream, LsbFirst, SyncEnd, Sent, Polarised, FrameByte, StateOf, Hear, Done, Partly, Skipped, Coded, HearAll;
    if n > 0 {
      var k := n - 1;
      HeardPartly(frame, m, inverted, tail, bytes, k);
      assert bytes[..n] == bytes[..k] + [bytes[k]];
      HearOneMore([], bytes[..k], bytes[k]);
      HeardByte(frame, m, inverted, tail, bytes, k);
      if k < Skipped(m, inverted) {
        HearSilence(bytes[k]);
      } else {
        PartlyKnown(frame, m, inverted, tail, n);
        HearMore(Partly(frame, m, inverted, tail, k), bytes[k], Partly(frame, m, inverted, tail, n));
      }
    } else {
      PartlyNone(frame, m, inverted, tail, 0);
      assert bytes[..0] == [];
      NothingHeard();
    }
  }

  lemma NothingHeard()
    ensures HearAll([], []) == []
  {
  }

  /**
    A frame with length byte 0 is dropped with the byte that completes its length, whatever the alignment and the
    polarity: the reader is as if it had heard nothing, and receives what comes behind it like a fresh one.
   */
  lemma {:induction false} ZeroLengthDropped(frame: seq<byte>, m: nat, inverted: bool, tail: seq<bool>,
                                             bytes: seq<byte>, later: seq<byte>)
    requires Coded(frame) && frame[2] == 0 && bytes != [] && 8 * |bytes| <= |Sent(frame, m, tail)|
    requires Stream(bytes, true) == Polarised(Sent(frame, m, tail), inverted)[..8 * |bytes|]
    requires m + 24 <= 8 * |bytes| < m + 32
    ensures HearAll([], bytes + later) == HearAll([], later)
  {
    hide Stream, LsbFirst, SyncEnd, Sent, Polarised, FrameByte, HearAll, Hear, StateOf, Done, Partly, Coded;
    var k := |bytes| - 1;
    HeardPartly(frame, m, inverted, tail, bytes, k);
    assert bytes == bytes[..k] + [bytes[k]];
    HearOneMore([], bytes[..k], bytes[k]);
    HearAppend([], bytes, later);
    HeardByte(frame, m, inverted, tail, bytes, k);
    PartlyKnown(frame, m, inverted, tail, k);
    PartlyKnown(frame, m, inverted, tail, k + 1);
    NoLength(Partly(frame, m, inverted, tail, k), bytes[k]);
  }

  lemma NoLength(air: seq<bool>, bt: byte)
    requires air != [] && SyncEnd(air) > 0 && Done(air) == 0
    requires
      var longer := air + LsbFirst(bt);
      SyncEnd(longer) > 0 && Done(longer) > 0 && FrameByte(longer, 0) == 0
    ensures Hear(air, bt) == []
  {
    hide LsbFirst;
  }
}
