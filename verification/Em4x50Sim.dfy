/**
  The EM4x50 tag simulator: a command state machine over the tag's words.  What the reader is heard to send,
  and what each listen window brings, are inputs.
 */
module Em4x50Sim {
  import opened Bits
  import opened Em4x50Word
  import opened Em4x50Line

  const NO_WORDS: nat := 34
  const DEVICE_PASSWORD: nat := 0
  const PROTECTION: nat := 1
  const CONTROL: nat := 2
  const DEVICE_SERIAL: nat := 32
  const DEVICE_ID: nat := 33

  const COMMAND_LOGIN: int := 0x01
  const COMMAND_RESET: int := 0x80
  const COMMAND_WRITE: int := 0x12
  const COMMAND_WRITE_PASSWORD: int := 0x11
  const COMMAND_SELECTIVE_READ: int := 0x0A
  const COMMAND_STANDARD_READ: int := 0x02
  const SUCCESS: int := 0
  const ETIMEOUT: int := -4

  // ---------------------------------------------------------------------------
  // Protection
  // ---------------------------------------------------------------------------

  function ReverseWord(x: word32): word32 { Reflect32(x) }

  /** First and last word protected against reading. */
  function FirstRead(protection: word32): nat { ReverseWord(protection) % 256 }
  function LastRead(protection: word32): nat { Shr(ReverseWord(protection), 8) % 256 }

  /** First and last word protected against writing, as the write handler works them out. */
  function FirstWrite(protection: word32): nat { Reflect8(Shr(protection, 24) % 256) }
  function LastWrite(protection: word32): nat { Reflect8(Shr(protection, 16) % 256) }

  /** A byte of the reversed word is the reversal of the opposite byte. */
  lemma {:induction false} ReversedField(x: word32, k: nat)
    requires k <= 24
    ensures Reflect8(Shr(x, 24 - k) % 256) == Shr(ReverseWord(x), k) % 256
  {
    hide BitsOf, BitsUp, Shr;
    assert Pow2(8) == 256;
    var r := ReverseWord(x);
    var b := Shr(x, 24 - k) % 256;
    FieldBits(r, 32, k, 8);
    ModBitsUp(Shr(x, 24 - k), 8);
    ShrBitsUp(x, 24 - k, 8);
    PrefixBitsUp(x, 32, 32 - k);
    var up := BitsUp(x, 32);
    assert up[24 - k..32 - k] == up[..32 - k][24 - k..];
    ByteIsBitsUp(b);
    ByteOfBits(BitsUp(b, 8), Shr(r, k) % 256);
    MsbIsBits(Shr(r, k) % 256);
  }

  lemma ByteIsBitsUp(b: byte)
    ensures LsbFirst(b) == BitsUp(b, 8)
  {
  }

  /**
    The words protected against writing are those protected against reading: the third and fourth byte of
    the protection word, meant for the write range, are never looked at.
   */
  lemma WriteRangeIsReadRange(protection: word32)
    ensures FirstWrite(protection) == FirstRead(protection) && LastWrite(protection) == LastRead(protection)
  {
    ReversedField(protection, 0);
    ReversedField(protection, 8);
  }

  // ---------------------------------------------------------------------------
  // What each command may do
  // ---------------------------------------------------------------------------

  type Words = t: seq<word32> | |t| == NO_WORDS witness seq(NO_WORDS, _ => 0)

  datatype Sim = Sim(tag: Words, login: bool, writePassword: bool, password: word32)

  /** What a listen window brings: nothing, no field, or a request for receive mode and a command byte. */
  datatype Window = Quiet | Lost | Request(command: byte)

  /** What the reader sends during one command; `windows` ends when the button is pressed. */
  datatype Input = Input(addrOk: bool, addr: nat, wordOk: bool, word: word32, word2Ok: bool, word2: word32,
                         windows: seq<Window>)

  function WindowAt(i: Input, k: nat): Window { if k < |i.windows| then i.windows[k] else Lost }

  function WindowResult(w: Window, writePassword: bool): int {
    match w
    case Quiet => SUCCESS
    case Lost => ETIMEOUT
    case Request(c) => if writePassword then COMMAND_WRITE_PASSWORD else c
  }

  predicate Protected(tag: Words, a: nat) {
    FirstRead(tag[PROTECTION]) <= a <= LastRead(tag[PROTECTION])
  }

  /** Identity words and the password are never writable; the rest as the protection word and the login say. */
  predicate Writable(s: Sim, a: nat) {
    && a != DEVICE_PASSWORD && a != DEVICE_SERIAL && a != DEVICE_ID
    && (a == PROTECTION || a == CONTROL || Protected(s.tag, a) ==> s.login)
  }

  predicate SuppliesPassword(s: Sim, command: int, i: Input) {
    && (command == COMMAND_LOGIN || command == COMMAND_WRITE_PASSWORD)
    && i.wordOk && i.word == ReverseWord(s.tag[DEVICE_PASSWORD])
  }

  /** The tag is changed: both words were read, and the addressed word is writable. */
  predicate Writes(s: Sim, command: int, i: Input) {
    command == COMMAND_WRITE && i.addrOk && i.wordOk && Writable(s, i.addr)
  }

  /** The simulator has no word beyond the last, and the write handler does not check: it writes behind its array. */
  predicate Overruns(s: Sim, command: int, i: Input) { Writes(s, command, i) && i.addr >= NO_WORDS }

  function Effect(s: Sim, command: int, i: Input): Sim
    requires !Overruns(s, command, i)
  {
    if command == COMMAND_LOGIN then
      if SuppliesPassword(s, command, i) then s.(login := true) else s.(login := false, password := i.word)
    else if command == COMMAND_RESET then s.(login := false)
    else if Writes(s, command, i) then s.(tag := s.tag[i.addr := ReverseWord(i.word)])
    else if command == COMMAND_WRITE_PASSWORD then
      if !SuppliesPassword(s, command, i) then s.(login := false, writePassword := false, password := i.word)
      else if WindowAt(i, 0).Request? && i.word2Ok then
        Sim(s.tag[DEVICE_PASSWORD := ReverseWord(i.word2)], true, false, i.word2)
      else s.(login := true, writePassword := false)
    else s
  }

  function ReadAfterWrite(tag: Words): bool { Shr(tag[CONTROL], 2) / 64 % 2 == 1 }

  // ---------------------------------------------------------------------------
  // What each command sends, and what follows it
  // ---------------------------------------------------------------------------

  /** Nothing comes in: the simulator goes on sending. */
  predicate Silent(w: Window) { WindowResult(w, false) == SUCCESS }

  /** How many windows bring nothing before the first that does. */
  function Silence(windows: seq<Window>): (n: nat)
    ensures n <= |windows|
  {
    if windows == [] || !Silent(windows[0]) then 0 else 1 + Silence(windows[1..])
  }

  lemma {:induction false} SilenceIs(windows: seq<Window>, n: nat)
    requires n <= |windows| && forall k :: 0 <= k < n ==> Silent(windows[k])
    ensures Silence(windows) >= n
    ensures n == |windows| || !Silent(windows[n]) ==> Silence(windows) == n
  {
    if n > 0 {
      assert Silent(windows[0]);
      forall k | 0 <= k < n - 1 ensures Silent(windows[1..][k]) {
        assert Silent(windows[k + 1]);
      }
      SilenceIs(windows[1..], n - 1);
    }
  }

  /** The memory behind the tag's words, as a read that goes too far finds it. */
  type Beyond = nat -> word32

  /** What a reading command sends for word `a`: nothing of a protected word unless logged in. */
  function Shown(s: Sim, a: nat, beyond: Beyond): word32 {
    if !s.login && Protected(s.tag, a) then 0 else if a < NO_WORDS then ReverseWord(s.tag[a]) else ReverseWord(beyond(a))
  }

  /** Windows in a page: one before each word, and the one that opens it. */
  function PageSize(first: nat, last: nat): (n: nat)
    ensures n > 0
  {
    if first <= last then last - first + 2 else 1
  }

  function Numbered(s: Sim, a: nat, beyond: Beyond): (nat, word32) { (a, Shown(s, a, beyond)) }

  /** The words `first` to `last` in order; none when the range is empty. */
  function Page(s: Sim, first: nat, last: nat, beyond: Beyond): (r: seq<(nat, word32)>)
    ensures |r| + 1 == PageSize(first, last)
  {
    seq(PageSize(first, last) - 1, k requires 0 <= k => Numbered(s, first + k, beyond))
  }

  function Repeated<T>(page: seq<T>, n: nat): seq<T> { if n == 0 then [] else Repeated(page, n - 1) + page }

  /** One silent window opens each page and one goes before each word: what `n` of them let through. */
  function Pages<T>(page: seq<T>, n: nat): seq<T> {
    var (whole, rest) := (n / (|page| + 1), n % (|page| + 1));
    Repeated(page, whole) + page[..if rest == 0 then 0 else rest - 1]
  }

  /** Sent by a read of words `first` to `last`: whole pages, then as much of one more as the silence lasts. */
  function Reading(s: Sim, first: nat, last: nat, i: Input, beyond: Beyond): seq<(nat, word32)> {
    Pages(Page(s, first, last, beyond), Silence(i.windows))
  }

  /** The button is looked at between pages only; within one, the field is then lost. */
  function ReadingEnds(first: nat, last: nat, i: Input): int {
    var n := Silence(i.windows);
    if n < |i.windows| then WindowResult(i.windows[n], false)
    else if n % PageSize(first, last) == 0 then EOPABORTED else ETIMEOUT
  }

  function FirstByte(x: word32): nat { x % 256 }
  function SecondByte(x: word32): nat { Shr(x, 8) % 256 }

  /** Every word a command sends, with its index. */
  function Sent(s: Sim, command: int, i: Input, beyond: Beyond): seq<(nat, word32)> {
    if command == COMMAND_STANDARD_READ then
      var control := ReverseWord(s.tag[CONTROL]);
      Reading(s, FirstByte(control), SecondByte(control), i, beyond)
    else if command == COMMAND_SELECTIVE_READ && i.wordOk then
      Reading(s, FirstByte(i.word), SecondByte(i.word), i, beyond)
    else if Writes(s, command, i) && ReadAfterWrite(s.tag) && Silent(WindowAt(i, 0)) && Silent(WindowAt(i, 1)) then
      [(i.addr, ReverseWord(i.word))]
    else []
  }

  /** What a command's handler returns: the next command, or why there is none. */
  function Result(s: Sim, command: int, i: Input): int {
    if command == COMMAND_STANDARD_READ then
      var control := ReverseWord(s.tag[CONTROL]);
      ReadingEnds(FirstByte(control), SecondByte(control), i)
    else if command == COMMAND_SELECTIVE_READ && i.wordOk then ReadingEnds(FirstByte(i.word), SecondByte(i.word), i)
    else if Writes(s, command, i) && ReadAfterWrite(s.tag) then
      if !Silent(WindowAt(i, 0)) then WindowResult(WindowAt(i, 0), false)
      else if !Silent(WindowAt(i, 1)) then WindowResult(WindowAt(i, 1), false)
      else COMMAND_STANDARD_READ
    else if SuppliesPassword(s, command, i) && command == COMMAND_WRITE_PASSWORD && !WindowAt(i, 0).Request? then
      WindowResult(WindowAt(i, 0), true)
    else COMMAND_STANDARD_READ
  }

  lemma {:induction false} RepeatedAt<T>(page: seq<T>, n: nat, k: nat)
    requires k < n * |page|
    ensures |Repeated(page, n)| == n * |page| && Repeated(page, n)[k] == page[k % |page|]
  {
    var w := |page|;
    assert n * w == (n - 1) * w + w;
    RepeatedLength(page, n - 1);
    if k < (n - 1) * w {
      RepeatedAt(page, n - 1, k);
    } else {
      DivModUnique(k, w, n - 1, k - (n - 1) * w);
    }
  }

  lemma {:induction false} RepeatedLength<T>(page: seq<T>, n: nat)
    ensures |Repeated(page, n)| == n * |page|
  {
    if n > 0 {
      RepeatedLength(page, n - 1);
      assert n * |page| == (n - 1) * |page| + |page|;
    }
  }

  /** Counting on: the place in the page, and the page when it is full. */
  lemma {:induction false} NextWindow(w: nat, size: nat)
    requires size > 0
    ensures
      var full := w % size + 1 == size;
      && (w + 1) % size == (if full then 0 else w % size + 1)
      && (w + 1) / size == w / size + (if full then 1 else 0)
  {
    var q, r := w / size, w % size;
    if r + 1 == size {
      assert w + 1 == size * (q + 1);
      DivModUnique(w + 1, size, q + 1, 0);
    } else {
      DivModUnique(w + 1, size, q, r + 1);
    }
  }

  /** Word `k` sent by a reading command is word `k` of its range, counted round and round. */
  lemma PagesAt<T>(page: seq<T>, n: nat, k: nat)
    requires k < |Pages(page, n)|
    ensures page != [] && Pages(page, n)[k] == page[k % |page|]
  {
    hide Repeated;
    var (whole, rest) := (n / (|page| + 1), n % (|page| + 1));
    RepeatedLength(page, whole);
    assert |page| == 0 ==> whole * |page| == 0;
    if k < whole * |page| {
      RepeatedAt(page, whole, k);
    } else {
      DivModUnique(k, |page|, whole, k - whole * |page|);
    }
  }

  /** One more silent window: a new page begins, or the next word of the page is sent. */
  lemma PagesStep<T>(page: seq<T>, n: nat)
    ensures
      var rest := n % (|page| + 1);
      Pages(page, n + 1) == if rest == 0 then Pages(page, n) else Pages(page, n) + [page[rest - 1]]
  {
    NextWindow(n, |page| + 1);
    var rest := n % (|page| + 1);
    if rest == |page| > 0 { assert page == page[..rest - 1] + [page[rest - 1]]; }
  }

  /** The silence lasts until a window brings something, and past the last one the field is lost. */
  lemma Heard(i: Input, w: nat)
    requires w <= |i.windows| && forall k :: 0 <= k < w ==> Silent(i.windows[k])
    ensures
      var result := WindowResult(WindowAt(i, w), false);
      if result == SUCCESS then w < |i.windows| && Silent(i.windows[w])
      else Silence(i.windows) == w && (w == |i.windows| ==> result == ETIMEOUT)
  {
    hide Silence;
    SilenceIs(i.windows, w);
  }

  /** The window that opens a page. */
  lemma PageOpens(s: Sim, first: nat, last: nat, beyond: Beyond, w: nat)
    requires w % PageSize(first, last) == 0
    ensures Pages(Page(s, first, last, beyond), w + 1) == Pages(Page(s, first, last, beyond), w)
    ensures (w + 1) % PageSize(first, last) == if first <= last then 1 else 0
  {
    hide Pages;
    PagesStep(Page(s, first, last, beyond), w);
    NextWindow(w, PageSize(first, last));
  }

  /** The window before word `a`. */
  lemma WordFollows(s: Sim, first: nat, last: nat, beyond: Beyond, w: nat, a: nat)
    requires first <= a <= last && w % PageSize(first, last) == 1 + a - first
    ensures Pages(Page(s, first, last, beyond), w + 1)
         == Pages(Page(s, first, last, beyond), w) + [(a, Shown(s, a, beyond))]
    ensures (w + 1) % PageSize(first, last) == if a < last then 2 + a - first else 0
  {
    hide Pages, Shown;
    var page := Page(s, first, last, beyond);
    PagesStep(page, w);
    NextWindow(w, PageSize(first, last));
    assert page[a - first] == Numbered(s, a, beyond);
  }

  lemma ShownIs(s: Sim, a: nat, beyond: Beyond)
    ensures Shown(s, a, beyond)
         == if !s.login && FirstRead(s.tag[PROTECTION]) <= a <= LastRead(s.tag[PROTECTION]) then 0
            else ReverseWord(if a < NO_WORDS then s.tag[a] else beyond(a))
  {
  }

  lemma NoPages<T>(page: seq<T>)
    ensures Pages(page, 0) == []
  {
  }

  class TagSim {
    const tag: array<word32>
    var login: bool
    var writePassword: bool
    var password: word32
    var sent: seq<(nat, word32)>  // every word sent, with its index

    ghost predicate Valid()
      reads this
    {
      tag.Length == NO_WORDS
    }

    ghost function View(): Sim
      requires Valid()
      reads this, tag
    {
      Sim(tag[..], login, writePassword, password)
    }

    constructor (words: Words)
      ensures Valid() && View() == Sim(words, false, false, 0) && sent == [] && fresh(tag)
    {
      tag := new word32[NO_WORDS](k requires 0 <= k < NO_WORDS => words[k]);
      login, writePassword, password, sent := false, false, 0, [];
      new;
      assert tag[..] == words;
    }

    method HandleLogin(i: Input) returns (command: int)
      requires Valid()
      modifies this
      ensures Valid() && View() == Effect(old(View()), COMMAND_LOGIN, i) && sent == old(sent)
      ensures command == COMMAND_STANDARD_READ
    {
      if i.wordOk && i.word == ReverseWord(tag[DEVICE_PASSWORD]) {
        login := true;
      } else {
        login := false;
        password := i.word;
      }
      return COMMAND_STANDARD_READ;
    }

    method HandleReset(i: Input) returns (command: int)
      requires Valid()
      modifies this
      ensures Valid() && View() == Effect(old(View()), COMMAND_RESET, i) && sent == old(sent)
      ensures command == COMMAND_STANDARD_READ
    {
      login := false;
      return COMMAND_STANDARD_READ;
    }

    method HandleWrite(i: Input) returns (command: int)
      requires Valid() && !Overruns(View(), COMMAND_WRITE, i) && !writePassword
      modifies this, tag
      ensures Valid() && View() == Effect(old(View()), COMMAND_WRITE, i)
      ensures forall beyond :: sent == old(sent) + Sent(old(View()), COMMAND_WRITE, i, beyond)
      ensures command == Result(old(View()), COMMAND_WRITE, i)
    {
      hide Reflect8, ReverseWord, Shr;
      var address, data := i.addr, i.word;
      if !i.addrOk || !i.wordOk {
        return COMMAND_STANDARD_READ;
      }
      var raw := ReadAfterWrite(tag[..]);
      var fwwp, lwwp := FirstWrite(tag[PROTECTION]), LastWrite(tag[PROTECTION]);
      WriteRangeIsReadRange(tag[PROTECTION]);
      if address == DEVICE_PASSWORD {
        return COMMAND_STANDARD_READ;
      } else if address == PROTECTION || address == CONTROL {
        if login {
          tag[address] := ReverseWord(data);
        } else {
          return COMMAND_STANDARD_READ;
        }
      } else if address == DEVICE_SERIAL || address == DEVICE_ID {
        return COMMAND_STANDARD_READ;
      } else {
        if fwwp <= address <= lwwp {
          if login {
            tag[address] := ReverseWord(data);
          } else {
            return COMMAND_STANDARD_READ;
          }
        } else {
          tag[address] := ReverseWord(data);
        }
      }
      if raw {
        command := WindowResult(WindowAt(i, 0), writePassword);
        if command != SUCCESS {
          return;
        }
        command := WindowResult(WindowAt(i, 1), writePassword);
        if command != SUCCESS {
          return;
        }
        sent := sent + [(address, tag[address])];
      }
      return COMMAND_STANDARD_READ;
    }

    method HandleWritePassword(i: Input) returns (command: int)
      requires Valid()
      modifies this, tag
      ensures Valid() && View() == Effect(old(View()), COMMAND_WRITE_PASSWORD, i) && sent == old(sent)
      ensures !writePassword && command == Result(old(View()), COMMAND_WRITE_PASSWORD, i)
    {
      writePassword := true;
      if i.wordOk && i.word == ReverseWord(tag[DEVICE_PASSWORD]) {
        login := true;
      } else {
        login := false;
        writePassword := false;
        password := i.word;
        return COMMAND_STANDARD_READ;
      }
      command := WindowResult(WindowAt(i, 0), writePassword);
      writePassword := false;
      if command != COMMAND_WRITE_PASSWORD {
        return;
      }
      if i.word2Ok {
        tag[DEVICE_PASSWORD] := ReverseWord(i.word2);
        password := i.word2;
      }
      return COMMAND_STANDARD_READ;
    }

    /**
      Sends words `first` to `last` after a listen window each, over and over, until a window ends it.  What
      lies behind the last word of the tag is `beyond`.
     */
    method SendWords(first: nat, last: nat, i: Input, beyond: Beyond) returns (command: int)
      requires Valid() && !writePassword
      modifies this`sent
      ensures sent == old(sent) + Reading(View(), first, last, i, beyond)
      ensures command == ReadingEnds(first, last, i)
    {
      hide Shr, ReverseWord, Page, PageSize, Pages, Silence, WindowResult, Shown, FirstRead, LastRead;
      var fwrp, lwrp := FirstRead(tag[PROTECTION]), LastRead(tag[PROTECTION]);
      ghost var s, size := View(), PageSize(first, last);
      var w := 0;
      NoPages(Page(s, first, last, beyond));
      while w < |i.windows|
        decreases |i.windows| - w
        invariant w <= |i.windows| && w % size == 0
        invariant forall k :: 0 <= k < w ==> Silent(i.windows[k])
        invariant sent == old(sent) + Pages(Page(s, first, last, beyond), w)
      {
        command := WindowResult(WindowAt(i, w), writePassword);
        Heard(i, w);
        if command != SUCCESS {
          return;
        }
        PageOpens(s, first, last, beyond, w);
        w := w + 1;
        var a := first;
        ghost var start := w;
        while a <= last
          invariant start <= w <= |i.windows| && first <= a && (first <= last ==> a <= last + 1)
          invariant w % size == if a <= last then 1 + a - first else 0
          invariant forall k :: 0 <= k < w ==> Silent(i.windows[k])
          invariant sent == old(sent) + Pages(Page(s, first, last, beyond), w)
        {
          command := WindowResult(WindowAt(i, w), writePassword);
          Heard(i, w);
          if command != SUCCESS {
            return;
          }
          WordFollows(s, first, last, beyond, w, a);
          w := w + 1;
          ShownIs(s, a, beyond);
          if !login && fwrp <= a <= lwrp {
            sent := sent + [(a, 0)];
          } else {
            sent := sent + [(a, ReverseWord(if a < NO_WORDS then tag[a] else beyond(a)))];
          }
          a := a + 1;
        }
      }
      SilenceIs(i.windows, w);
      return EOPABORTED;
    }

    method HandleStandardRead(i: Input, beyond: Beyond) returns (command: int)
      requires Valid() && !writePassword
      modifies this`sent
      ensures sent == old(sent) + Sent(View(), COMMAND_STANDARD_READ, i, beyond)
      ensures command == Result(View(), COMMAND_STANDARD_READ, i)
    {
      hide Shr, ReverseWord;
      var control := ReverseWord(tag[CONTROL]);
      command := SendWords(control % 256, Shr(control, 8) % 256, i, beyond);
    }

    method HandleSelectiveRead(i: Input, beyond: Beyond) returns (command: int)
      requires Valid() && !writePassword
      modifies this`sent
      ensures sent == old(sent) + Sent(View(), COMMAND_SELECTIVE_READ, i, beyond)
      ensures command == Result(View(), COMMAND_SELECTIVE_READ, i)
    {
      hide Shr, ReverseWord;
      if !i.wordOk {
        return COMMAND_STANDARD_READ;
      }
      command := SendWords(i.word % 256, Shr(i.word, 8) % 256, i, beyond);
    }

    method HandleCommands(command: int, i: Input, beyond: Beyond) returns (next: int)
      requires Valid() && !Overruns(View(), command, i) && !writePassword
      modifies this, tag
      ensures Valid() && View() == Effect(old(View()), command, i) && !writePassword
      ensures sent == old(sent) + Sent(old(View()), command, i, beyond)
      ensures next == Result(old(View()), command, i)
    {
      hide Shr, ReverseWord;
      if command == COMMAND_LOGIN {
        next := HandleLogin(i);
      } else if command == COMMAND_RESET {
        next := HandleReset(i);
      } else if command == COMMAND_WRITE {
        next := HandleWrite(i);
      } else if command == COMMAND_WRITE_PASSWORD {
        next := HandleWritePassword(i);
      } else if command == COMMAND_SELECTIVE_READ {
        next := HandleSelectiveRead(i, beyond);
      } else if command == COMMAND_STANDARD_READ {
        next := HandleStandardRead(i, beyond);
      } else {
        next := COMMAND_STANDARD_READ;
      }
    }

    /**
      The simulation loop, one input for each command; it ends early when the button is pressed, and the model
      ends with it where a write would fall behind the last word.
     */
    method Simulate(inputs: seq<Input>, beyond: Beyond) returns (ghost run: Run)
      requires Valid()
      modifies this, tag
      ensures Valid() && IsRun(run) && Chained(run) && |run.cmds| <= |inputs| && run.inputs == inputs[..|run.cmds|]
      ensures run.states[0] == old(View()).(login := false, writePassword := false)
      ensures View() == run.states[|run.cmds|] && sent == old(sent) + Transcript(run, |run.cmds|, beyond)
      ensures |run.cmds| < |inputs| ==> Stops(run, inputs[|run.cmds|])
    {
      hide Effect, Settle, Result, Sent, Overruns, Chained, CommandAt, Transcript, IsRun;
      login := false;
      writePassword := false;
      var command := COMMAND_STANDARD_READ;
      run := Unstarted(View());
      NoStep(View(), beyond);
      for n := 0 to |inputs|
        invariant Valid() && IsRun(run) && Chained(run) && Lengths(run, n) && run.inputs == inputs[..n]
        invariant run.states[0] == old(View()).(login := false, writePassword := false)
        invariant View() == run.states[n] && !writePassword && command == CommandAt(run, n) != EOPABORTED
        invariant sent == old(sent) + Transcript(run, n, beyond)
      {
        if Overruns(Sim(tag[..], login, writePassword, password), command, inputs[n]) {
          return;
        }
        command := HandleCommands(command, inputs[n], beyond);
        Extend(run, inputs[n], beyond);
        SettleIs(View(), command);
        if command == ETIMEOUT {
          command := COMMAND_STANDARD_READ;
          login := false;
        }
        assert inputs[..n + 1] == inputs[..n] + [inputs[n]];
        run := Longer(run, inputs[n]);
        if command == EOPABORTED {
          return;
        }
      }
    }

    /**
      `em4x50_sim`: a dump without a password is given the one of the caller; the loop runs only if serial
      number and identity differ.
     */
    method Start(given: word32, inputs: seq<Input>, beyond: Beyond) returns (runs: bool, ghost run: Run)
      requires Valid()
      modifies this, tag
      ensures Valid() && IsRun(run) && Chained(run) && |run.cmds| <= |inputs| && run.inputs == inputs[..|run.cmds|]
      ensures runs <==> old(tag[DEVICE_SERIAL]) != old(tag[DEVICE_ID])
      ensures var words := old(tag[..]);
              var s := old(View()).(tag := if words[0] == 0 then words[0 := Reflect32(given)] else words);
              run.states[0] == if runs then s.(login := false, writePassword := false) else s
      ensures View() == run.states[|run.cmds|] && sent == old(sent) + Transcript(run, |run.cmds|, beyond)
      ensures if runs then |run.cmds| < |inputs| ==> Stops(run, inputs[|run.cmds|]) else run.cmds == []
    {
      hide Stops, Transcript;
      if tag[DEVICE_PASSWORD] == 0 {
        tag[DEVICE_PASSWORD] := ReverseWord(given);
      }
      assert tag[..] == if old(tag[0]) == 0 then old(tag[..])[0 := Reflect32(given)] else old(tag[..]);
      runs := tag[DEVICE_SERIAL] != tag[DEVICE_ID];
      if runs {
        run := Simulate(inputs, beyond);
      } else {
        run := Unstarted(View());
        NoStep(View(), beyond);
      }
    }
  }

  // ---------------------------------------------------------------------------
  // Whole runs
  // ---------------------------------------------------------------------------

  /** The states before and after every command, the commands, their inputs, and what the handlers returned. */
  datatype Run = Run(states: seq<Sim>, cmds: seq<int>, inputs: seq<Input>, results: seq<int>)

  /** A timeout also ends the login. */
  function Settle(s: Sim, result: int): Sim { if result == ETIMEOUT then s.(login := false) else s }

  /** The run's steps are those of the handlers. */
  ghost predicate IsRun(run: Run) {
    && |run.states| == |run.cmds| + 1 && |run.inputs| == |run.results| == |run.cmds|
    && (forall k :: 0 <= k < |run.cmds| ==> StepAt(run, k))
  }

  ghost predicate StepAt(run: Run, k: nat)
    requires k < |run.cmds| == |run.inputs| == |run.results| && |run.states| == |run.cmds| + 1
  {
    var (s, command, i) := (run.states[k], run.cmds[k], run.inputs[k]);
    && !Overruns(s, command, i) && run.results[k] == Result(s, command, i)
    && run.states[k + 1] == Settle(Effect(s, command, i), run.results[k])
  }

  /** The command that is due after `k` commands: at first, and after a timeout, standard read. */
  function CommandAt(run: Run, k: nat): int
    requires k <= |run.results|
  {
    if k == 0 || run.results[k - 1] == ETIMEOUT then COMMAND_STANDARD_READ else run.results[k - 1]
  }

  /** The run's commands are those the simulator goes on to by itself, until the button is pressed. */
  ghost predicate Chained(run: Run) {
    && |run.cmds| == |run.results|
    && forall k :: 0 <= k < |run.cmds| ==> run.cmds[k] == CommandAt(run, k) != EOPABORTED
  }

  /** No step follows the run with input `i`: the button was pressed, or the write would fall behind the tag. */
  ghost predicate Stops(run: Run, i: Input)
    requires IsRun(run)
  {
    var n := |run.cmds|;
    CommandAt(run, n) == EOPABORTED || Overruns(run.states[n], CommandAt(run, n), i)
  }

  /** Everything sent during the first `n` commands. */
  ghost function Transcript(run: Run, n: nat, beyond: Beyond): seq<(nat, word32)>
    requires n <= |run.cmds| == |run.inputs| && |run.states| == |run.cmds| + 1
  {
    if n == 0 then []
    else Transcript(run, n - 1, beyond) + Sent(run.states[n - 1], run.cmds[n - 1], run.inputs[n - 1], beyond)
  }

  ghost function Unstarted(s: Sim): Run { Run([s], [], [], []) }

  lemma NoStep(s: Sim, beyond: Beyond)
    ensures IsRun(Unstarted(s)) && Chained(Unstarted(s)) && Transcript(Unstarted(s), 0, beyond) == []
    ensures CommandAt(Unstarted(s), 0) == COMMAND_STANDARD_READ
  {
  }

  ghost predicate Lengths(run: Run, n: nat) {
    |run.cmds| == |run.inputs| == |run.results| == n && |run.states| == n + 1
  }

  lemma SettleIs(s: Sim, result: int)
    ensures Settle(s, result) == if result == ETIMEOUT then s.(login := false) else s
  {
  }

  /** The run with one command more, the one that is due. */
  ghost function Longer(run: Run, i: Input): Run
    requires IsRun(run) && !Overruns(run.states[|run.cmds|], CommandAt(run, |run.cmds|), i)
  {
    var n := |run.cmds|;
    var (s, command) := (run.states[n], CommandAt(run, n));
    var result := Result(s, command, i);
    Run(run.states + [Settle(Effect(s, command, i), result)], run.cmds + [command], run.inputs + [i],
        run.results + [result])
  }

  lemma Extend(run: Run, i: Input, beyond: Beyond)
    requires IsRun(run) && Chained(run) && !Overruns(run.states[|run.cmds|], CommandAt(run, |run.cmds|), i)
    requires CommandAt(run, |run.cmds|) != EOPABORTED
    ensures
      var (n, longer) := (|run.cmds|, Longer(run, i));
      && IsRun(longer) && Chained(longer)
      && CommandAt(longer, n + 1) == (if longer.results[n] == ETIMEOUT then COMMAND_STANDARD_READ else longer.results[n])
      && Transcript(longer, n + 1, beyond)
         == Transcript(run, n, beyond) + Sent(run.states[n], CommandAt(run, n), i, beyond)
  {
    hide Effect, Result, Overruns, Sent, Settle;
    var n, longer := |run.cmds|, Longer(run, i);
    forall k | 0 <= k < n + 1 ensures StepAt(longer, k) {
      if k < n { assert StepAt(run, k); }
    }
    forall k | 0 <= k < n + 1 ensures longer.cmds[k] == CommandAt(longer, k) != EOPABORTED {
      if k < n { assert run.cmds[k] == CommandAt(run, k) != EOPABORTED; }
    }
    SameTranscript(run, longer, n, beyond);
  }

  lemma {:induction false} SameTranscript(run: Run, longer: Run, n: nat, beyond: Beyond)
    requires n <= |run.cmds| == |run.inputs| && |run.states| == |run.cmds| + 1
    requires |longer.cmds| == |longer.inputs| && |longer.states| == |longer.cmds| + 1
    requires run.cmds <= longer.cmds && run.inputs <= longer.inputs && run.states <= longer.states
    ensures Transcript(longer, n, beyond) == Transcript(run, n, beyond)
  {
    hide Sent;
    if n > 0 { SameTranscript(run, longer, n - 1, beyond); }
  }

  /** The serial number and the identity never change. */
  lemma {:induction false} IdentityKept(run: Run, n: nat)
    requires IsRun(run) && n <= |run.cmds|
    ensures run.states[n].tag[DEVICE_SERIAL] == run.states[0].tag[DEVICE_SERIAL]
    ensures run.states[n].tag[DEVICE_ID] == run.states[0].tag[DEVICE_ID]
  {
    hide ReverseWord;
    if n > 0 {
      IdentityKept(run, n - 1);
      assert StepAt(run, n - 1);
    }
  }

  /** The password word changes only in a write-password command that supplied the current password. */
  lemma PasswordGuarded(run: Run, n: nat)
    requires IsRun(run) && n < |run.cmds|
    requires run.states[n + 1].tag[DEVICE_PASSWORD] != run.states[n].tag[DEVICE_PASSWORD]
    ensures run.cmds[n] == COMMAND_WRITE_PASSWORD && SuppliesPassword(run.states[n], run.cmds[n], run.inputs[n])
    ensures run.states[n + 1].tag == run.states[n].tag[DEVICE_PASSWORD := ReverseWord(run.inputs[n].word2)]
  {
    hide ReverseWord;
    assert StepAt(run, n);
  }

  /** Protection, control and range-protected words change only while logged in, and only to the word sent. */
  lemma ProtectedGuarded(run: Run, n: nat, a: nat)
    requires IsRun(run) && n < |run.cmds| && 0 < a < NO_WORDS
    requires run.states[n + 1].tag[a] != run.states[n].tag[a]
    ensures run.cmds[n] == COMMAND_WRITE && run.inputs[n].addr == a && a != DEVICE_SERIAL && a != DEVICE_ID
    ensures run.states[n + 1].tag[a] == ReverseWord(run.inputs[n].word)
    ensures a == PROTECTION || a == CONTROL || Protected(run.states[n].tag, a) ==> run.states[n].login
  {
    hide ReverseWord, Protected;
    assert StepAt(run, n);
  }

  /** Command `k` ends a login: a reset, a timeout, or a password that does not match. */
  predicate Drops(run: Run, k: nat)
    requires k < |run.cmds| == |run.inputs| == |run.results| && |run.states| == |run.cmds| + 1
  {
    || run.cmds[k] == COMMAND_RESET || run.results[k] == ETIMEOUT
    || ((run.cmds[k] == COMMAND_LOGIN || run.cmds[k] == COMMAND_WRITE_PASSWORD)
        && !SuppliesPassword(run.states[k], run.cmds[k], run.inputs[k]))
  }

  /** Whoever is logged in supplied the password of the time, and nothing since then has ended the login. */
  lemma {:induction false} LoginJustified(run: Run, n: nat) returns (j: nat)
    requires IsRun(run) && n <= |run.cmds| && !run.states[0].login && run.states[n].login
    ensures j < n && SuppliesPassword(run.states[j], run.cmds[j], run.inputs[j])
    ensures forall k :: j <= k < n ==> !Drops(run, k)
    ensures forall k :: j < k <= n ==> run.states[k].login
  {
    hide ReverseWord;
    NotDropped(run, n - 1);
    if SuppliesPassword(run.states[n - 1], run.cmds[n - 1], run.inputs[n - 1]) {
      j := n - 1;
    } else {
      j := LoginJustified(run, n - 1);
    }
  }

  /** Who is logged in after a step supplied the password in it, or was logged in before. */
  lemma NotDropped(run: Run, k: nat)
    requires IsRun(run) && k < |run.cmds| && run.states[k + 1].login
    ensures !Drops(run, k)
    ensures SuppliesPassword(run.states[k], run.cmds[k], run.inputs[k]) || run.states[k].login
  {
    hide ReverseWord;
    assert StepAt(run, k);
  }

  /** Conversely, from a matching password on, the login lasts until something ends it. */
  lemma {:induction false} LoginLasts(run: Run, j: nat, n: nat)
    requires IsRun(run) && j < n <= |run.cmds| && SuppliesPassword(run.states[j], run.cmds[j], run.inputs[j])
    requires forall k :: j <= k < n ==> !Drops(run, k)
    ensures run.states[n].login
    decreases n
  {
    hide ReverseWord;
    assert StepAt(run, n - 1);
    assert !Drops(run, n - 1);
    if n - 1 > j { LoginLasts(run, j, n - 1); }
  }

  /**
    Without the password nothing guarded changes: over any run that starts logged out and in which the
    current password is never supplied, the password, protection, control and identity words and every word
    of the protected range keep their values, and nobody is ever logged in.
   */
  lemma {:induction false} LockedOut(run: Run, n: nat)
    requires IsRun(run) && n <= |run.cmds| && !run.states[0].login
    requires forall k :: 0 <= k < n ==> !SuppliesPassword(run.states[k], run.cmds[k], run.inputs[k])
    ensures !run.states[n].login
    ensures forall a | 0 <= a < NO_WORDS && Guarded(run.states[0].tag, a) ::
              run.states[n].tag[a] == run.states[0].tag[a]
  {
    hide ReverseWord, Protected;
    if n > 0 {
      LockedOut(run, n - 1);
      var s, t := run.states[n - 1], run.states[n];
      assert StepAt(run, n - 1);
      forall a | 0 <= a < NO_WORDS && Guarded(run.states[0].tag, a)
        ensures t.tag[a] == run.states[0].tag[a]
      {
        SameRange(run.states[0].tag, s.tag, a);
      }
    }
  }

  predicate Guarded(tag: Words, a: nat) {
    || a == DEVICE_PASSWORD || a == PROTECTION || a == CONTROL || a == DEVICE_SERIAL || a == DEVICE_ID
    || Protected(tag, a)
  }

  lemma SameRange(t: Words, u: Words, a: nat)
    requires forall b :: 0 <= b < NO_WORDS && Guarded(t, b) ==> u[b] == t[b]
    ensures Protected(t, a) <==> Protected(u, a)
  {
    assert Guarded(t, PROTECTION);
  }

  lemma {:induction false} ReadingIsShown(s: Sim, first: nat, last: nat, i: Input, beyond: Beyond, j: nat)
    requires j < |Reading(s, first, last, i, beyond)|
    ensures
      var (a, word) := Reading(s, first, last, i, beyond)[j];
      first <= a <= last && word == Shown(s, a, beyond)
  {
    hide Pages, Silence, Shown;
    var page := Page(s, first, last, beyond);
    PagesAt(page, Silence(i.windows), j);
    var k := j % |page|;
    assert page[k] == Numbered(s, first + k, beyond);
  }

  /** What a command sends is what the login and the read protection of the moment allow. */
  lemma SentIsShown(s: Sim, command: int, i: Input, beyond: Beyond, j: nat)
    requires j < |Sent(s, command, i, beyond)|
    ensures
      var (a, word) := Sent(s, command, i, beyond)[j];
      if command == COMMAND_WRITE then Writes(s, command, i) && a == i.addr && word == ReverseWord(i.word)
      else word == Shown(s, a, beyond)
  {
    hide Reading, ReverseWord, Shr, Shown, Writable, ReadAfterWrite, Silent;
    if command == COMMAND_STANDARD_READ {
      var control := ReverseWord(s.tag[CONTROL]);
      ReadingIsShown(s, FirstByte(control), SecondByte(control), i, beyond, j);
    } else if command == COMMAND_SELECTIVE_READ && i.wordOk {
      ReadingIsShown(s, FirstByte(i.word), SecondByte(i.word), i, beyond, j);
    }
  }

  /**
    Without the password nothing protected is told: over any run that starts logged out and in which the current
    password is never supplied, every word of the read-protected range is sent as zero.
   */
  lemma NothingTold(run: Run, n: nat, beyond: Beyond, j: nat)
    requires IsRun(run) && n < |run.cmds| && !run.states[0].login
    requires forall k :: 0 <= k < n ==> !SuppliesPassword(run.states[k], run.cmds[k], run.inputs[k])
    requires j < |Sent(run.states[n], run.cmds[n], run.inputs[n], beyond)|
    ensures
      var (a, word) := Sent(run.states[n], run.cmds[n], run.inputs[n], beyond)[j];
      Protected(run.states[0].tag, a) ==> word == 0
  {
    hide Sent, ReverseWord, Protected;
    var s := run.states[n];
    var (a, word) := Sent(s, run.cmds[n], run.inputs[n], beyond)[j];
    LockedOut(run, n);
    SameRange(run.states[0].tag, s.tag, a);
    SentIsShown(s, run.cmds[n], run.inputs[n], beyond, j);
  }

  // ---------------------------------------------------------------------------
  // What the reader can rely on
  // ---------------------------------------------------------------------------

  lemma ReflectTwice(x: nat)
    requires x < WORD32
    ensures Reflect32(Reflect32(x)) == x
  {
    var r := Reflect32(x);
    BitsReversed(x, 32);
    BitsReversed(r, 32);
    assert BitsUp(r, 32) == BitsOf(x, 32);
    assert Pow2(32) == WORD32 by { PowWord(); }
    BitsInjective(Reflect32(r), x, 32);
  }

  lemma PowWord()
    ensures Pow2(32) == WORD32
  {
    assert Pow2(8) == 256;
    PowByte(8);
    PowByte(16);
    PowByte(24);
  }

  /** Words `first` to `last` of the range that the reversed protection word names. */
  predicate InProtectedRange(tag: Words, a: nat) {
    var p := Reflect32(tag[1]);
    p % 256 <= a <= p / 256 % 256
  }

  lemma RangeIs(tag: Words, a: nat)
    ensures Protected(tag, a) <==> InProtectedRange(tag, a)
  {
    hide Shr;
    ShrByte(Reflect32(tag[1]));
  }

  /**
    A write to one of the words arrives exactly if both words were read, the address is not that of the password, the
    serial number or the identity, and the reader is logged in should it be the protection word, the control word or
    one of the protected range; otherwise no word changes.
   */
  lemma WriteArrives(run: Run, n: nat)
    requires IsRun(run) && n < |run.cmds| && run.cmds[n] == 0x12 && run.inputs[n].addr < 34
    ensures
      var s, i := run.states[n], run.inputs[n];
      var allowed := a => a != 0 && a != 32 && a != 33
                          && (a == 1 || a == 2 || InProtectedRange(s.tag, a) ==> s.login);
      run.states[n + 1].tag
        == if i.addrOk && i.wordOk && allowed(i.addr) then s.tag[i.addr := Reflect32(i.word)] else s.tag
  {
    hide Reflect32;
    assert StepAt(run, n);
    RangeIs(run.states[n].tag, run.inputs[n].addr);
    hide Protected, InProtectedRange;
  }

  /** Only a write changes a word, but for the password. */
  lemma OnlyWrites(run: Run, n: nat, a: nat)
    requires IsRun(run) && n < |run.cmds| && 0 < a < NO_WORDS
    requires run.cmds[n] != 0x12 || run.inputs[n].addr != a
    ensures run.states[n + 1].tag[a] == run.states[n].tag[a]
  {
    hide Reflect32, Protected;
    assert StepAt(run, n);
  }

  lemma {:induction false} WordStays(run: Run, n: nat, m: nat, a: nat)
    requires IsRun(run) && n <= m <= |run.cmds| && 0 < a < NO_WORDS
    requires forall k :: n <= k < m ==> run.cmds[k] != 0x12 || run.inputs[k].addr != a
    ensures run.states[m].tag[a] == run.states[n].tag[a]
    decreases m
  {
    if n < m {
      WordStays(run, n, m - 1, a);
      OnlyWrites(run, m - 1, a);
    }
  }

  /** The range a reading command is to send: from the control word, or from the word received. */
  function Range(s: Sim, command: int, i: Input): word32 {
    if command == 0x02 then Reflect32(s.tag[2]) else i.word
  }

  predicate Reads(command: int, i: Input) { command == 0x02 || (command == 0x0A && i.wordOk) }

  /** Word `k` that a reading command sends: the words of the range round and round, zero for a protected one. */
  lemma {:induction false} ReadShows(s: Sim, command: int, i: Input, beyond: Beyond, k: nat)
    requires Reads(command, i) && k < |Sent(s, command, i, beyond)|
    ensures
      var x := Range(s, command, i);
      var first, last := x % 256, x / 256 % 256;
      && first <= last
      && var a := first + k % (last - first + 1);
         Sent(s, command, i, beyond)[k]
           == (a, if !s.login && InProtectedRange(s.tag, a) then 0
                  else if a < 34 then Reflect32(s.tag[a]) else Reflect32(beyond(a)))
  {
    hide Pages, Silence, Shr, Reflect32;
    var x := Range(s, command, i);
    ShrByte(x);
    var first, last := x % 256, x / 256 % 256;
    var page := Page(s, first, last, beyond);
    assert Sent(s, command, i, beyond) == Pages(page, Silence(i.windows));
    PagesAt(page, Silence(i.windows), k);
    var j := k % |page|;
    RangeIs(s.tag, first + j);
    assert page[j] == Numbered(s, first + j, beyond);
  }

  /** What a window that is not silent makes of a command: the one asked for, or a timeout. */
  function Brings(w: Window): int { if w.Request? then w.command else -4 }

  /** How many words a reading command sends: one for each silent window but those that open a page; and how it ends. */
  lemma ReadLength(s: Sim, command: int, i: Input, beyond: Beyond, n: nat)
    requires Reads(command, i) && n <= |i.windows| && forall k :: 0 <= k < n ==> i.windows[k].Quiet?
    requires n == |i.windows| || i.windows[n].Lost? || (i.windows[n].Request? && i.windows[n].command != 0)
    ensures
      var x := Range(s, command, i);
      var first, last := x % 256, x / 256 % 256;
      first <= last ==>
        var size := last - first + 2;
        |Sent(s, command, i, beyond)| == n - n / size - (if n % size > 0 then 1 else 0)
    ensures
      var x := Range(s, command, i);
      var first, last := x % 256, x / 256 % 256;
      Result(s, command, i)
        == if n < |i.windows| then Brings(i.windows[n])
           else if n % (if first <= last then last - first + 2 else 1) == 0 then -5 else -4
  {
    hide Pages, Silence, Shr, Reflect32;
    var x := Range(s, command, i);
    ShrByte(x);
    SilenceIs(i.windows, n);
    var page := Page(s, x % 256, x / 256 % 256, beyond);
    assert Sent(s, command, i, beyond) == Pages(page, n);
    PagesLength(page, n);
  }

  lemma PagesLength<T>(page: seq<T>, n: nat)
    ensures
      var size := |page| + 1;
      |Pages(page, n)| == n - n / size - if n % size > 0 then 1 else 0
  {
    var whole, rest := n / (|page| + 1), n % (|page| + 1);
    RepeatedLength(page, whole);
    assert whole * (|page| + 1) == whole * |page| + whole;
  }

  /**
    Read back: from a write that arrives on, a reading command sends the word written whenever its address is due,
    unless it has been written again or is protected from this reader.
   */
  lemma ReadBack(run: Run, n: nat, m: nat, beyond: Beyond, k: nat)
    requires IsRun(run) && n < m < |run.cmds| && run.cmds[n] == 0x12 && Reads(run.cmds[m], run.inputs[m])
    requires run.inputs[n].addrOk && run.inputs[n].wordOk
    requires var a := run.inputs[n].addr;
      && 2 < a < 32 && (InProtectedRange(run.states[n].tag, a) ==> run.states[n].login)
      && (InProtectedRange(run.states[m].tag, a) ==> run.states[m].login)
      && forall j :: n < j < m ==> run.cmds[j] != 0x12 || run.inputs[j].addr != a
    requires k < |Sent(run.states[m], run.cmds[m], run.inputs[m], beyond)|
    requires Sent(run.states[m], run.cmds[m], run.inputs[m], beyond)[k].0 == run.inputs[n].addr
    ensures Sent(run.states[m], run.cmds[m], run.inputs[m], beyond)[k].1 == run.inputs[n].word
  {
    hide Reflect32, Sent, InProtectedRange, Range;
    var a, word := run.inputs[n].addr, run.inputs[n].word;
    WriteArrives(run, n);
    WordStays(run, n + 1, m, a);
    ReflectTwice(word);
    ReadShows(run.states[m], run.cmds[m], run.inputs[m], beyond, k);
  }

  /** Window `k` is there and brings no command. */
  predicate QuietAt(i: Input, k: nat) { k < |i.windows| && (i.windows[k].Quiet? || i.windows[k] == Request(0)) }

  /**
    What is sent right after a write is the tag's word and not the word written: the other way round than every later
    read sends it.  It is sent if bit 8 of the control word says so and the next two windows are silent; if one of them
    is not, what it brings is done next.
   */
  lemma EchoReversed(run: Run, n: nat, beyond: Beyond)
    requires IsRun(run) && n < |run.cmds| && run.cmds[n] == 0x12 && run.inputs[n].addr < 34
    ensures
      var s, i := run.states[n], run.inputs[n];
      var arrives := i.addrOk && i.wordOk && i.addr != 0 && i.addr != 32 && i.addr != 33
        && (i.addr == 1 || i.addr == 2 || InProtectedRange(s.tag, i.addr) ==> s.login);
      var echo := arrives && s.tag[2] / 256 % 2 == 1;
      && Sent(s, 0x12, i, beyond) == (if echo && QuietAt(i, 0) && QuietAt(i, 1) then [(i.addr, Reflect32(i.word))] else [])
      && run.results[n]
         == if !echo || (QuietAt(i, 0) && QuietAt(i, 1)) then 0x02
            else
              var k := if QuietAt(i, 0) then 1 else 0;
              if k < |i.windows| then Brings(i.windows[k]) else -4
  {
    hide Reflect32, Protected, InProtectedRange, Shr;
    assert StepAt(run, n);
    RangeIs(run.states[n].tag, run.inputs[n].addr);
    EighthBit(run.states[n].tag[2]);
  }

  lemma EighthBit(x: nat)
    ensures Shr(x, 2) / 64 % 2 == x / 256 % 2
  {
    assert Shr(x, 2) == Shr(x / 2, 1) == Shr(x / 2 / 2, 0);
    assert x / 2 / 2 / 64 == x / 256;
  }

  /** A login succeeds exactly with the password, and changes nothing else; another password is remembered. */
  lemma LoginArrives(run: Run, n: nat)
    requires IsRun(run) && n < |run.cmds| && run.cmds[n] == 0x01
    ensures
      var s, i := run.states[n], run.inputs[n];
      run.states[n + 1]
        == if i.wordOk && i.word == Reflect32(s.tag[0]) then s.(login := true) else s.(login := false, password := i.word)
  {
    hide Reflect32;
    assert StepAt(run, n);
  }

  lemma ResetArrives(run: Run, n: nat)
    requires IsRun(run) && n < |run.cmds| && run.cmds[n] == 0x80
    ensures run.states[n + 1] == run.states[n].(login := false)
  {
    hide Reflect32;
    assert StepAt(run, n);
  }

  /**
    The password changes exactly if the old one is supplied, the reader asks again in the window behind it, and the new
    one is read.  The old one logs the reader in, unless the field is lost in that window.
   */
  lemma PasswordArrives(run: Run, n: nat)
    requires IsRun(run) && n < |run.cmds| && run.cmds[n] == 0x11
    ensures
      var s, i, t := run.states[n], run.inputs[n], run.states[n + 1];
      var known := i.wordOk && i.word == Reflect32(s.tag[0]);
      var changes := known && |i.windows| > 0 && i.windows[0].Request? && i.word2Ok;
      && t.tag == (if changes then s.tag[0 := Reflect32(i.word2)] else s.tag)
      && t.login == (known && |i.windows| > 0 && !i.windows[0].Lost?) && !t.writePassword
      && t.password == if changes then i.word2 else if known then s.password else i.word
  {
    hide Reflect32;
    assert StepAt(run, n);
  }

  /** No other command changes the password word, the login or the password remembered, but a timeout ends the login. */
  lemma OthersKeep(run: Run, n: nat)
    requires IsRun(run) && n < |run.cmds| && run.cmds[n] !in {0x01, 0x80, 0x11}
    ensures
      var s, t := run.states[n], run.states[n + 1];
      && t.tag[0] == s.tag[0] && t.password == s.password && t.writePassword == s.writePassword
      && t.login == (s.login && run.results[n] != ETIMEOUT) && (run.cmds[n] != 0x12 ==> t.tag == s.tag)
  {
    hide Reflect32;
    assert StepAt(run, n);
  }

  /** Until the next write-password command, the new password and no other lets a reader in. */
  lemma NewPassword(run: Run, n: nat, m: nat)
    requires IsRun(run) && n < m < |run.cmds| && run.cmds[n] == 0x11 && run.cmds[m] == 0x01
    requires run.inputs[n].wordOk && run.inputs[n].word == Reflect32(run.states[n].tag[0]) && run.inputs[n].word2Ok
    requires |run.inputs[n].windows| > 0 && run.inputs[n].windows[0].Request?
    requires forall k :: n < k < m ==> run.cmds[k] != 0x11
    ensures run.states[m + 1].login <==> run.inputs[m].wordOk && run.inputs[m].word == run.inputs[n].word2
  {
    hide Reflect32;
    PasswordArrives(run, n);
    PasswordStays(run, n + 1, m);
    LoginArrives(run, m);
    ReflectTwice(run.inputs[n].word2);
  }

  lemma {:induction false} PasswordStays(run: Run, n: nat, m: nat)
    requires IsRun(run) && n <= m <= |run.cmds| && forall k :: n <= k < m ==> run.cmds[k] != 0x11
    ensures run.states[m].tag[0] == run.states[n].tag[0]
    decreases m
  {
    hide Reflect32;
    if n < m {
      PasswordStays(run, n, m - 1);
      assert StepAt(run, m - 1);
    }
  }

  /**
    A reading command goes on until a window brings something: the command a reader asks for there is the next one, and
    a lost field leads back to standard read.
   */
  lemma NextCommand(run: Run, n: nat, q: nat)
    requires IsRun(run) && Chained(run) && n + 1 < |run.cmds| && Reads(run.cmds[n], run.inputs[n])
    requires q < |run.inputs[n].windows| && forall k :: 0 <= k < q ==> run.inputs[n].windows[k].Quiet?
    requires run.inputs[n].windows[q].Lost?
      || (run.inputs[n].windows[q].Request? && run.inputs[n].windows[q].command != 0)
    ensures run.cmds[n + 1]
      == match run.inputs[n].windows[q] case Request(c) => c case _ => 0x02
  {
    hide Reflect32, Shr;
    assert StepAt(run, n);
    SilenceIs(run.inputs[n].windows, q);
  }

  /** The simulation ends exactly when the button is pressed between pages, or with a write behind the last word. */
  lemma StopsIs(run: Run, i: Input)
    requires IsRun(run)
    ensures
      var s, command := run.states[|run.cmds|], CommandAt(run, |run.cmds|);
      Stops(run, i)
        == (command == -5
            || (command == 0x12 && i.addrOk && i.wordOk && i.addr >= 34
                && (InProtectedRange(s.tag, i.addr) ==> s.login)))
  {
    hide Reflect32;
    RangeIs(run.states[|run.cmds|].tag, i.addr);
    hide Protected, InProtectedRange;
  }
}
