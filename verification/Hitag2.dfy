/**
  Hitag 2: the reader and the simulated tag as two state machines that talk to each other in frames of bits.
 */
module Hitag2 {
  import opened Bits
  import opened Cbc

  // ---------------------------------------------------------------------------
  // The cipher and frames
  // ---------------------------------------------------------------------------

  /** A stream cipher: the state for a key, serial number and nonce, the next state, the bit a state shows. */
  datatype Cipher = Cipher(init: (seq<byte>, seq<byte>, seq<byte>) -> nat, next: nat -> nat, filter: nat -> bool)

  /** The state `n` bits on. */
  function After(c: Cipher, s: nat, n: nat): nat
    decreases n
  {
    if n == 0 then s else After(c, c.next(s), n - 1)
  }

  function KeyBits(c: Cipher, s: nat, n: nat): (k: seq<bool>)
    ensures |k| == n
    decreases n
  {
    if n == 0 then [] else [c.filter(c.next(s))] + KeyBits(c, c.next(s), n - 1)
  }

  /** The next `n` key bits from the top of a byte down. */
  function KeyByte(c: Cipher, s: nat, n: nat): byte
    requires n <= 8
  {
    ByteOf(KeyBits(c, s, n) + Zeros(8 - n))
  }

  /** `bytes` combined with the key bits from state `s` on; the inverse of itself. */
  function Crypt(c: Cipher, s: nat, bytes: seq<byte>, bits: nat): (r: seq<byte>)
    requires |bytes| == ByteCount(bits)
    ensures |r| == |bytes|
    decreases bits
  {
    if bits == 0 then []
    else if bits < 8 then [XorByte(bytes[0], KeyByte(c, s, bits))]
    else [XorByte(bytes[0], KeyByte(c, s, 8))] + Crypt(c, After(c, s, 8), bytes[1..], bits - 8)
  }

  lemma {:induction false} CryptTwice(c: Cipher, s: nat, bytes: seq<byte>, bits: nat)
    requires |bytes| == ByteCount(bits)
    ensures Crypt(c, s, Crypt(c, s, bytes, bits), bits) == bytes
    decreases bits
  {
    hide XorByte, KeyByte, After;
    if bits > 0 {
      XorByteTwice(bytes[0], KeyByte(c, s, if bits < 8 then bits else 8));
      if bits >= 8 { CryptTwice(c, After(c, s, 8), bytes[1..], bits - 8); }
    }
  }

  lemma {:induction false} AfterAfter(c: Cipher, s: nat, m: nat, n: nat)
    ensures After(c, After(c, s, m), n) == After(c, s, m + n)
    decreases m
  {
    if m > 0 { AfterAfter(c, c.next(s), m - 1, n); }
  }

  /** The first `n` bits of a byte, the others cleared. */
  function MaskTop(b: byte, n: nat): byte
    requires n <= 8
  {
    ByteOf(MsbFirst(b)[..n] + Zeros(8 - n))
  }

  /** A frame on air: its bits packed from the top of each byte down. */
  datatype Frame = Frame(bytes: seq<byte>, bits: nat) {
    ghost predicate Shaped() { |bytes| == ByteCount(bits) }

    /** The unused bits of the last byte are clear. */
    ghost predicate Clean() {
      Shaped() && (bits % 8 != 0 ==> MaskTop(bytes[|bytes| - 1], bits % 8) == bytes[|bytes| - 1])
    }
  }

  const SILENCE := Frame([], 0)

  /** What the first `bits` bits of a transmit buffer look like in a cleared receive buffer. */
  function OnAir(buffer: seq<byte>, bits: nat): (f: Frame)
    requires bits <= 8 * |buffer|
    ensures f.Shaped()
  {
    Frame(buffer[..bits / 8] + if bits % 8 == 0 then [] else [MaskTop(buffer[bits / 8], bits % 8)], bits)
  }

  // ---------------------------------------------------------------------------
  // Commands
  // ---------------------------------------------------------------------------

  const START_AUTH: byte := 0xC0
  const READ_PAGE: byte := 0xC0
  const READ_PAGE_INVERTED: byte := 0x44
  const WRITE_PAGE: byte := 0x82

  type Page = p: nat | p < 8

  /** Ten bits: the operation's bits around the page number, then the complement of the page number. */
  function Command(op: byte, page: Page): (r: seq<byte>)
    requires op == READ_PAGE || op == READ_PAGE_INVERTED || op == WRITE_PAGE
    ensures |r| == 2
  {
    [op + page * 8 + (7 - page) / 4, (7 - page) % 4 * 64]
  }

  function PageField(b: byte): Page { b / 8 % 8 }

  /**
    The tag's tests on the two bytes: the complemented page number matches the page field, and the remaining
    bits are `op`'s.
   */
  predicate Tested(b0: byte, b1: byte, op: byte) {
    var sector := 7 - (b0 % 2 * 4 + b1 / 64);
    sector == b0 / 8 % 8 && b0 - b0 / 8 % 8 * 8 - b0 % 2 == op
  }

  /** The tests accept exactly the command words. */
  lemma TestedIsCommand(b0: byte, b1: byte, op: byte)
    requires op == READ_PAGE || op == READ_PAGE_INVERTED || op == WRITE_PAGE
    requires b1 % 64 == 0
    ensures Tested(b0, b1, op) <==> [b0, b1] == Command(op, PageField(b0))
  {
    hide Command, PageField;
    var page: int, low: int, two: int := b0 / 8 % 8, b0 % 2, b1 / 64;
    SplitComplement(low, two, page);
    CommandIs(b0, b1, op, page);
    assert PageField(b0) == page by { FieldIs(b0); }
  }

  lemma FieldIs(b: byte)
    ensures PageField(b) == b / 8 % 8
  {
  }

  lemma CommandIs(b0: byte, b1: byte, op: byte, page: Page)
    requires op == READ_PAGE || op == READ_PAGE_INVERTED || op == WRITE_PAGE
    requires b1 % 64 == 0
    ensures [b0, b1] == Command(op, page)
      <==> b0 == op + page * 8 + b0 % 2 && b0 % 2 == (7 - page) / 4 && b1 / 64 == (7 - page) % 4
  {
    var high: int, two: int := (7 - page) / 4, (7 - page) % 4;
    assert high == 0 || high == 1;
    assert op % 2 == 0 && page * 8 % 2 == 0;
    assert (op + page * 8 + high) % 2 == high;
    var x: int := b1;
    assert x == 64 * (x / 64);
  }

  lemma SplitComplement(low: int, two: int, page: int)
    requires 0 <= low < 2 && 0 <= two < 4 && 0 <= page < 8
    ensures 7 - (low * 4 + two) == page <==> low == (7 - page) / 4 && two == (7 - page) % 4
  {
    var k := 7 - page;
    assert k == 4 * (k / 4) + k % 4;
  }

  // ---------------------------------------------------------------------------
  // The tag
  // ---------------------------------------------------------------------------

  type Pages = p: seq<seq<byte>> | |p| == 8 && forall i :: 0 <= i < 8 ==> |p[i]| == 4
    witness [[0, 0, 0, 0], [0, 0, 0, 0], [0, 0, 0, 0], [0, 0, 0, 0], [0, 0, 0, 0], [0, 0, 0, 0], [0, 0, 0, 0], [0, 0, 0, 0]]

  /** `crypto`: frames are encrypted from `cs` on; `writing`: the next 32 bits are for page `active`. */
  datatype TagState = TagState(pages: Pages, crypto: bool, cs: nat, writing: bool, active: Page)

  datatype Answer = Answer(tag: TagState, frame: Frame)

  /** The 48-bit key, low byte first, as the tag keeps it in pages 2 and 1. */
  function KeyOf(pages: Pages): (k: seq<byte>)
    ensures |k| == 6
  {
    pages[2][2..] + pages[1]
  }

  function Invert(bytes: seq<byte>): (r: seq<byte>)
    ensures |r| == |bytes|
  {
    seq(|bytes|, i requires 0 <= i < |bytes| => 255 - bytes[i])
  }

  /** The four complemented key bytes that prove knowledge of the key. */
  function Authenticator(c: Cipher, s: nat): (r: seq<byte>)
    ensures |r| == 4
  {
    Invert(Crypt(c, s, [0, 0, 0, 0], 32))
  }

  /** An answer in the clear, encrypted if the tag's encryption is on. */
  function Reply(c: Cipher, tag: TagState, bytes: seq<byte>, bits: nat): Answer
    requires |bytes| == ByteCount(bits)
  {
    if tag.crypto then Answer(tag.(cs := After(c, tag.cs, bits)), Frame(Crypt(c, tag.cs, bytes, bits), bits))
    else Answer(tag, Frame(bytes, bits))
  }

  function NoReply(tag: TagState): Answer { Answer(tag, SILENCE) }

  function PageCommand(c: Cipher, tag: TagState, plain: seq<byte>): Answer
    requires |plain| == 2
  {
    var page := PageField(plain[0]);
    if plain == Command(READ_PAGE, page) then Reply(c, tag, tag.pages[page], 32)
    else if plain == Command(READ_PAGE_INVERTED, page) then Reply(c, tag, Invert(tag.pages[page]), 32)
    else if plain == Command(WRITE_PAGE, page) then Reply(c, tag.(writing := true, active := page), plain, 10)
    else NoReply(tag)
  }

  function DataOrPassword(c: Cipher, tag: TagState, plain: seq<byte>): Answer
    requires |plain| == 4
  {
    if tag.writing then NoReply(tag.(pages := tag.pages[tag.active := plain], writing := false))
    else if plain == tag.pages[1] then Reply(c, tag, tag.pages[3], 32)
    else NoReply(tag)
  }

  function Challenge(c: Cipher, tag: TagState, plain: seq<byte>): Answer
    requires |plain| == 8
  {
    var s := c.init(KeyOf(tag.pages), tag.pages[0], plain[..4]);
    var next := tag.(cs := After(c, s, 32));
    if plain[4..] == Authenticator(c, s) then Reply(c, next.(crypto := true), tag.pages[3], 32) else NoReply(next)
  }

  /** What the tag does with a frame. */
  function TagStep(c: Cipher, tag: TagState, rx: Frame): Answer
    requires rx.Shaped()
  {
    var plain := if tag.crypto then Crypt(c, tag.cs, rx.bytes, rx.bits) else rx.bytes;
    var t := if tag.crypto then tag.(cs := After(c, tag.cs, rx.bits)) else tag;
    if rx.bits == 5 then if rx.bytes == [START_AUTH] then Reply(c, t.(crypto := false), t.pages[0], 32) else NoReply(t)
    else if rx.bits == 10 then PageCommand(c, t, plain)
    else if rx.bits == 32 then DataOrPassword(c, t, plain)
    else if rx.bits == 64 then Challenge(c, t, plain)
    else NoReply(t)
  }

  /** The only frame that changes memory is the 32-bit one after a write command, and it sets that page. */
  lemma {:induction false} MemoryKept(c: Cipher, tag: TagState, rx: Frame)
    requires rx.Shaped()
    ensures
      var plain := if tag.crypto then Crypt(c, tag.cs, rx.bytes, rx.bits) else rx.bytes;
      TagStep(c, tag, rx).tag.pages
        == if rx.bits == 32 && tag.writing then tag.pages[tag.active := plain] else tag.pages
  {
    hide Crypt, After, Command, Authenticator, KeyOf;
  }

  // ---------------------------------------------------------------------------
  // The reader
  // ---------------------------------------------------------------------------

  /** `secret`: the 4-byte password, or the 6-byte key when `crypto`. */
  datatype Job = Job(crypto: bool, secret: seq<byte>, write: bool, data: seq<byte>) {
    predicate Valid() { |secret| == (if crypto then 6 else 4) && |data| == 4 }
  }

  /** Where the reader is in its exchange: what it has sent last. */
  datatype Phase = Start | Login | Fetch | PageSent | DataSent

  datatype ReaderState = ReaderState(phase: Phase, page: nat, cs: nat, pages: Pages, success: bool) {
    predicate Valid(job: Job) {
      match phase
      case Start | Login => job.write ==> page < 8
      case Fetch => !job.write && page < 8
      case PageSent | DataSent => job.write && page < 8
    }
  }

  datatype Turn = Stop(reader: ReaderState) | Emit(reader: ReaderState, frame: Frame)

  /** Frames are encrypted once the tag has accepted the key. */
  function Encrypted(job: Job, r: ReaderState): bool { job.crypto && r.phase != Start }

  function Plain(c: Cipher, job: Job, r: ReaderState, rx: Frame): (p: seq<byte>)
    requires rx.Shaped()
    ensures |p| == |rx.bytes|
  {
    if Encrypted(job, r) then Crypt(c, r.cs, rx.bytes, rx.bits) else rx.bytes
  }

  /** Sends `bytes` under the encryption in force. */
  function Transmit(c: Cipher, job: Job, r: ReaderState, bytes: seq<byte>, bits: nat): Turn
    requires |bytes| == ByteCount(bits)
  {
    if job.crypto then Emit(r.(cs := After(c, r.cs, bits)), Frame(Crypt(c, r.cs, bytes, bits), bits))
    else Emit(r, Frame(bytes, bits))
  }

  /** On the serial number: the password, or a zero nonce and the authenticator. */
  function Unlock(c: Cipher, job: Job, r: ReaderState, uid: seq<byte>): Turn
    requires job.Valid()
  {
    if job.crypto then
      var s := c.init(job.secret, uid, [0, 0, 0, 0]);
      Emit(r.(phase := Login, cs := After(c, s, 32)), Frame([0, 0, 0, 0] + Authenticator(c, s), 64))
    else Emit(r.(phase := Login), Frame(job.secret, 32))
  }

  /** The next page, or the successful end behind the last one. */
  function Next(c: Cipher, job: Job, r: ReaderState): Turn
  {
    if r.page > 7 then Stop(r.(phase := Fetch, success := true))
    else Transmit(c, job, r.(phase := Fetch), Command(READ_PAGE, r.page), 10)
  }

  /** A page that is not answered is skipped; the pages that hold the key are known anyway. */
  function Skip(job: Job, r: ReaderState): Turn
    requires job.Valid() && r.page < 8
  {
    var known :=
      if r.page == 1 && job.crypto then job.secret[2..]
      else if r.page == 2 && job.crypto then [0, 0] + job.secret[..2]
      else [0, 0, 0, 0];
    Emit(r.(phase := Start, page := r.page + 1, pages := r.pages[r.page := known]), SILENCE)
  }

  /** The data, once the tag has repeated the write command. */
  function Commit(c: Cipher, job: Job, r: ReaderState, plain: seq<byte>): Turn
    requires job.Valid() && r.page < 8
  {
    if plain == Command(WRITE_PAGE, r.page) then Transmit(c, job, r.(phase := DataSent), job.data, 32)
    else Stop(r.(success := false))
  }

  function OnStart(c: Cipher, job: Job, r: ReaderState, plain: seq<byte>, bits: nat): Turn
    requires job.Valid()
  {
    if bits == 0 then Emit(r, Frame([START_AUTH], 5))
    else if bits == 32 then Unlock(c, job, r, plain)
    else Stop(r)
  }

  function OnLogin(c: Cipher, job: Job, r: ReaderState, bits: nat): Turn
    requires job.Valid() && (job.write ==> r.page < 8)
  {
    if bits != 32 then Stop(r)
    else if job.write then Transmit(c, job, r.(phase := PageSent), Command(WRITE_PAGE, r.page), 10)
    else Next(c, job, r)
  }

  function OnPage(c: Cipher, job: Job, r: ReaderState, plain: seq<byte>, bits: nat): Turn
    requires job.Valid() && r.page < 8 && (bits == 32 ==> |plain| == 4)
  {
    if bits == 32 then Next(c, job, r.(pages := r.pages[r.page := plain], page := r.page + 1))
    else if bits == 0 && job.crypto then Skip(job, r)
    else Stop(r)
  }

  /** The reader's answer to a frame, or to silence. */
  function ReaderStep(c: Cipher, job: Job, reader: ReaderState, rx: Frame): Turn
    requires job.Valid() && reader.Valid(job) && rx.Shaped()
  {
    var plain := Plain(c, job, reader, rx);
    var r := if Encrypted(job, reader) then reader.(cs := After(c, reader.cs, rx.bits)) else reader;
    match r.phase
    case Start => OnStart(c, job, r, plain, rx.bits)
    case Login => OnLogin(c, job, r, rx.bits)
    case Fetch => OnPage(c, job, r, plain, rx.bits)
    case PageSent => if rx.bits == 10 then Commit(c, job, r, plain) else Stop(r.(success := false))
    case DataSent => Stop(r.(success := rx.bits == 0))
  }

  // ---------------------------------------------------------------------------
  // Reader and tag together
  // ---------------------------------------------------------------------------

  /** `rx`: what the reader heard last. */
  datatype World = World(reader: ReaderState, tag: TagState, rx: Frame, done: bool) {
    ghost predicate Valid(job: Job) { job.Valid() && rx.Shaped() && (done || reader.Valid(job)) }
  }

  /** One round: the reader's turn, the tag's answer. A reading reader gives up when there is none. */
  function Exchange(c: Cipher, job: Job, w: World): World
    requires w.Valid(job)
  {
    if w.done then w
    else match ReaderStep(c, job, w.reader, w.rx)
      case Stop(r) => w.(reader := r, done := true)
      case Emit(r, f) =>
        var a := TagStep(c, w.tag, f);
        World(r, a.tag, a.frame, !job.write && a.frame.bits == 0)
  }

  lemma ReplyShaped(c: Cipher, tag: TagState, rx: Frame)
    requires rx.Shaped()
    ensures TagStep(c, tag, rx).frame.Shaped()
  {
    hide Crypt, After, Command, Authenticator, KeyOf;
  }

  lemma TurnValid(c: Cipher, job: Job, r: ReaderState, rx: Frame)
    requires job.Valid() && r.Valid(job) && rx.Shaped()
    ensures
      var turn := ReaderStep(c, job, r, rx);
      turn.Emit? ==> turn.reader.Valid(job) && turn.frame.Shaped()
  {
    hide Crypt, After, Command, Authenticator;
  }

  lemma ExchangeValid(c: Cipher, job: Job, w: World)
    requires w.Valid(job)
    ensures Exchange(c, job, w).Valid(job)
  {
    hide ReaderStep, TagStep;
    if !w.done {
      TurnValid(c, job, w.reader, w.rx);
      var turn := ReaderStep(c, job, w.reader, w.rx);
      if turn.Emit? { ReplyShaped(c, w.tag, turn.frame); }
    }
  }

  /** The rounds a session can still take. */
  function Rank(w: World): nat {
    if w.done then 0
    else match w.reader.phase
      case Start => if w.rx.bits == 0 then 13 else 12
      case Login => 11
      case Fetch => if w.reader.page > 7 then 2 else 10 - w.reader.page
      case PageSent => 2
      case DataSent => 1
  }

  /** Whatever the two start from, a session ends. */
  lemma RankFalls(c: Cipher, job: Job, w: World)
    requires w.Valid(job) && !w.done
    ensures Rank(Exchange(c, job, w)) < Rank(w)
  {
    hide Crypt, After, Command, Authenticator, KeyOf, XorByte;
    var turn := ReaderStep(c, job, w.reader, w.rx);
    if turn.Emit? {
      if w.reader.phase == Start && w.rx.bits == 0 {
        assert turn.frame == Frame([START_AUTH], 5);
        assert TagStep(c, w.tag, turn.frame).frame.bits == 32;
      }
    }
  }

  /** The whole session. */
  function Session(c: Cipher, job: Job, w: World): World
    requires w.Valid(job)
    decreases Rank(w)
  {
    if w.done then w
    else
      RankFalls(c, job, w);
      ExchangeValid(c, job, w);
      Session(c, job, Exchange(c, job, w))
  }

  // ---------------------------------------------------------------------------
  // Sessions with the right secret
  // ---------------------------------------------------------------------------

  /** The secret is the one the tag keeps. */
  ghost predicate Knows(job: Job, pages: Pages) { job.secret == if job.crypto then KeyOf(pages) else pages[1] }

  /** The tag's memory after the job. */
  function Goal(job: Job, pages: Pages, page: Page): Pages
    requires job.Valid()
  {
    if job.write then pages[page := job.data] else pages
  }

  /**
    Between turns the tag is ahead of the reader by exactly the frame on air: once the reader has decrypted it,
    both ciphers are in the same state.
   */
  ghost predicate Lockstep(c: Cipher, job: Job, w: World) {
    w.tag.crypto == job.crypto && (job.crypto ==> After(c, w.reader.cs, w.rx.bits) == w.tag.cs)
  }

  /** What holds after every round of a session with the right secret; `pages` is the tag's memory before it. */
  ghost predicate InStep(c: Cipher, job: Job, w: World, pages: Pages, page: Page) {
    w.Valid(job) && Knows(job, pages)
    && if w.done then w.reader.success && w.tag.pages == Goal(job, pages, page) && (job.write || w.reader.pages == pages)
       else match w.reader.phase
         case Start => Opening(job, w, pages) && w.reader.page == if job.write then page else 0
         case Login => LoggedIn(c, job, w, pages) && w.reader.page == if job.write then page else 0
         case Fetch => Fetching(c, job, w, pages)
         case PageSent => Addressed(c, job, w, pages, page)
         case DataSent => w.rx.bits == 0 && w.tag.pages == Goal(job, pages, page) && Lockstep(c, job, w)
  }

  ghost predicate Opening(job: Job, w: World, pages: Pages) {
    w.tag.pages == pages && (job.crypto || !w.tag.writing)
    && (w.rx.bits == 0 || (w.rx == Frame(pages[0], 32) && !w.tag.crypto))
  }

  /** The tag has answered with its configuration page. */
  ghost predicate LoggedIn(c: Cipher, job: Job, w: World, pages: Pages)
    requires w.rx.Shaped()
  {
    w.tag.pages == pages && w.rx.bits == 32 && Lockstep(c, job, w) && Plain(c, job, w.reader, w.rx) == pages[3]
  }

  ghost predicate Fetching(c: Cipher, job: Job, w: World, pages: Pages)
    requires w.rx.Shaped()
  {
    && w.tag.pages == pages && w.rx.bits == 32 && Lockstep(c, job, w) && w.reader.page < 8
    && Plain(c, job, w.reader, w.rx) == pages[w.reader.page]
    && w.reader.pages[..w.reader.page] == pages[..w.reader.page]
  }

  ghost predicate Addressed(c: Cipher, job: Job, w: World, pages: Pages, page: Page)
    requires w.rx.Shaped()
  {
    && w.tag.pages == pages && w.rx.bits == 10 && Lockstep(c, job, w) && w.reader.page == page
    && Plain(c, job, w.reader, w.rx) == Command(WRITE_PAGE, page) && w.tag.writing && w.tag.active == page
  }

  /** `bytes` as a party in cipher state `s` puts them on air. */
  function Secure(c: Cipher, crypto: bool, s: nat, bytes: seq<byte>, bits: nat): (f: Frame)
    requires |bytes| == ByteCount(bits)
    ensures f.Shaped() && f.bits == bits
  {
    Frame(if crypto then Crypt(c, s, bytes, bits) else bytes, bits)
  }

  function Ahead(c: Cipher, tag: TagState, bits: nat): TagState {
    if tag.crypto then tag.(cs := After(c, tag.cs, bits)) else tag
  }

  /** The tag takes in a frame encrypted at its own position. */
  lemma TagHears(c: Cipher, tag: TagState, bytes: seq<byte>, bits: nat)
    requires |bytes| == ByteCount(bits) && (bits == 10 || bits == 32)
    ensures
      var f := Secure(c, tag.crypto, tag.cs, bytes, bits);
      TagStep(c, tag, f)
        == if bits == 10 then PageCommand(c, Ahead(c, tag, 10), bytes) else DataOrPassword(c, Ahead(c, tag, 32), bytes)
  {
    hide Crypt, After, PageCommand, DataOrPassword, Challenge, Reply;
    CryptTwice(c, tag.cs, bytes, bits);
  }

  lemma CommandField(op: byte, page: Page)
    requires op == READ_PAGE || op == READ_PAGE_INVERTED || op == WRITE_PAGE
    ensures PageField(Command(op, page)[0]) == page
  {
  }

  lemma ReadAnswered(c: Cipher, tag: TagState, page: Page)
    ensures PageCommand(c, tag, Command(READ_PAGE, page)) == Reply(c, tag, tag.pages[page], 32)
  {
    hide Reply;
    CommandField(READ_PAGE, page);
  }

  lemma WriteAnswered(c: Cipher, tag: TagState, page: Page)
    ensures
      PageCommand(c, tag, Command(WRITE_PAGE, page))
        == Reply(c, tag.(writing := true, active := page), Command(WRITE_PAGE, page), 10)
  {
    hide Reply;
    CommandField(WRITE_PAGE, page);
  }

  /** The tag's reply, read by a reader that was in step. */
  lemma ReplyRead(c: Cipher, job: Job, r: ReaderState, tag: TagState, bytes: seq<byte>, bits: nat)
    requires |bytes| == ByteCount(bits) && tag.crypto == job.crypto && r.phase != Start
    requires job.crypto ==> r.cs == tag.cs
    ensures
      var a := Reply(c, tag, bytes, bits);
      && a.frame.Shaped() && a.frame.bits == bits
      && a.tag == Ahead(c, tag, bits)
      && Plain(c, job, r, a.frame) == bytes
      && (job.crypto ==> After(c, r.cs, bits) == a.tag.cs)
  {
    hide Crypt, After;
    CryptTwice(c, tag.cs, bytes, bits);
  }

  lemma NextKept(c: Cipher, job: Job, r: ReaderState, tag: TagState, pages: Pages)
    requires job.Valid() && !job.write && r.phase != Start && r.page <= 8 && r.pages[..r.page] == pages[..r.page]
    requires tag.pages == pages && tag.crypto == job.crypto && (job.crypto ==> r.cs == tag.cs)
    ensures
      match Next(c, job, r)
      case Stop(e) => e.success && e.pages == pages
      case Emit(e, f) =>
        && f.Shaped() && e.phase == Fetch && e.page < 8
        && var a := TagStep(c, tag, f);
        a.frame.Shaped() && a.frame.bits == 32 && Fetching(c, job, World(e, a.tag, a.frame, false), pages)
  {
    hide Crypt, After, TagStep, PageCommand, Reply, Command, Plain;
    if r.page > 7 {
      assert r.pages == pages;
    } else {
      var e := Next(c, job, r).reader;
      TagHears(c, tag, Command(READ_PAGE, r.page), 10);
      ReadAnswered(c, Ahead(c, tag, 10), r.page);
      ReplyRead(c, job, e, Ahead(c, tag, 10), pages[r.page], 32);
    }
  }

  /** The reader with the page it has just received. */
  function Stored(c: Cipher, job: Job, r: ReaderState, page: seq<byte>): ReaderState
    requires r.page < 8 && |page| == 4
  {
    r.(cs := if job.crypto then After(c, r.cs, 32) else r.cs, pages := r.pages[r.page := page], page := r.page + 1)
  }

  lemma FetchTurn(c: Cipher, job: Job, w: World, pages: Pages)
    requires w.Valid(job) && !w.done && w.reader.phase == Fetch && Fetching(c, job, w, pages)
    ensures ReaderStep(c, job, w.reader, w.rx) == Next(c, job, Stored(c, job, w.reader, pages[w.reader.page]))
  {
    hide Crypt, After, Plain, Next;
  }

  lemma FetchKept(c: Cipher, job: Job, w: World, pages: Pages)
    requires w.Valid(job) && !w.done && w.reader.phase == Fetch && Fetching(c, job, w, pages)
    ensures
      var x := Exchange(c, job, w);
      && x.Valid(job)
      && if x.done then x.reader.success && x.reader.pages == pages && x.tag.pages == pages
         else x.reader.phase == Fetch && Fetching(c, job, x, pages)
  {
    ExchangeValid(c, job, w);
    FetchTurn(c, job, w, pages);
    var n, stored := w.reader.page, Stored(c, job, w.reader, pages[w.reader.page]);
    assert stored.pages[..n + 1] == pages[..n + 1];
    NextKept(c, job, stored, w.tag, pages);
    hide Fetching, TagStep, ReaderStep, Next, Stored;
  }

  lemma LoginKept(c: Cipher, job: Job, w: World, pages: Pages, page: Page)
    requires w.Valid(job) && !w.done && w.reader.phase == Login && LoggedIn(c, job, w, pages)
    requires w.reader.page == if job.write then page else 0
    ensures
      var x := Exchange(c, job, w);
      && x.Valid(job) && !x.done
      && if job.write then x.reader.phase == PageSent && Addressed(c, job, x, pages, page)
         else x.reader.phase == Fetch && Fetching(c, job, x, pages)
  {
    ExchangeValid(c, job, w);
    hide Crypt, After, TagStep, Plain, Command, Next, Reply, PageCommand;
    var r0, tag := w.reader, w.tag;
    var r := if job.crypto then r0.(cs := After(c, r0.cs, 32)) else r0;
    if job.write {
      var e := Transmit(c, job, r.(phase := PageSent), Command(WRITE_PAGE, page), 10).reader;
      TagHears(c, tag, Command(WRITE_PAGE, page), 10);
      var t := Ahead(c, tag, 10);
      WriteAnswered(c, t, page);
      ReplyRead(c, job, e, t.(writing := true, active := page), Command(WRITE_PAGE, page), 10);
    } else {
      NextEmits(c, job, r);
      NextKept(c, job, r, tag, pages);
    }
  }

  lemma NextEmits(c: Cipher, job: Job, r: ReaderState)
    requires r.page < 8
    ensures Next(c, job, r).Emit?
  {
  }

  lemma CommitKept(c: Cipher, job: Job, w: World, pages: Pages, page: Page)
    requires w.Valid(job) && !w.done && w.reader.phase == PageSent && Addressed(c, job, w, pages, page)
    ensures
      var x := Exchange(c, job, w);
      && x.Valid(job) && !x.done && x.reader.phase == DataSent && x.rx.bits == 0
      && x.tag.pages == Goal(job, pages, page) && Lockstep(c, job, x)
  {
    ExchangeValid(c, job, w);
    hide Crypt, After, TagStep, Plain, Command;
    var r0, tag := w.reader, w.tag;
    var r := if job.crypto then r0.(cs := After(c, r0.cs, 10)) else r0;
    TagHears(c, tag, job.data, 32);
    assert After(c, w.tag.cs, 0) == w.tag.cs by { Still(c, w.tag.cs); }
    Still(c, After(c, tag.cs, 32));
  }

  lemma Still(c: Cipher, s: nat)
    ensures After(c, s, 0) == s
  {
  }

  lemma Greeted(c: Cipher, tag: TagState)
    ensures
      var a := TagStep(c, tag, Frame([START_AUTH], 5));
      && a.frame == Frame(tag.pages[0], 32)
      && a.tag == tag.(crypto := false, cs := if tag.crypto then After(c, tag.cs, 5) else tag.cs)
  {
    hide Crypt, After;
  }

  /** The tag accepts the right secret and answers with its configuration page. */
  lemma Accepted(c: Cipher, job: Job, r: ReaderState, tag: TagState)
    requires job.Valid() && Knows(job, tag.pages) && !tag.crypto && (job.crypto || !tag.writing)
    ensures
      var turn := Unlock(c, job, r, tag.pages[0]);
      && turn.Emit? && turn.frame.Shaped() && turn.reader == r.(phase := Login, cs := turn.reader.cs)
      && turn.frame.bits != 10
      && var a := TagStep(c, tag, turn.frame);
      && a.frame.Shaped() && a.frame.bits == 32 && a.tag.pages == tag.pages && a.tag.crypto == job.crypto
      && (job.crypto ==> After(c, turn.reader.cs, 32) == a.tag.cs)
      && a == Reply(c, tag.(crypto := job.crypto, cs := if job.crypto then turn.reader.cs else tag.cs), tag.pages[3], 32)
  {
    hide Crypt, After, Authenticator, KeyOf;
    if job.crypto {
      var s := c.init(job.secret, tag.pages[0], [0, 0, 0, 0]);
      var sent := [0, 0, 0, 0] + Authenticator(c, s);
      assert sent[..4] == [0, 0, 0, 0] && sent[4..] == Authenticator(c, s);
    }
  }

  lemma StartKept(c: Cipher, job: Job, w: World, pages: Pages, page: Page)
    requires w.Valid(job) && !w.done && w.reader.phase == Start && Opening(job, w, pages) && Knows(job, pages)
    ensures
      var x := Exchange(c, job, w);
      && x.Valid(job) && !x.done && x.reader.page == w.reader.page
      && if w.rx.bits == 0 then x.reader.phase == Start && Opening(job, x, pages)
         else x.reader.phase == Login && LoggedIn(c, job, x, pages)
  {
    ExchangeValid(c, job, w);
    hide Crypt, After, TagStep, Unlock, Authenticator, KeyOf, Plain, Reply;
    if w.rx.bits == 0 {
      Greeted(c, w.tag);
    } else {
      Accepted(c, job, w.reader, w.tag);
      var r := Unlock(c, job, w.reader, w.tag.pages[0]).reader;
      var t := w.tag.(crypto := job.crypto, cs := if job.crypto then r.cs else w.tag.cs);
      ReplyRead(c, job, r, t, w.tag.pages[3], 32);
    }
  }

  /** Every round of a session with the right secret keeps reader and tag in step. */
  lemma InStepKept(c: Cipher, job: Job, w: World, pages: Pages, page: Page)
    requires InStep(c, job, w, pages, page)
    ensures InStep(c, job, Exchange(c, job, w), pages, page)
  {
    hide Opening, LoggedIn, Fetching, Addressed, Lockstep, Knows, ReaderStep, TagStep;
    if !w.done {
      match w.reader.phase
      case Start => StartKept(c, job, w, pages, page);
      case Login => LoginKept(c, job, w, pages, page);
      case Fetch => FetchKept(c, job, w, pages);
      case PageSent => CommitKept(c, job, w, pages, page);
      case DataSent => CommittedKept(c, job, w, pages, page);
    }
  }

  lemma CommittedKept(c: Cipher, job: Job, w: World, pages: Pages, page: Page)
    requires w.Valid(job) && !w.done && w.reader.phase == DataSent && w.rx.bits == 0
    requires w.tag.pages == Goal(job, pages, page)
    ensures
      var x := Exchange(c, job, w);
      x.done && x.reader.success && x.tag == w.tag && x.Valid(job)
  {
    hide Crypt, After;
  }

  /** The state of the session after `n` rounds. */
  function Run(c: Cipher, job: Job, w: World, n: nat): World
    requires w.Valid(job)
    decreases n
  {
    if n == 0 then w
    else
      ExchangeValid(c, job, w);
      Run(c, job, Exchange(c, job, w), n - 1)
  }

  /** In step at every round. */
  lemma {:induction false} AlwaysInStep(c: Cipher, job: Job, w: World, pages: Pages, page: Page, n: nat)
    requires InStep(c, job, w, pages, page)
    ensures InStep(c, job, Run(c, job, w, n), pages, page)
    decreases n
  {
    hide InStep, Exchange;
    assert w.Valid(job) by { StepsValid(c, job, w, pages, page); }
    if n > 0 {
      InStepKept(c, job, w, pages, page);
      ExchangeValid(c, job, w);
      AlwaysInStep(c, job, Exchange(c, job, w), pages, page, n - 1);
    }
  }

  lemma StepsValid(c: Cipher, job: Job, w: World, pages: Pages, page: Page)
    requires InStep(c, job, w, pages, page)
    ensures w.Valid(job)
  {
    hide Opening, LoggedIn, Fetching, Addressed, Lockstep, Knows;
  }

  lemma {:induction false} SessionInStep(c: Cipher, job: Job, w: World, pages: Pages, page: Page)
    requires InStep(c, job, w, pages, page) && w.Valid(job)
    ensures Session(c, job, w).done && InStep(c, job, Session(c, job, w), pages, page)
    decreases Rank(w)
  {
    hide InStep, Exchange, Rank;
    if !w.done {
      InStepKept(c, job, w, pages, page);
      ExchangeValid(c, job, w);
      RankFalls(c, job, w);
      SessionInStep(c, job, Exchange(c, job, w), pages, page);
    }
  }

  /** A session begins in silence: reader at the start, tag in any state. */
  function Begin(job: Job, page: Page, pages: Pages, cs: nat, tag: TagState): (w: World)
    requires job.Valid()
    ensures w.Valid(job)
  {
    World(ReaderState(Start, if job.write then page else 0, cs, pages, false), tag, SILENCE, false)
  }

  /**
    With the right secret a session succeeds: reading leaves the reader with all eight pages of the tag, writing
    replaces exactly the addressed page. In password mode the tag must not be waiting for data to write.
   */
  lemma RightSecret(c: Cipher, job: Job, page: Page, copy: Pages, cs: nat, tag: TagState)
    requires job.Valid() && Knows(job, tag.pages) && (job.crypto || !tag.writing)
    ensures
      var w := Session(c, job, Begin(job, page, copy, cs, tag));
      && w.done && w.reader.success
      && (!job.write ==> w.reader.pages == tag.pages && w.tag.pages == tag.pages)
      && (job.write ==> w.tag.pages == tag.pages[page := job.data])
  {
    var w := Begin(job, page, copy, cs, tag);
    assert InStep(c, job, w, tag.pages, page);
    SessionInStep(c, job, w, tag.pages, page);
  }

  /** The tag lets the reader in: the password is right and no data is awaited, or the authenticators agree. */
  ghost predicate LetsIn(c: Cipher, job: Job, tag: TagState) {
    if job.crypto then
      Authenticator(c, c.init(job.secret, tag.pages[0], [0, 0, 0, 0]))
        == Authenticator(c, c.init(KeyOf(tag.pages), tag.pages[0], [0, 0, 0, 0]))
    else job.secret == tag.pages[1] && !tag.writing
  }

  /** Frames of other lengths, and five bits that are not 11000, are not answered and change nothing but the cipher's place. */
  lemma Ignored(c: Cipher, tag: TagState, rx: Frame)
    requires rx.Shaped() && rx.bits !in {10, 32, 64} && (rx.bits == 5 ==> rx.bytes != [0xC0])
    ensures TagStep(c, tag, rx) == Answer(if tag.crypto then tag.(cs := After(c, tag.cs, rx.bits)) else tag, SILENCE)
  {
    hide Crypt, After;
  }

  /**
    When the reader stops for want of the frame it needs: anything but silence or a word while it waits for the serial
    number or, under encryption, for a page; anything but a word where one is due.  It has not succeeded, and nothing of
    what it has read is lost.
   */
  lemma GivesUp(c: Cipher, job: Job, r: ReaderState, rx: Frame)
    requires job.Valid() && r.Valid(job) && rx.Shaped() && !r.success
    requires match r.phase
      case Start => rx.bits != 0 && rx.bits != 32
      case Login => rx.bits != 32
      case Fetch => rx.bits != 32 && (rx.bits != 0 || !job.crypto)
      case PageSent => rx.bits != 10 || Plain(c, job, r, rx) != Command(WRITE_PAGE, r.page)
      case DataSent => rx.bits != 0
    ensures
      var turn := ReaderStep(c, job, r, rx);
      turn.Stop? && !turn.reader.success && turn.reader.pages == r.pages && turn.reader.page == r.page
  {
    hide Crypt, After, Command;
  }

  /** A refused reader hears nothing; a tag that was waiting for data takes the password for it. */
  lemma Refused(c: Cipher, job: Job, r: ReaderState, tag: TagState)
    requires job.Valid() && !tag.crypto && !LetsIn(c, job, tag)
    ensures
      var turn := Unlock(c, job, r, tag.pages[0]);
      && turn.Emit? && turn.frame.Shaped() && turn.reader == r.(phase := Login, cs := turn.reader.cs)
      && var a := TagStep(c, tag, turn.frame);
      && a.frame == SILENCE
      && a.tag
         == if job.crypto then tag.(cs := After(c, c.init(KeyOf(tag.pages), tag.pages[0], [0, 0, 0, 0]), 32))
            else if tag.writing then tag.(pages := tag.pages[tag.active := job.secret], writing := false) else tag
  {
    hide Crypt, After, Authenticator, KeyOf;
    if job.crypto {
      var s := c.init(job.secret, tag.pages[0], [0, 0, 0, 0]);
      var sent := [0, 0, 0, 0] + Authenticator(c, s);
      assert sent[..4] == [0, 0, 0, 0] && sent[4..] == Authenticator(c, s);
    }
  }

  /** The first round brings the serial number. */
  lemma FirstRound(c: Cipher, job: Job, page: Page, copy: Pages, cs: nat, tag: TagState)
    requires job.Valid()
    ensures
      var w := Exchange(c, job, Begin(job, page, copy, cs, tag));
      && w.Valid(job) && !w.done && w.reader == Begin(job, page, copy, cs, tag).reader
      && w.rx == Frame(tag.pages[0], 32) && !w.tag.crypto
      && w.tag.pages == tag.pages && w.tag.writing == tag.writing && w.tag.active == tag.active
  {
    hide TagStep;
    Greeted(c, tag);
    ExchangeValid(c, job, Begin(job, page, copy, cs, tag));
  }

  /** The second round is the refusal, and the reader stops at the silence. */
  lemma SecondRound(c: Cipher, job: Job, w: World)
    requires w.Valid(job) && !w.done && w.reader.phase == Start && !w.reader.success
    requires w.rx == Frame(w.tag.pages[0], 32) && !w.tag.crypto && !LetsIn(c, job, w.tag)
    ensures
      var x := Session(c, job, w);
      && x.done && !x.reader.success
      && x.tag.pages == if !job.crypto && w.tag.writing then w.tag.pages[w.tag.active := job.secret] else w.tag.pages
  {
    hide LetsIn, TagStep, Unlock, Crypt, After, Rank;
    Refused(c, job, w.reader, w.tag);
    ExchangeValid(c, job, w);
    var y := Exchange(c, job, w);
    assert y.rx.bits == 0 && y.reader.phase == Login;
    Unwind(c, job, w);
    if job.write {
      LoginSilence(c, job, y);
      Unwind(c, job, y);
      Unwind(c, job, Exchange(c, job, y));
    } else {
      Unwind(c, job, y);
    }
  }

  lemma LoginSilence(c: Cipher, job: Job, w: World)
    requires w.Valid(job) && !w.done && w.reader.phase == Login && w.rx.bits == 0 && !w.reader.success
    ensures
      var x := Exchange(c, job, w);
      x.done && !x.reader.success && x.tag == w.tag && x.Valid(job)
  {
    hide Crypt, After;
  }

  lemma Unwind(c: Cipher, job: Job, w: World)
    requires w.Valid(job)
    ensures
      Exchange(c, job, w).Valid(job)
      && Session(c, job, w) == if w.done then w else Session(c, job, Exchange(c, job, w))
  {
    ExchangeValid(c, job, w);
  }

  /** Without being let in a session fails and leaves the tag's pages alone, unless the tag was waiting for data. */
  lemma WrongSecret(c: Cipher, job: Job, page: Page, copy: Pages, cs: nat, tag: TagState)
    requires job.Valid() && !LetsIn(c, job, tag)
    ensures
      var w := Session(c, job, Begin(job, page, copy, cs, tag));
      && w.done && !w.reader.success
      && w.tag.pages == if !job.crypto && tag.writing then tag.pages[tag.active := job.secret] else tag.pages
  {
    var w := Begin(job, page, copy, cs, tag);
    hide TagStep, Rank, Crypt, After, Authenticator, Exchange;
    FirstRound(c, job, page, copy, cs, tag);
    SecondRound(c, job, Exchange(c, job, w));
    Unwind(c, job, w);
  }

  /** In password mode a session succeeds exactly when the password is right and the tag awaits no data. */
  lemma PasswordDecides(c: Cipher, job: Job, page: Page, copy: Pages, cs: nat, tag: TagState)
    requires job.Valid() && !job.crypto
    ensures Session(c, job, Begin(job, page, copy, cs, tag)).reader.success
      <==> job.secret == tag.pages[1] && !tag.writing
  {
    hide Session;
    if job.secret == tag.pages[1] && !tag.writing {
      RightSecret(c, job, page, copy, cs, tag);
    } else {
      WrongSecret(c, job, page, copy, cs, tag);
    }
  }

  // ---------------------------------------------------------------------------
  // A tag that does not answer for some of its pages
  // ---------------------------------------------------------------------------

  /** A tag that keeps silent when one of the pages in `mute` is to be read. */
  function MuteStep(c: Cipher, tag: TagState, rx: Frame, mute: set<Page>): Answer
    requires rx.Shaped()
  {
    var plain := if tag.crypto then Crypt(c, tag.cs, rx.bytes, rx.bits) else rx.bytes;
    if rx.bits == 10 && PageField(plain[0]) in mute && plain == Command(READ_PAGE, PageField(plain[0])) then
      NoReply(Ahead(c, tag, 10))
    else TagStep(c, tag, rx)
  }

  /** One round; a `patient` loop hands silence to the reader's turn like a frame of no bits, the other gives up. */
  function MuteExchange(c: Cipher, job: Job, w: World, mute: set<Page>, patient: bool): World
    requires w.Valid(job)
  {
    if w.done then w
    else match ReaderStep(c, job, w.reader, w.rx)
      case Stop(r) => w.(reader := r, done := true)
      case Emit(r, f) => var a := MuteStep(c, w.tag, f, mute); World(r, a.tag, a.frame, !patient && a.frame.bits == 0)
  }

  lemma {:induction false} MuteValid(c: Cipher, job: Job, w: World, mute: set<Page>, patient: bool)
    requires w.Valid(job)
    ensures MuteExchange(c, job, w, mute, patient).Valid(job)
  {
    hide ReaderStep, TagStep;
    if !w.done {
      TurnValid(c, job, w.reader, w.rx);
      var turn := ReaderStep(c, job, w.reader, w.rx);
      if turn.Emit? { ReplyShaped(c, w.tag, turn.frame); }
    }
  }

  function MuteRun(c: Cipher, job: Job, w: World, mute: set<Page>, patient: bool, n: nat): World
    requires w.Valid(job)
    decreases n
  {
    if n == 0 then w
    else
      MuteValid(c, job, w, mute, patient);
      MuteRun(c, job, MuteExchange(c, job, w, mute, patient), mute, patient, n - 1)
  }

  /** What the reader is to end up with for a page: the tag's where it answers, the key it knows, or zeros. */
  function Known(job: Job, pages: Pages, mute: set<Page>, page: Page): (r: seq<byte>)
    requires |job.secret| == 6
    ensures |r| == 4
  {
    if page !in mute then pages[page]
    else if page == 1 then [job.secret[2], job.secret[3], job.secret[4], job.secret[5]]
    else if page == 2 then [0, 0, job.secret[0], job.secret[1]]
    else [0, 0, 0, 0]
  }

  ghost predicate Collected(job: Job, r: ReaderState, pages: Pages, mute: set<Page>)
    requires |job.secret| == 6
  {
    r.page <= 8 && forall p: Page | p < r.page :: r.pages[p] == Known(job, pages, mute, p)
  }

  /** What holds at every round of a read from such a tag with the right key. */
  ghost predicate Coping(c: Cipher, job: Job, w: World, pages: Pages, mute: set<Page>) {
    && w.Valid(job) && job.crypto && !job.write && Knows(job, pages) && w.tag.pages == pages
    && Collected(job, w.reader, pages, mute)
    && if w.done then w.reader.success && w.reader.page == 8
       else match w.reader.phase
         case Start => w.rx.bits == 0 || (w.rx == Frame(pages[0], 32) && !w.tag.crypto)
         case Login => w.rx.bits == 32 && Lockstep(c, job, w)
         case Fetch => Awaiting(c, job, w, pages, mute)
         case _ => false
  }

  /** The page asked for has been answered, or is one that is not. */
  ghost predicate Awaiting(c: Cipher, job: Job, w: World, pages: Pages, mute: set<Page>)
    requires w.rx.Shaped()
  {
    && w.reader.page < 8
    && if w.reader.page in mute then w.rx.bits == 0
       else w.rx.bits == 32 && Lockstep(c, job, w) && Plain(c, job, w.reader, w.rx) == pages[w.reader.page]
  }

  function CopingRank(w: World): nat {
    if w.done || w.reader.page > 8 then 0
    else 4 * (8 - w.reader.page) + match w.reader.phase
      case Start => if w.rx.bits == 0 then 4 else 3
      case Login => 2
      case _ => 1
  }

  /** A read command for a page, as such a tag takes it. */
  lemma MuteHears(c: Cipher, tag: TagState, page: Page, mute: set<Page>)
    ensures
      var f := Secure(c, tag.crypto, tag.cs, Command(READ_PAGE, page), 10);
      MuteStep(c, tag, f, mute)
        == if page in mute then NoReply(Ahead(c, tag, 10)) else Reply(c, Ahead(c, tag, 10), tag.pages[page], 32)
  {
    hide Crypt, After, TagStep, PageCommand, Reply, Command;
    CryptTwice(c, tag.cs, Command(READ_PAGE, page), 10);
    CommandField(READ_PAGE, page);
    TagHears(c, tag, Command(READ_PAGE, page), 10);
    ReadAnswered(c, Ahead(c, tag, 10), page);
  }

  lemma {:induction false} CopingNext(c: Cipher, job: Job, r: ReaderState, tag: TagState, pages: Pages, mute: set<Page>)
    requires job.Valid() && job.crypto && !job.write && r.phase != Start && Collected(job, r, pages, mute)
    requires tag.pages == pages && tag.crypto && r.cs == tag.cs
    ensures
      match Next(c, job, r)
      case Stop(e) => e.success && r.page == 8 && e == r.(phase := Fetch, success := true)
      case Emit(e, f) =>
        && f.Shaped() && e.phase == Fetch && e == r.(phase := Fetch, cs := e.cs)
        && var a := MuteStep(c, tag, f, mute);
        a.frame.Shaped() && a.tag.pages == pages && Awaiting(c, job, World(e, a.tag, a.frame, false), pages, mute)
  {
    hide Crypt, After, MuteStep, Reply, Command, Plain, Known;
    if r.page <= 7 {
      var e := Next(c, job, r).reader;
      MuteHears(c, tag, r.page, mute);
      ReplyRead(c, job, e, Ahead(c, tag, 10), pages[r.page], 32);
    }
  }

  /** What the reader does with a page, or with silence in its place. */
  lemma PageTurn(c: Cipher, job: Job, w: World, pages: Pages, mute: set<Page>)
    requires Coping(c, job, w, pages, mute) && !w.done && w.reader.phase == Fetch
    ensures
      var turn := ReaderStep(c, job, w.reader, w.rx);
      var page := w.reader.page;
      var known := w.reader.pages[page := Known(job, pages, mute, page)];
      if page in mute then
        turn == Emit(turn.reader, SILENCE) && turn.reader.phase == Start && turn.reader.pages == known
        && turn.reader.page == page + 1
      else
        var r := w.reader.(cs := After(c, w.reader.cs, 32), pages := known, page := page + 1);
        turn == Next(c, job, r) && r.cs == w.tag.cs && w.tag.crypto
  {
    hide Crypt, After, Next, Collected, KeyOf;
    assert job.secret[2..] == [job.secret[2], job.secret[3], job.secret[4], job.secret[5]];
    assert [0, 0] + job.secret[..2] == [0, 0, job.secret[0], job.secret[1]];
  }

  lemma OneMore(job: Job, r: ReaderState, s: ReaderState, pages: Pages, mute: set<Page>)
    requires |job.secret| == 6 && r.page < 8 && Collected(job, r, pages, mute) && s.page == r.page + 1
    requires s.pages == r.pages[r.page := Known(job, pages, mute, r.page)]
    ensures Collected(job, s, pages, mute)
  {
    hide Known;
  }

  lemma CopingFetch(c: Cipher, job: Job, w: World, pages: Pages, mute: set<Page>)
    requires Coping(c, job, w, pages, mute) && !w.done && w.reader.phase == Fetch
    ensures
      var x := MuteExchange(c, job, w, mute, true);
      Coping(c, job, x, pages, mute) && CopingRank(x) < CopingRank(w)
  {
    MuteValid(c, job, w, mute, true);
    PageTurn(c, job, w, pages, mute);
    hide ReaderStep, Crypt, Known, KeyOf, Command, Plain, After, Next;
    var turn := ReaderStep(c, job, w.reader, w.rx);
    var page := w.reader.page;
    if page in mute {
      OneMore(job, w.reader, turn.reader, pages, mute);
      Unheard(c, w.tag, mute);
    } else {
      var r := w.reader.(cs := After(c, w.reader.cs, 32), page := page + 1,
                         pages := w.reader.pages[page := Known(job, pages, mute, page)]);
      OneMore(job, w.reader, r, pages, mute);
      hide MuteStep, Awaiting;
      CopingNext(c, job, r, w.tag, pages, mute);
    }
  }

  /** A frame of no bits is not answered. */
  lemma Unheard(c: Cipher, tag: TagState, mute: set<Page>)
    ensures MuteStep(c, tag, SILENCE, mute).frame == SILENCE && MuteStep(c, tag, SILENCE, mute).tag.pages == tag.pages
  {
    hide After;
  }

  lemma {:induction false} CopingLogin(c: Cipher, job: Job, w: World, pages: Pages, mute: set<Page>)
    requires Coping(c, job, w, pages, mute) && !w.done && w.reader.phase == Login
    ensures
      var x := MuteExchange(c, job, w, mute, true);
      Coping(c, job, x, pages, mute) && CopingRank(x) < CopingRank(w)
  {
    MuteValid(c, job, w, mute, true);
    hide Crypt, Known, KeyOf, Command, Plain, After, Next, MuteStep, Awaiting, Collected;
    var r := w.reader.(cs := After(c, w.reader.cs, 32));
    assert Collected(job, r, pages, mute) by { SamePages(job, w.reader, r, pages, mute); }
    assert ReaderStep(c, job, w.reader, w.rx) == Next(c, job, r);
    CopingNext(c, job, r, w.tag, pages, mute);
    var turn := Next(c, job, r);
    SamePages(job, r, turn.reader, pages, mute);
    PageBound(job, r, pages, mute);
  }

  lemma SamePages(job: Job, r: ReaderState, s: ReaderState, pages: Pages, mute: set<Page>)
    requires |job.secret| == 6
    ensures s.page == r.page && s.pages == r.pages ==> (Collected(job, r, pages, mute) <==> Collected(job, s, pages, mute))
  {
    hide Known;
  }

  lemma PageBound(job: Job, r: ReaderState, pages: Pages, mute: set<Page>)
    requires |job.secret| == 6 && Collected(job, r, pages, mute)
    ensures r.page <= 8
  {
    hide Known;
  }

  lemma StartTurn(c: Cipher, job: Job, w: World)
    requires w.Valid(job) && !w.done && w.reader.phase == Start
    ensures w.rx.bits == 0 ==> ReaderStep(c, job, w.reader, w.rx) == Emit(w.reader, Frame([START_AUTH], 5))
    ensures w.rx.bits == 32 ==> ReaderStep(c, job, w.reader, w.rx) == Unlock(c, job, w.reader, w.rx.bytes)
  {
    hide Crypt, After, Authenticator, Unlock;
  }

  lemma CopingGreet(c: Cipher, job: Job, w: World, pages: Pages, mute: set<Page>)
    requires Coping(c, job, w, pages, mute) && !w.done && w.reader.phase == Start && w.rx.bits == 0
    ensures
      var x := MuteExchange(c, job, w, mute, true);
      Coping(c, job, x, pages, mute) && CopingRank(x) < CopingRank(w)
  {
    hide Knows, TagStep, Awaiting, Collected, ReaderStep, Lockstep, Crypt, After;
    MuteValid(c, job, w, mute, true);
    StartTurn(c, job, w);
    Greeted(c, w.tag);
    PageBound(job, w.reader, pages, mute);
  }

  lemma CopingUnlock(c: Cipher, job: Job, w: World, pages: Pages, mute: set<Page>)
    requires Coping(c, job, w, pages, mute) && !w.done && w.reader.phase == Start && w.rx.bits != 0
    ensures
      var x := MuteExchange(c, job, w, mute, true);
      Coping(c, job, x, pages, mute) && CopingRank(x) < CopingRank(w)
  {
    hide Knows, TagStep, Awaiting, Collected, ReaderStep, Unlock, Reply, After, Plain, Crypt;
    MuteValid(c, job, w, mute, true);
    StartTurn(c, job, w);
    Accepted(c, job, w.reader, w.tag);
    SamePages(job, w.reader, Unlock(c, job, w.reader, w.tag.pages[0]).reader, pages, mute);
    PageBound(job, w.reader, pages, mute);
  }

  lemma {:induction false} CopingEnds(c: Cipher, job: Job, w: World, pages: Pages, mute: set<Page>) returns (n: nat)
    requires Coping(c, job, w, pages, mute) && w.Valid(job)
    ensures MuteRun(c, job, w, mute, true, n).done && Coping(c, job, MuteRun(c, job, w, mute, true, n), pages, mute)
    decreases CopingRank(w)
  {
    hide MuteExchange;
    if w.done {
      n := 0;
    } else {
      CopingKept(c, job, w, pages, mute);
      hide Coping, CopingRank;
      MuteValid(c, job, w, mute, true);
      n := CopingEnds(c, job, MuteExchange(c, job, w, mute, true), pages, mute);
      n := n + 1;
    }
  }

  lemma {:induction false} CopingKept(c: Cipher, job: Job, w: World, pages: Pages, mute: set<Page>)
    requires Coping(c, job, w, pages, mute) && !w.done
    ensures
      var x := MuteExchange(c, job, w, mute, true);
      Coping(c, job, x, pages, mute) && CopingRank(x) < CopingRank(w)
  {
    match w.reader.phase
    case Start =>
      if w.rx.bits == 0 { CopingGreet(c, job, w, pages, mute); } else { CopingUnlock(c, job, w, pages, mute); }
    case Login => CopingLogin(c, job, w, pages, mute);
    case Fetch => CopingFetch(c, job, w, pages, mute);
    case _ =>
  }

  /**
    A crypto read from a tag that keeps any of its pages to itself still succeeds, if its silence reaches the reader's
    turn as a frame of no bits: the reader has the tag's page wherever it answered, and the key in pages 1 and 2.
   */
  lemma {:induction false} UnreadablePages(c: Cipher, job: Job, copy: Pages, cs: nat, tag: TagState, mute: set<Page>)
    returns (n: nat)
    requires job.Valid() && job.crypto && !job.write && Knows(job, tag.pages)
    ensures
      var w := MuteRun(c, job, Begin(job, 0, copy, cs, tag), mute, true, n);
      && w.done && w.reader.success && w.tag.pages == tag.pages
      && (forall p: Page :: w.reader.pages[p]
            == if p !in mute then tag.pages[p]
               else if p == 1 then job.secret[2..] else if p == 2 then [0, 0] + job.secret[..2] else [0, 0, 0, 0])
      && KeyOf(w.reader.pages) == job.secret
  {
    hide MuteExchange;
    var w := Begin(job, 0, copy, cs, tag);
    n := CopingEnds(c, job, w, tag.pages, mute);
    hide CopingRank;
    var r := MuteRun(c, job, w, mute, true, n).reader;
    assert job.secret[2..] == [job.secret[2], job.secret[3], job.secret[4], job.secret[5]];
    assert [0, 0] + job.secret[..2] == [0, 0, job.secret[0], job.secret[1]];
    var two: Page := 2;
    assert r.pages[1] == Known(job, tag.pages, mute, 1) && r.pages[two] == Known(job, tag.pages, mute, two);
    KeyInPages(job, r.pages, tag.pages, mute);
  }

  /** A loop that gives up at silence never gets beyond the first page that is not answered. */
  ghost predicate Stuck(c: Cipher, job: Job, w: World, pages: Pages, mute: set<Page>, page: Page) {
    && w.Valid(job) && job.crypto && !job.write && !w.reader.success
    && (w.done || (Coping(c, job, w, pages, mute) && w.reader.page <= page
                   && (w.reader.phase == Fetch ==> w.reader.page !in mute)))
  }

  /** Such a reader always goes on, and not beyond that page. */
  lemma {:induction false} StuckTurn(c: Cipher, job: Job, w: World, pages: Pages, mute: set<Page>, page: Page)
    requires Stuck(c, job, w, pages, mute, page) && page in mute && !w.done
    ensures
      var turn := ReaderStep(c, job, w.reader, w.rx);
      turn.Emit? && turn.reader.page <= page && !turn.reader.success
  {
    hide ReaderStep, Next, MuteStep, KeyOf, Collected, Lockstep, Plain, Known;
    match w.reader.phase
    case Start => StartGoes(c, job, w);
    case Login =>
      LoginTurn(c, job, w);
      NextGoes(c, job, w.reader.(cs := After(c, w.reader.cs, 32)));
    case Fetch =>
      PageTurn(c, job, w, pages, mute);
      NextGoes(c, job, w.reader.(cs := After(c, w.reader.cs, 32), page := w.reader.page + 1,
                                 pages := w.reader.pages[w.reader.page := Known(job, pages, mute, w.reader.page)]));
  }

  lemma StartGoes(c: Cipher, job: Job, w: World)
    requires w.Valid(job) && !w.done && job.crypto && w.reader.phase == Start && (w.rx.bits == 0 || w.rx.bits == 32)
    ensures
      var turn := ReaderStep(c, job, w.reader, w.rx);
      turn.Emit? && turn.reader.page == w.reader.page && turn.reader.success == w.reader.success
  {
    hide Crypt, After, Authenticator;
  }

  lemma LoginTurn(c: Cipher, job: Job, w: World)
    requires w.Valid(job) && !w.done && job.crypto && !job.write && w.reader.phase == Login && w.rx.bits == 32
    ensures ReaderStep(c, job, w.reader, w.rx) == Next(c, job, w.reader.(cs := After(c, w.reader.cs, 32)))
  {
    hide Crypt, After, Next;
  }

  lemma NextGoes(c: Cipher, job: Job, r: ReaderState)
    requires r.page < 8
    ensures
      var turn := Next(c, job, r);
      turn.Emit? && turn.reader.page == r.page && turn.reader.success == r.success
  {
    hide Crypt, After, Command;
  }

  lemma StuckKept(c: Cipher, job: Job, w: World, pages: Pages, mute: set<Page>, page: Page)
    requires Stuck(c, job, w, pages, mute, page) && page in mute
    ensures Stuck(c, job, MuteExchange(c, job, w, mute, false), pages, mute, page)
  {
    MuteValid(c, job, w, mute, false);
    if !w.done {
      CopingKept(c, job, w, pages, mute);
      StuckTurn(c, job, w, pages, mute, page);
      hide ReaderStep, MuteStep, KeyOf, Collected, Lockstep, Plain;
    }
  }

  lemma {:induction false} AlwaysStuck(c: Cipher, job: Job, w: World, pages: Pages, mute: set<Page>, page: Page, n: nat)
    requires Stuck(c, job, w, pages, mute, page) && page in mute && w.Valid(job)
    ensures Stuck(c, job, MuteRun(c, job, w, mute, false, n), pages, mute, page)
    decreases n
  {
    hide MuteExchange, Stuck;
    if n > 0 {
      StuckKept(c, job, w, pages, mute, page);
      MuteValid(c, job, w, mute, false);
      AlwaysStuck(c, job, MuteExchange(c, job, w, mute, false), pages, mute, page, n - 1);
    }
  }

  /** The loop of the source gives up at silence: a read from a tag with such a page never succeeds. */
  lemma UnreadableFails(c: Cipher, job: Job, copy: Pages, cs: nat, tag: TagState, mute: set<Page>, page: Page, n: nat)
    requires job.Valid() && job.crypto && !job.write && Knows(job, tag.pages) && page in mute
    ensures !MuteRun(c, job, Begin(job, 0, copy, cs, tag), mute, false, n).reader.success
  {
    hide MuteExchange;
    AlwaysStuck(c, job, Begin(job, 0, copy, cs, tag), tag.pages, mute, page, n);
  }

  lemma KeyInPages(job: Job, r: Pages, pages: Pages, mute: set<Page>)
    requires |job.secret| == 6 && KeyOf(pages) == job.secret
    requires r[1] == Known(job, pages, mute, 1) && r[2] == Known(job, pages, mute, 2)
    ensures KeyOf(r) == job.secret
  {
    assert pages[1] == KeyOf(pages)[2..] && pages[2][2..] == KeyOf(pages)[..2];
    assert job.secret[2..] == [job.secret[2], job.secret[3], job.secret[4], job.secret[5]];
    assert r[1] == job.secret[2..] && r[2][2..] == job.secret[..2];
  }

  // ---------------------------------------------------------------------------
  // Buffers
  // ---------------------------------------------------------------------------

  lemma MaskIs(b: byte, n: nat)
    requires n <= 8
    ensures MaskTop(b, n) == b <==> b % Pow2(8 - n) == 0
  {
    var s, m := MsbFirst(b), 8 - n;
    var masked := s[..n] + Zeros(m);
    LowZero(b, m);
    SuffixBits(b, 8, m);
    hide BitsOf, MsbFirst, ByteOf, Pow2;
    assert s[n..] == BitsOf(b, m) && s == s[..n] + s[n..];
    ByteOfBits(masked, b);
    assert masked[n..] == Zeros(m);
  }

  lemma {:induction false} LowZero(x: nat, m: nat)
    ensures BitsOf(x, m) == Zeros(m) <==> x % Pow2(m) == 0
  {
    ModBits(x, m);
    ZeroMsb(m);
    hide BitsOf, Pow2;
    if BitsOf(x, m) == Zeros(m) { BitsInjective(x % Pow2(m), 0, m); }
  }

  lemma MaskXor(a: byte, b: byte, n: nat)
    requires n <= 8 && MaskTop(a, n) == a && MaskTop(b, n) == b
    ensures MaskTop(XorByte(a, b), n) == XorByte(a, b)
  {
    hide MsbFirst, ByteOf;
    var s, t := MsbFirst(a), MsbFirst(b);
    ByteOfBits(s[..n] + Zeros(8 - n), a);
    ByteOfBits(t[..n] + Zeros(8 - n), b);
    var x := XorBits(s, t);
    ByteOfBits(x, 0);
    assert x[..n] + Zeros(8 - n) == x;
  }

  lemma KeyMask(c: Cipher, s: nat, n: nat)
    requires n <= 8
    ensures MaskTop(KeyByte(c, s, n), n) == KeyByte(c, s, n)
  {
    hide MsbFirst, ByteOf, KeyBits;
    var k := KeyBits(c, s, n) + Zeros(8 - n);
    ByteOfBits(k, 0);
    assert k[..n] == KeyBits(c, s, n);
  }

  lemma {:induction false} CryptClean(c: Cipher, s: nat, bytes: seq<byte>, bits: nat)
    requires Frame(bytes, bits).Clean()
    ensures Frame(Crypt(c, s, bytes, bits), bits).Clean()
    decreases bits
  {
    hide MaskTop, KeyByte, XorByte, After;
    if bits == 0 {
    } else if bits < 8 {
      KeyMask(c, s, bits);
      MaskXor(bytes[0], KeyByte(c, s, bits), bits);
    } else {
      if bits % 8 != 0 { assert bytes[1..][|bytes| - 2] == bytes[|bytes| - 1]; }
      CryptClean(c, After(c, s, 8), bytes[1..], bits - 8);
    }
  }

  /** A transmit buffer whose unused bits are clear is its own picture on air. */
  lemma OnAirClean(buffer: seq<byte>, bits: nat)
    requires bits <= 8 * |buffer| && Frame(buffer[..ByteCount(bits)], bits).Clean()
    ensures OnAir(buffer, bits) == Frame(buffer[..ByteCount(bits)], bits)
  {
    hide MaskTop;
    var n := bits / 8;
    if bits % 8 == 0 {
      assert ByteCount(bits) == n;
    } else {
      assert ByteCount(bits) == n + 1;
      assert buffer[..n + 1][n] == buffer[n] && buffer[..n + 1] == buffer[..n] + [buffer[n]];
    }
  }

  /** `ht2_hitag2_cipher_transcrypt`: whole bytes, then the bits of one more from the top down. */
  method Transcrypt(c: Cipher, s: nat, data: array<byte>, bytes: nat, bits: nat) returns (state: nat)
    requires bits < 8 && bytes + (if bits > 0 then 1 else 0) <= data.Length
    modifies data
    ensures state == After(c, s, 8 * bytes + bits)
    ensures
      var n := ByteCount(8 * bytes + bits);
      data[..n] == Crypt(c, s, old(data[..n]), 8 * bytes + bits) && data[n..] == old(data[n..])
  {
    hide XorByte, KeyByte, After, Crypt;
    var was := data[..];
    ghost var n, total := ByteCount(8 * bytes + bits), 8 * bytes + bits;
    ghost var whole := Crypt(c, s, was[..n], total);
    state := s;
    Still(c, s);
    var i := 0;
    assert was[0..n] == was[..n];
    while i < bytes
      invariant 0 <= i <= bytes && data[i..] == was[i..] && state == After(c, s, 8 * i)
      invariant data[..i] + Crypt(c, state, was[i..n], total - 8 * i) == whole
    {
      ghost var before := data[..i];
      CryptNext(c, state, was, i, n, total);
      assert data[i] == data[i..][0] == was[i];
      data[i] := XorByte(data[i], KeyByte(c, state, 8));
      assert data[..i + 1] == before + [data[i]];
      assert data[i + 1..] == was[i..][1..];
      AfterAfter(c, s, 8 * i, 8);
      state := After(c, state, 8);
      Regroup(before, [data[i]], Crypt(c, state, was[i + 1..n], total - 8 * i - 8));
      i := i + 1;
    }
    AfterAfter(c, s, 8 * bytes, bits);
    CryptTail(c, state, was[bytes..n], bits);
    state := TranscryptTail(c, state, data, bytes, bits);
  }

  lemma CryptNext(c: Cipher, s: nat, data: seq<byte>, i: nat, n: nat, total: nat)
    requires 8 * i + 8 <= total && n == ByteCount(total) <= |data|
    ensures
      Crypt(c, s, data[i..n], total - 8 * i)
        == [XorByte(data[i], KeyByte(c, s, 8))] + Crypt(c, After(c, s, 8), data[i + 1..n], total - 8 * i - 8)
  {
    hide XorByte, KeyByte, After, Crypt;
    CryptHead(c, s, data[i..n], total - 8 * i);
    assert data[i..n][1..] == data[i + 1..n];
  }

  lemma Regroup(a: seq<byte>, b: seq<byte>, c: seq<byte>)
    ensures a + (b + c) == a + b + c
  {
  }

  lemma CryptHead(c: Cipher, s: nat, bytes: seq<byte>, bits: nat)
    requires |bytes| == ByteCount(bits) && bits >= 8
    ensures
      Crypt(c, s, bytes, bits)
        == [XorByte(bytes[0], KeyByte(c, s, 8))] + Crypt(c, After(c, s, 8), bytes[1..], bits - 8)
  {
    hide XorByte, KeyByte, After;
  }

  lemma CryptTail(c: Cipher, s: nat, bytes: seq<byte>, bits: nat)
    requires |bytes| == ByteCount(bits) && bits < 8
    ensures Crypt(c, s, bytes, bits) == if bits == 0 then [] else [XorByte(bytes[0], KeyByte(c, s, bits))]
  {
    hide XorByte, KeyByte, After;
  }

  /** `bit << (7 - i)`. */
  function Shifted(bit: bool, i: nat): (r: byte)
    requires i < 8
  {
    if bit then SetBit(0, i) else 0
  }

  method TranscryptTail(c: Cipher, s: nat, data: array<byte>, at: nat, bits: nat) returns (state: nat)
    requires bits < 8 && at + (if bits > 0 then 1 else 0) <= data.Length
    modifies data
    ensures state == After(c, s, bits)
    ensures data[..at] == old(data[..at])
    ensures bits > 0 ==> data[at] == XorByte(old(data[at]), KeyByte(c, s, bits)) && data[at + 1..] == old(data[at + 1..])
    ensures bits == 0 ==> data[..] == old(data[..])
  {
    hide XorByte, KeyByte, After, KeyBits;
    Still(c, s);
    state := s;
    if bits > 0 { NoKey(c, s, data[at]); }
    for i := 0 to bits
      invariant state == After(c, s, i)
      invariant bits > 0 ==> data[at] == XorByte(old(data[at]), KeyByte(c, s, i))
      invariant data[..at] == old(data[..at])
      invariant bits > 0 ==> data[at + 1..] == old(data[at + 1..])
      invariant bits == 0 ==> data[..] == old(data[..])
    {
      OneKeyBit(c, s, old(data[at]), i);
      AfterAfter(c, s, i, 1);
      OneStep(c, state);
      state := c.next(state);
      data[at] := XorByte(data[at], Shifted(c.filter(state), i));
    }
  }

  lemma OneStep(c: Cipher, s: nat)
    ensures After(c, s, 1) == c.next(s)
  {
  }

  lemma NoKey(c: Cipher, s: nat, b: byte)
    ensures XorByte(b, KeyByte(c, s, 0)) == b
  {
    hide XorByte;
    assert [] + Zeros(8) == Zeros(8);
    ZeroMsb(8);
    ByteOfBits(Zeros(8), 0);
    XorByteZero(b);
  }

  lemma {:induction false} KeyBitsGrow(c: Cipher, s: nat, n: nat)
    ensures KeyBits(c, s, n + 1) == KeyBits(c, s, n) + [c.filter(After(c, s, n + 1))]
    decreases n
  {
    if n > 0 { KeyBitsGrow(c, c.next(s), n - 1); }
  }

  /** Taking in one more key bit. */
  lemma OneKeyBit(c: Cipher, s: nat, b: byte, i: nat)
    requires i < 8
    ensures
      XorByte(XorByte(b, KeyByte(c, s, i)), Shifted(c.filter(After(c, s, i + 1)), i)) == XorByte(b, KeyByte(c, s, i + 1))
  {
    hide MsbFirst, ByteOf, KeyBits, After, SetBit;
    KeyBitsGrow(c, s, i);
    var bit := c.filter(After(c, s, i + 1));
    var k, l, t := KeyBits(c, s, i) + Zeros(8 - i), KeyBits(c, s, i + 1) + Zeros(7 - i), MsbFirst(Shifted(bit, i));
    ShiftedBits(bit, i);
    ByteOfBits(k, 0);
    ByteOfBits(l, 0);
    var x := MsbFirst(b);
    ByteOfBits(XorBits(x, k), 0);
    XorPlace(x, KeyBits(c, s, i), bit);
  }

  lemma XorPlace(x: seq<bool>, k: seq<bool>, bit: bool)
    requires |k| < |x|
    ensures
      XorBits(XorBits(x, k + Zeros(|x| - |k|)), Zeros(|x|)[|k| := bit])
        == XorBits(x, k + [bit] + Zeros(|x| - 1 - |k|))
  {
  }

  lemma ShiftedBits(bit: bool, i: nat)
    requires i < 8
    ensures MsbFirst(Shifted(bit, i)) == Zeros(8)[i := bit]
  {
    ZeroMsb(8);
    hide SetBit, BitsOf;
    assert Zeros(8)[i := false] == Zeros(8);
  }

  // ---------------------------------------------------------------------------
  // The simulated tag in place
  // ---------------------------------------------------------------------------

  class Tag {
    var sectors: Pages
    var cryptoActive: bool
    var cs: nat
    var writing: bool
    var activeSector: Page

    ghost function State(): TagState
      reads this
    {
      TagState(sectors, cryptoActive, cs, writing, activeSector)
    }

    /** `hitag2_handle_reader_command`: the answer to a received frame, of `txlen` bits in `tx`. */
    method HandleReaderCommand(c: Cipher, rx: array<byte>, rxlen: nat, tx: array<byte>) returns (txlen: nat)
      requires rx.Length == tx.Length == 20 && rx != tx && rxlen <= 160
      requires Frame(rx[..ByteCount(rxlen)], rxlen).Clean()
      modifies this, rx, tx
      ensures txlen <= 160
      ensures Answer(State(), OnAir(tx[..], txlen)) == TagStep(c, old(State()), Frame(old(rx[..ByteCount(rxlen)]), rxlen))
    {
      hide Crypt, After, OnAir, PageCommand, DataOrPassword, Challenge, Prepared, MaskTop;
      var rxAir := rx[..ByteCount(rxlen)];
      ghost var before := State();
      if cryptoActive {
        CryptClean(c, cs, rxAir, rxlen);
        cs := Transcrypt(c, cs, rx, rxlen / 8, rxlen % 8);
      }
      ghost var plain := rx[..ByteCount(rxlen)];
      txlen := 0;
      ghost var answer := TagStep(c, before, Frame(rxAir, rxlen));
      NothingPrepared(c, State(), tx[..]);
      if rxlen == 5 {
        if rxAir[0] == START_AUTH {
          CopyInto(tx, 0, sectors[0]);
          cryptoActive := false;
          txlen := 32;
          WordPrepared(c, State(), tx[..]);
          assert rxAir == [START_AUTH];
        }
      } else if rxlen == 10 {
        txlen := HandlePageCommand(c, rx, tx);
      } else if rxlen == 32 {
        txlen := HandleData(c, rx, tx);
      } else if rxlen == 64 {
        txlen := HandleChallenge(c, rx, tx);
      }
      assert Prepared(c, State(), tx[..], txlen, answer);
      Encrypt(c, tx, txlen, answer);
    }

    /** The last step: the prepared answer is encrypted if encryption is on. */
    method Encrypt(c: Cipher, tx: array<byte>, txlen: nat, ghost answer: Answer)
      requires tx.Length == 20 && txlen <= 160 && Prepared(c, State(), tx[..], txlen, answer)
      modifies this, tx
      ensures Answer(State(), OnAir(tx[..], txlen)) == answer
    {
      hide Crypt, After, OnAir, MaskTop;
      assert tx[..][..ByteCount(txlen)] == tx[..ByteCount(txlen)];
      if cryptoActive {
        CryptClean(c, cs, tx[..ByteCount(txlen)], txlen);
        cs := Transcrypt(c, cs, tx, txlen / 8, txlen % 8);
      }
      assert tx[..][..ByteCount(txlen)] == tx[..ByteCount(txlen)];
      OnAirClean(tx[..], txlen);
    }

    /** Ten bits: a page command. */
    method HandlePageCommand(c: Cipher, rx: array<byte>, tx: array<byte>) returns (txlen: nat)
      requires rx.Length == tx.Length == 20 && rx != tx && Frame(rx[..2], 10).Clean()
      modifies this, tx
      ensures txlen <= 160 && Prepared(c, State(), tx[..], txlen, PageCommand(c, old(State()), rx[..2]))
    {
      hide Crypt, After, MaskTop, Command, Prepared, Reply;
      txlen := 0;
      MaskIs(rx[1], 2);
      assert Pow2(6) == 64;
      var sector := 7 - (rx[0] % 2 * 4 + rx[1] / 64);
      Dispatch(c, State(), rx[0], rx[1]);
      assert rx[..2] == [rx[0], rx[1]];
      NothingPrepared(c, State(), tx[..]);
      hide PageCommand;
      if sector == rx[0] / 8 % 8 {
        var operation := rx[0] - rx[0] / 8 % 8 * 8 - rx[0] % 2;
        if operation == READ_PAGE {
          CopyInto(tx, 0, sectors[sector]);
          txlen := 32;
          WordPrepared(c, State(), tx[..]);
        } else if operation == READ_PAGE_INVERTED {
          CopyInto(tx, 0, Invert(sectors[sector]));
          txlen := 32;
          WordPrepared(c, State(), tx[..]);
        } else if operation == WRITE_PAGE {
          CopyInto(tx, 0, rx[..2]);
          txlen := 10;
          activeSector := sector;
          writing := true;
          EchoPrepared(c, State(), tx[..]);
        }
      }
    }

    /** 32 bits: the data of a page to be written, or the password. */
    method HandleData(c: Cipher, rx: array<byte>, tx: array<byte>) returns (txlen: nat)
      requires rx.Length == tx.Length == 20 && rx != tx
      modifies this, tx
      ensures txlen <= 160 && Prepared(c, State(), tx[..], txlen, DataOrPassword(c, old(State()), rx[..4]))
    {
      hide Crypt, After, MaskTop, Prepared, Reply;
      txlen := 0;
      if writing {
        sectors := sectors[activeSector := rx[..4]];
        writing := false;
        NothingPrepared(c, State(), tx[..]);
      } else if rx[..4] != sectors[1] {
        NothingPrepared(c, State(), tx[..]);
      } else {
        txlen := 32;
        CopyInto(tx, 0, sectors[3]);
        WordPrepared(c, State(), tx[..]);
      }
    }

    /** 64 bits: a nonce and an authenticator. */
    method HandleChallenge(c: Cipher, rx: array<byte>, tx: array<byte>) returns (txlen: nat)
      requires rx.Length == tx.Length == 20 && rx != tx
      modifies this, tx
      ensures txlen <= 160 && Prepared(c, State(), tx[..], txlen, Challenge(c, old(State()), rx[..8]))
    {
      hide Crypt, After, MaskTop, Prepared, Reply, Authenticator, KeyByte;
      txlen := 0;
      cs := c.init(KeyOf(sectors), sectors[0], rx[..4]);
      assert rx[..8][..4] == rx[..4] && rx[..8][4..] == rx[4..8];
      AuthenticatorBytes(c, cs);
      var should0 := 255 - KeyByte(c, cs, 8);
      cs := After(c, cs, 8);
      var should1 := 255 - KeyByte(c, cs, 8);
      cs := After(c, cs, 8);
      var should2 := 255 - KeyByte(c, cs, 8);
      cs := After(c, cs, 8);
      var should3 := 255 - KeyByte(c, cs, 8);
      cs := After(c, cs, 8);
      if [should0, should1, should2, should3] != rx[4..8] {
        NothingPrepared(c, State(), tx[..]);
      } else {
        cryptoActive := true;
        CopyInto(tx, 0, sectors[3]);
        txlen := 32;
        WordPrepared(c, State(), tx[..]);
      }
    }
  }

  /** The page command by the tag's own tests. */
  lemma Dispatch(c: Cipher, t: TagState, b0: byte, b1: byte)
    requires b1 % 64 == 0
    ensures
      var page := PageField(b0);
      PageCommand(c, t, [b0, b1])
        == if Tested(b0, b1, READ_PAGE) then Reply(c, t, t.pages[page], 32)
           else if Tested(b0, b1, READ_PAGE_INVERTED) then Reply(c, t, Invert(t.pages[page]), 32)
           else if Tested(b0, b1, WRITE_PAGE) then Reply(c, t.(writing := true, active := page), [b0, b1], 10)
           else NoReply(t)
  {
    hide Tested, Command, Reply, PageField;
    TestedIsCommand(b0, b1, READ_PAGE);
    TestedIsCommand(b0, b1, READ_PAGE_INVERTED);
    TestedIsCommand(b0, b1, WRITE_PAGE);
  }

  /** The number of a byte, bit by bit from the top. */
  lemma ByteSum(b: byte)
    ensures
      var s := MsbFirst(b);
      b == 128 * Bit(s[0]) + 64 * Bit(s[1]) + 32 * Bit(s[2]) + 16 * Bit(s[3])
           + 8 * Bit(s[4]) + 4 * Bit(s[5]) + 2 * Bit(s[6]) + Bit(s[7])
  {
    assert Pow2(8) == 256;
    ValueOfBits(b, 8);
    ValueSum(MsbFirst(b));
  }

  lemma ValueSum(s: seq<bool>)
    requires |s| == 8
    ensures
      Value(s) == 128 * Bit(s[0]) + 64 * Bit(s[1]) + 32 * Bit(s[2]) + 16 * Bit(s[3])
                  + 8 * Bit(s[4]) + 4 * Bit(s[5]) + 2 * Bit(s[6]) + Bit(s[7])
  {
    hide Value;
    assert s[..8] == s;
    assert s[..0] == [];
    NoValue();
    ValueFour(s, 0);
    ValueFour(s, 4);
  }

  lemma ValueFour(s: seq<bool>, n: nat)
    requires n + 4 <= |s|
    ensures Value(s[..n + 4])
      == 16 * Value(s[..n]) + 8 * Bit(s[n]) + 4 * Bit(s[n + 1]) + 2 * Bit(s[n + 2]) + Bit(s[n + 3])
  {
    hide Value;
    ValueNext(s, n);
    ValueNext(s, n + 1);
    ValueNext(s, n + 2);
    ValueNext(s, n + 3);
  }

  lemma ValueNext(s: seq<bool>, n: nat)
    requires n < |s|
    ensures Value(s[..n + 1]) == 2 * Value(s[..n]) + Bit(s[n])
  {
    assert s[..n + 1][..n] == s[..n];
  }

  lemma NoValue()
    ensures Value([]) == 0
  {
  }

  /** The page field of a command, and its complement behind the operation's last bits. */
  function PageOf(s: seq<bool>): Page
    requires |s| == 10
  {
    4 * Bit(s[2]) + 2 * Bit(s[3]) + Bit(s[4])
  }

  predicate Checked(s: seq<bool>)
    requires |s| == 10
  {
    s[7] != s[2] && s[8] != s[3] && s[9] != s[4]
  }

  /**
    The ten bits of a page command: two bits of the operation, the page, two more of the operation, the complement of
    the page.  Read is 11 and 00, inverted read 01 and 10, write 10 and 01; anything else is not answered.
   */
  lemma PageCommandBits(c: Cipher, t: TagState, b0: byte, b1: byte)
    requires b1 % 64 == 0
    ensures
      var s := MsbFirst(b0) + MsbFirst(b1)[..2];
      var op, page := [s[0], s[1], s[5], s[6]], PageOf(s);
      PageCommand(c, t, [b0, b1])
        == if !Checked(s) then NoReply(t)
           else if op == [true, true, false, false] then Reply(c, t, t.pages[page], 32)
           else if op == [false, true, true, false] then Reply(c, t, Invert(t.pages[page]), 32)
           else if op == [true, false, false, true] then Reply(c, t.(writing := true, active := page), [b0, b1], 10)
           else NoReply(t)
  {
    hide PageCommand, MsbFirst, Reply, Tested, PageField, Invert;
    Dispatch(c, t, b0, b1);
    FieldIs(b0);
    TestIsBits(b0, b1, READ_PAGE);
    TestIsBits(b0, b1, READ_PAGE_INVERTED);
    TestIsBits(b0, b1, WRITE_PAGE);
    var s := MsbFirst(b0) + MsbFirst(b1)[..2];
    OperationBits(s[0], s[1], s[5], s[6]);
  }

  lemma OperationBits(a: bool, b: bool, c: bool, d: bool)
    ensures
      var x := 128 * Bit(a) + 64 * Bit(b) + 4 * Bit(c) + 2 * Bit(d);
      && (x == READ_PAGE <==> a && b && !c && !d)
      && (x == READ_PAGE_INVERTED <==> !a && b && c && !d)
      && (x == WRITE_PAGE <==> a && !b && !c && d)
  {
  }

  lemma TestIsBits(b0: byte, b1: byte, op: byte)
    requires b1 % 64 == 0
    ensures
      var s := MsbFirst(b0) + MsbFirst(b1)[..2];
      && b0 / 8 % 8 == PageOf(s)
      && (Tested(b0, b1, op) <==> Checked(s) && 128 * Bit(s[0]) + 64 * Bit(s[1]) + 4 * Bit(s[5]) + 2 * Bit(s[6]) == op)
  {
    ByteSum(b0);
    ByteSum(b1);
    hide MsbFirst, Tested;
    TestedBits(b0, b1, MsbFirst(b0), MsbFirst(b1), op);
  }

  lemma TestedBits(b0: byte, b1: byte, s: seq<bool>, u: seq<bool>, op: byte)
    requires |s| == |u| == 8 && b1 % 64 == 0
    requires b0 == 128 * Bit(s[0]) + 64 * Bit(s[1]) + 32 * Bit(s[2]) + 16 * Bit(s[3])
                   + 8 * Bit(s[4]) + 4 * Bit(s[5]) + 2 * Bit(s[6]) + Bit(s[7])
    requires b1 == 128 * Bit(u[0]) + 64 * Bit(u[1]) + 32 * Bit(u[2]) + 16 * Bit(u[3])
                   + 8 * Bit(u[4]) + 4 * Bit(u[5]) + 2 * Bit(u[6]) + Bit(u[7])
    ensures b0 / 8 % 8 == 4 * Bit(s[2]) + 2 * Bit(s[3]) + Bit(s[4])
    ensures Tested(b0, b1, op)
      <==> s[7] != s[2] && u[0] != s[3] && u[1] != s[4]
           && 128 * Bit(s[0]) + 64 * Bit(s[1]) + 4 * Bit(s[5]) + 2 * Bit(s[6]) == op
  {
    var page: int, low: int, two: int := b0 / 8 % 8, b0 % 2, b1 / 64;
    assert low == Bit(s[7]);
    assert two == 2 * Bit(u[0]) + Bit(u[1]);
    assert b0 / 8 == 16 * Bit(s[0]) + 8 * Bit(s[1]) + 4 * Bit(s[2]) + 2 * Bit(s[3]) + Bit(s[4]);
  }

  /** The commands that the reader sends, bit by bit. */
  lemma CommandBits(page: Page)
    ensures forall op | op in {READ_PAGE, WRITE_PAGE} ::
      var s := MsbFirst(Command(op, page)[0]) + MsbFirst(Command(op, page)[1])[..2];
      && PageOf(s) == page && Checked(s)
      && [s[0], s[1], s[5], s[6]] == if op == 0xC0 then [true, true, false, false] else [true, false, false, true]
  {
    forall op | op in {READ_PAGE, WRITE_PAGE}
      ensures
        var s := MsbFirst(Command(op, page)[0]) + MsbFirst(Command(op, page)[1])[..2];
        && PageOf(s) == page && Checked(s)
        && [s[0], s[1], s[5], s[6]] == if op == 0xC0 then [true, true, false, false] else [true, false, false, true]
    {
      var w := Command(op, page);
      CommandField(op, page);
      assert w[1] % 64 == 0 && w == [w[0], w[1]];
      TestedIsCommand(w[0], w[1], op);
      TestIsBits(w[0], w[1], op);
      FieldIs(w[0]);
      hide MsbFirst, Command, Tested, PageField;
      var s := MsbFirst(w[0]) + MsbFirst(w[1])[..2];
      OperationBits(s[0], s[1], s[5], s[6]);
    }
  }

  lemma AuthenticatorBytes(c: Cipher, s: nat)
    ensures
      var s1 := After(c, s, 8);
      var s2 := After(c, s1, 8);
      var s3 := After(c, s2, 8);
      && Authenticator(c, s)
         == [255 - KeyByte(c, s, 8), 255 - KeyByte(c, s1, 8), 255 - KeyByte(c, s2, 8), 255 - KeyByte(c, s3, 8)]
      && After(c, s3, 8) == After(c, s, 32)
  {
    hide After, KeyByte, XorByte, Crypt;
    var s1 := After(c, s, 8);
    var s2 := After(c, s1, 8);
    var s3 := After(c, s2, 8);
    AfterAfter(c, s, 8, 8);
    AfterAfter(c, s, 16, 8);
    AfterAfter(c, s, 24, 8);
    FourBytes(c, s, [0, 0, 0, 0]);
    XorByteZero(KeyByte(c, s, 8));
    XorByteZero(KeyByte(c, s1, 8));
    XorByteZero(KeyByte(c, s2, 8));
    XorByteZero(KeyByte(c, s3, 8));
  }

  lemma FourBytes(c: Cipher, s: nat, b: seq<byte>)
    requires |b| == 4
    ensures
      var s1 := After(c, s, 8);
      var s2 := After(c, s1, 8);
      var s3 := After(c, s2, 8);
      Crypt(c, s, b, 32)
        == [XorByte(b[0], KeyByte(c, s, 8)), XorByte(b[1], KeyByte(c, s1, 8)), XorByte(b[2], KeyByte(c, s2, 8)),
            XorByte(b[3], KeyByte(c, s3, 8))]
  {
    hide After, KeyByte, XorByte;
    CryptHead(c, s, b, 32);
    CryptHead(c, After(c, s, 8), b[1..], 24);
    CryptHead(c, After(c, After(c, s, 8), 8), b[1..][1..], 16);
    CryptHead(c, After(c, After(c, After(c, s, 8), 8), 8), b[1..][1..][1..], 8);
    hide Crypt;
    assert Crypt(c, After(c, After(c, After(c, After(c, s, 8), 8), 8), 8), b[1..][1..][1..][1..], 0) == [];
  }

  /** `answer` is what becomes of the `txlen` bits in `tx` when the tag in state `t` sends them. */
  ghost predicate Prepared(c: Cipher, t: TagState, tx: seq<byte>, txlen: nat, answer: Answer) {
    && txlen <= 8 * |tx| && Frame(tx[..ByteCount(txlen)], txlen).Clean()
    && answer == Reply(c, t, tx[..ByteCount(txlen)], txlen)
  }

  lemma NothingPrepared(c: Cipher, t: TagState, tx: seq<byte>)
    ensures Prepared(c, t, tx, 0, NoReply(t))
  {
    Still(c, t.cs);
    assert tx[..0] == [];
  }

  lemma WordPrepared(c: Cipher, t: TagState, tx: seq<byte>)
    requires |tx| == 20
    ensures Prepared(c, t, tx, 32, Reply(c, t, tx[..4], 32))
  {
    hide Reply;
  }

  lemma EchoPrepared(c: Cipher, t: TagState, tx: seq<byte>)
    requires |tx| == 20 && Frame(tx[..2], 10).Clean()
    ensures Prepared(c, t, tx, 10, Reply(c, t, tx[..2], 10))
  {
    hide Reply, MaskTop;
  }

  // ---------------------------------------------------------------------------
  // The reader in place
  // ---------------------------------------------------------------------------

  datatype WriteState = WriteStart | PagenumWritten | Prog

  lemma CommandClean(op: byte, page: Page)
    requires op == READ_PAGE || op == READ_PAGE_INVERTED || op == WRITE_PAGE
    ensures Frame(Command(op, page), 10).Clean()
  {
    hide MaskTop;
    assert Pow2(6) == 64;
    MaskIs(Command(op, page)[1], 2);
    var k: int := (7 - page) % 4;
    assert k * 64 % 64 == 0;
  }

  class Reader {
    const job: Job
    var unlocked: bool           // bCrypto, or bPwd in password mode
    var bAuthenticating: bool
    var bSuccessful: bool
    var blocknr: nat
    var writestate: WriteState
    var cipherState: nat
    var sectors: Pages

    ghost predicate Valid()
      reads this
    {
      job.Valid() && State().Valid(job) && (!unlocked ==> !bAuthenticating)
      && (job.write ==> (unlocked && !bAuthenticating <==> writestate != WriteStart))
    }

    ghost function State(): ReaderState
      reads this
    {
      ReaderState(
        if !unlocked then Start else if bAuthenticating then Login else if !job.write then Fetch
        else if writestate == PagenumWritten then PageSent else DataSent,
        blocknr, cipherState, sectors, bSuccessful)
    }

    constructor (job: Job, page: Page, cipherState: nat, sectors: Pages)
      requires job.Valid()
      ensures Valid() && this.job == job
      ensures State() == ReaderState(Start, if job.write then page else 0, cipherState, sectors, false)
    {
      this.job := job;
      unlocked := false;
      bAuthenticating := false;
      bSuccessful := false;
      blocknr := if job.write then page else 0;
      writestate := WriteStart;
      this.cipherState := cipherState;
      this.sectors := sectors;
    }

    /** `hitag2_write_page`, on a decrypted frame. */
    method WritePage(rx: array<byte>, rxlen: nat, tx: array<byte>) returns (go: bool, txlen: nat)
      requires job.Valid() && rx.Length == tx.Length == 20 && rx != tx && blocknr < 8
      modifies this`writestate, this`bSuccessful, tx
      ensures old(writestate) == WriteStart ==>
        go && txlen == 10 && tx[..2] == Command(WRITE_PAGE, blocknr) && writestate == PagenumWritten
        && bSuccessful == old(bSuccessful)
      ensures old(writestate) == PagenumWritten ==>
        && (go <==> rxlen == 10 && rx[..2] == Command(WRITE_PAGE, blocknr))
        && (go ==> txlen == 32 && tx[..4] == job.data && writestate == Prog && bSuccessful == old(bSuccessful))
        && (!go ==> !bSuccessful && writestate == PagenumWritten)
      ensures !go ==> txlen == 0
      ensures old(writestate) == Prog ==> !go && bSuccessful == (rxlen == 0) && writestate == Prog
    {
      go, txlen := true, 0;
      CommandAgain(rx[0], rx[1], blocknr);
      hide Command, State;
      match writestate
      case WriteStart =>
        txlen := 10;
        PutCommand(tx, WRITE_PAGE);
        writestate := PagenumWritten;
      case PagenumWritten =>
        assert rx[..2] == [rx[0], rx[1]];
        if rxlen == 10 && rx[0] == WRITE_PAGE + blocknr * 8 + (7 - blocknr) / 4 && rx[1] == (3 - blocknr % 4) * 64 {
          txlen := 32;
          CopyInto(tx, 0, job.data);
          writestate := Prog;
        } else {
          bSuccessful := false;
          go := false;
        }
      case Prog =>
        bSuccessful := rxlen == 0;
        go := false;
    }

    /** Asks for the next page, or ends the session behind the last one. */
    method RequestPage(tx: array<byte>) returns (go: bool, txlen: nat)
      requires tx.Length == 20
      modifies this`bSuccessful, tx
      ensures go <==> blocknr <= 7
      ensures go ==> txlen == 10 && tx[..2] == Command(READ_PAGE, blocknr) && bSuccessful == old(bSuccessful)
      ensures !go ==> txlen == 0 && bSuccessful
    {
      if blocknr > 7 {
        bSuccessful := true;
        return false, 0;
      }
      PutCommand(tx, READ_PAGE);
      return true, 10;
    }

    /** The part of a turn after the secret has been sent; `answered` is a decrypted 32-bit frame. */
    method Answered(rx: array<byte>, rxlen: nat, tx: array<byte>) returns (go: bool, txlen: nat)
      requires Valid() && rx.Length == tx.Length == 20 && rx != tx && unlocked && rxlen == 32 && State().phase.Login?
      modifies this, tx
      ensures !bAuthenticating && unlocked && cipherState == old(cipherState) && sectors == old(sectors)
      ensures blocknr == old(blocknr) && (go ==> Valid())
      ensures go <==> job.write || blocknr <= 7
      ensures go ==>
        && txlen == 10 && tx[..2] == Command(if job.write then WRITE_PAGE else READ_PAGE, blocknr)
        && State() == old(State()).(phase := if job.write then PageSent else Fetch)
      ensures !go ==> txlen == 0 && State() == old(State()).(phase := Fetch, success := true)
    {
      bAuthenticating := false;
      if job.write {
        go, txlen := WritePage(rx, rxlen, tx);
      } else {
        go, txlen := RequestPage(tx);
      }
    }

    /** `hitag2_password`: one turn in password mode. */
    method Password(ghost c: Cipher, rx: array<byte>, rxlen: nat, tx: array<byte>) returns (go: bool, txlen: nat)
      requires Valid() && !job.crypto && rx.Length == tx.Length == 20 && rx != tx && rxlen <= 160
      modifies this, tx
      ensures txlen <= 160 && (go ==> Valid())
      ensures Outcome(go, State(), tx[..], txlen)
        == ReaderStep(c, job, old(State()), Frame(old(rx[..ByteCount(rxlen)]), rxlen))
    {
      hide Crypt, After, Command, OnAir;
      go, txlen := true, 0;
      if unlocked && !bAuthenticating && job.write {
        go, txlen := WritePage(rx, rxlen, tx);
        if go { Sent(tx[..], txlen, job.data); }
        return;
      }
      if rxlen == 0 {
        if unlocked {
          go := false;
        } else {
          txlen := 5;
          tx[0] := START_AUTH;
          StartSent(tx[..]);
        }
      } else if rxlen == 32 {
        if !unlocked {
          unlocked := true;
          bAuthenticating := true;
          CopyInto(tx, 0, job.secret);
          txlen := 32;
          Sent(tx[..], 32, job.secret);
        } else if bAuthenticating {
          go, txlen := Answered(rx, rxlen, tx);
          if go { CommandSent(tx[..], if job.write then WRITE_PAGE else READ_PAGE, blocknr); }
        } else {
          sectors := sectors[blocknr := rx[..4]];
          blocknr := blocknr + 1;
          go, txlen := RequestPage(tx);
          if go { CommandSent(tx[..], READ_PAGE, blocknr); }
        }
      } else {
        go := false;
      }
    }

    /**
      `hitag2_crypto`: one turn with encryption. The frame is decrypted first and the answer encrypted last; the
      authenticator is encrypted by itself.
     */
    method CryptoTurn(c: Cipher, rx: array<byte>, rxlen: nat, tx: array<byte>) returns (go: bool, txlen: nat)
      requires Valid() && job.crypto && rx.Length == tx.Length == 20 && rx != tx && rxlen <= 160
      modifies this, rx, tx
      ensures txlen <= 160 && (go ==> Valid())
      ensures Outcome(go, State(), tx[..], txlen)
        == ReaderStep(c, job, old(State()), Frame(old(rx[..ByteCount(rxlen)]), rxlen))
    {
      hide Crypt, After, Command, OnAir, Unlock, Skip, Transmit, MaskTop, Authenticator;
      ghost var turn := ReaderStep(c, job, State(), Frame(rx[..ByteCount(rxlen)], rxlen));
      if unlocked {
        cipherState := Transcrypt(c, cipherState, rx, rxlen / 8, rxlen % 8);
      }
      if unlocked && !bAuthenticating && job.write {
        go, txlen := WritePage(rx, rxlen, tx);
        if !go { return; }
        EncryptTurn(c, tx, txlen, turn);
      } else if rxlen == 0 {
        assert rx[..0] == [];
        Still(c, old(cipherState));
        go, txlen := NoAnswer(c, tx);
      } else if rxlen == 32 {
        if !unlocked {
          txlen := SendChallenge(c, rx, tx);
          go := true;
        } else {
          if bAuthenticating {
            go, txlen := Answered(rx, rxlen, tx);
          } else {
            sectors := sectors[blocknr := rx[..4]];
            blocknr := blocknr + 1;
            go, txlen := RequestPage(tx);
          }
          if go {
            CommandClean(if job.write then WRITE_PAGE else READ_PAGE, blocknr);
            EncryptTurn(c, tx, txlen, turn);
          }
        }
      } else {
        go, txlen := false, 0;
      }
    }

    /** The last step of an encrypted turn. */
    method EncryptTurn(c: Cipher, tx: array<byte>, txlen: nat, ghost turn: Turn)
      requires job.crypto && tx.Length == 20 && txlen <= 160 && Frame(tx[..ByteCount(txlen)], txlen).Clean()
      requires turn == Transmit(c, job, State(), tx[..ByteCount(txlen)], txlen)
      modifies this`cipherState, tx
      ensures Emit(State(), OnAir(tx[..], txlen)) == turn
    {
      hide Crypt, After, OnAir, MaskTop;
      CryptClean(c, cipherState, tx[..ByteCount(txlen)], txlen);
      cipherState := Transcrypt(c, cipherState, tx, txlen / 8, txlen % 8);
      assert tx[..][..ByteCount(txlen)] == tx[..ByteCount(txlen)];
      OnAirClean(tx[..], txlen);
    }

    /** Silence: ask for the serial number; give up while authenticating; skip a page that cannot be read. */
    method NoAnswer(c: Cipher, tx: array<byte>) returns (go: bool, txlen: nat)
      requires Valid() && job.crypto && tx.Length == 20 && State().phase in {Start, Login, Fetch}
      modifies this, tx
      ensures txlen <= 160 && (go ==> Valid())
      ensures Outcome(go, State(), tx[..], txlen) == ReaderStep(c, job, old(State()), SILENCE)
    {
      hide Crypt, OnAir, MaskTop;
      go, txlen := true, 0;
      Silent(tx[..]);
      if !unlocked {
        txlen := 5;
        tx[0] := START_AUTH;
        StartSent(tx[..]);
      } else if bAuthenticating {
        go := false;
      } else {
        if blocknr == 1 {
          sectors := sectors[1 := job.secret[2..6]];
          assert job.secret[2..6] == job.secret[2..];
        } else if blocknr == 2 {
          sectors := sectors[2 := [0x00, 0x00, job.secret[0], job.secret[1]]];
          assert [0x00, 0x00, job.secret[0], job.secret[1]] == [0, 0] + job.secret[..2];
        } else {
          sectors := sectors[blocknr := [0, 0, 0, 0]];
        }
        blocknr := blocknr + 1;
        unlocked := false;
      }
    }

    /** On the serial number: start the cipher; a zero nonce and the encrypted all-ones word go out. */
    method SendChallenge(c: Cipher, rx: array<byte>, tx: array<byte>) returns (txlen: nat)
      requires Valid() && job.crypto && rx.Length == tx.Length == 20 && rx != tx && !unlocked
      modifies this, tx
      ensures txlen == 64 && Valid()
      ensures Emit(State(), OnAir(tx[..], txlen)) == Unlock(c, job, old(State()), rx[..4])
    {
      hide Crypt, After, OnAir, Authenticator;
      cipherState := c.init(job.secret, rx[..4], [0, 0, 0, 0]);
      ghost var s := cipherState;
      var proof := new byte[4](_ => 0xFF);
      assert proof[..4] == [0xFF, 0xFF, 0xFF, 0xFF];
      cipherState := Transcrypt(c, cipherState, proof, 4, 0);
      OnesEncrypted(c, s);
      CopyInto(tx, 0, [0, 0, 0, 0] + proof[..4]);
      txlen := 64;
      Sent(tx[..], 64, [0, 0, 0, 0] + proof[..4]);
      unlocked := true;
      bAuthenticating := true;
    }

    /** The ten bits of a command on page `blocknr`. */
    method PutCommand(tx: array<byte>, op: byte)
      requires tx.Length == 20 && blocknr < 8 && (op == READ_PAGE || op == WRITE_PAGE)
      modifies tx
      ensures tx[..2] == Command(op, blocknr)
    {
      tx[0] := op + blocknr * 8 + (7 - blocknr) / 4;
      tx[1] := (7 - blocknr) % 4 * 64;
    }
  }

  /** The reader's test of the repeated command. */
  lemma CommandAgain(b0: byte, b1: byte, page: Page)
    ensures b0 == WRITE_PAGE + page * 8 + (7 - page) / 4 && b1 == (3 - page % 4) * 64
      <==> [b0, b1] == Command(WRITE_PAGE, page)
  {
    assert (7 - page) % 4 == 3 - page % 4;
  }

  /** A turn as its buffer and flag tell it. */
  ghost function Outcome(go: bool, r: ReaderState, tx: seq<byte>, txlen: nat): Turn
    requires txlen <= 8 * |tx|
  {
    if go then Emit(r, OnAir(tx, txlen)) else Stop(r)
  }

  lemma Sent(tx: seq<byte>, bits: nat, bytes: seq<byte>)
    requires bits <= 8 * |tx| && bits == 8 * |bytes| && tx[..|bytes|] == bytes
    ensures OnAir(tx, bits) == Frame(bytes, bits)
  {
    assert bytes + [] == bytes;
  }

  lemma CommandSent(tx: seq<byte>, op: byte, page: Page)
    requires |tx| == 20 && (op == READ_PAGE || op == WRITE_PAGE) && tx[..2] == Command(op, page)
    ensures OnAir(tx, 10) == Frame(Command(op, page), 10)
  {
    hide Command, OnAir, MaskTop;
    CommandClean(op, page);
    OnAirClean(tx, 10);
  }

  lemma StartSent(tx: seq<byte>)
    requires |tx| == 20 && tx[0] == START_AUTH
    ensures OnAir(tx, 5) == Frame([START_AUTH], 5)
  {
    hide MaskTop;
    assert Pow2(3) == 8;
    MaskIs(START_AUTH, 5);
    assert tx[..0] == [];
  }

  lemma XorOnes(k: byte)
    ensures XorByte(0xFF, k) == 255 - k
  {
    hide MsbFirst, ByteOf;
    var s := MsbFirst(k);
    MsbOnes();
    ComplementBits(k);
    assert XorBits(Ones(8), s) == Flip(s);
    ByteOfBits(Flip(s), 255 - k);
  }

  lemma MsbOnes()
    ensures MsbFirst(0xFF) == Ones(8)
  {
    AllOnes(8);
    assert Pow2(8) == 256;
  }

  /** Encrypting ones is complementing the key bytes. */
  lemma {:induction false} OnesEncrypted(c: Cipher, s: nat)
    ensures Crypt(c, s, [0xFF, 0xFF, 0xFF, 0xFF], 32) == Authenticator(c, s)
  {
    hide After, KeyByte, XorByte, Crypt, Authenticator;
    var s1 := After(c, s, 8);
    var s2 := After(c, s1, 8);
    var s3 := After(c, s2, 8);
    FourBytes(c, s, [0xFF, 0xFF, 0xFF, 0xFF]);
    AuthenticatorBytes(c, s);
    XorOnes(KeyByte(c, s, 8));
    XorOnes(KeyByte(c, s1, 8));
    XorOnes(KeyByte(c, s2, 8));
    XorOnes(KeyByte(c, s3, 8));
  }

  lemma Silent(tx: seq<byte>)
    ensures OnAir(tx, 0) == SILENCE
  {
  }

  // ---------------------------------------------------------------------------
  // The two loops: `ReaderHitag` and `WriterHitag`, over a channel that delivers every bit
  // ---------------------------------------------------------------------------

  lemma MaskMask(b: byte, n: nat)
    requires n <= 8
    ensures MaskTop(MaskTop(b, n), n) == MaskTop(b, n)
  {
    hide MsbFirst, ByteOf;
    var s := MsbFirst(b)[..n] + Zeros(8 - n);
    ByteOfBits(s, 0);
    assert s[..n] == MsbFirst(b)[..n];
  }

  lemma OnAirIsClean(buffer: seq<byte>, bits: nat)
    requires bits <= 8 * |buffer|
    ensures OnAir(buffer, bits).Clean() && OnAir(buffer, bits).bits == bits
  {
    hide MaskTop;
    if bits % 8 != 0 { MaskMask(buffer[bits / 8], bits % 8); }
  }

  /** A cleared receive buffer filled with a frame. */
  method Deliver(f: Frame) returns (rx: array<byte>)
    requires f.Shaped() && f.bits <= 160
    ensures fresh(rx) && rx.Length == 20 && rx[..ByteCount(f.bits)] == f.bytes
  {
    rx := new byte[20](_ => 0);
    CopyInto(rx, 0, f.bytes);
  }

  method OneTurn(c: Cipher, reader: Reader, rx: array<byte>, rxlen: nat, tx: array<byte>) returns (go: bool, txlen: nat)
    requires reader.Valid() && rx.Length == tx.Length == 20 && rx != tx && rxlen <= 160
    modifies reader, rx, tx
    ensures txlen <= 160 && (go ==> reader.Valid())
    ensures Outcome(go, reader.State(), tx[..], txlen)
      == ReaderStep(c, reader.job, old(reader.State()), Frame(old(rx[..ByteCount(rxlen)]), rxlen))
  {
    if reader.job.crypto {
      go, txlen := reader.CryptoTurn(c, rx, rxlen, tx);
    } else {
      go, txlen := reader.Password(c, rx, rxlen, tx);
    }
  }

  /** Reader and tag until the reader stops. A reading reader stops at silence, a writing one takes it as a turn. */
  method Converse(c: Cipher, reader: Reader, tag: Tag)
    requires reader.Valid()
    modifies reader, tag
    ensures
      var w := Session(c, reader.job, World(old(reader.State()), old(tag.State()), SILENCE, false));
      reader.State() == w.reader && tag.State() == w.tag
  {
    hide ReaderStep, TagStep, OnAir, Rank;
    var job := reader.job;
    ghost var w := World(reader.State(), tag.State(), SILENCE, false);
    ghost var end := Session(c, job, w);
    var rx := Deliver(SILENCE);
    var rxlen := 0;
    var stop := false;
    while !stop
      invariant w.Valid(job) && Session(c, job, w) == end && w.done == stop
      invariant w.reader == reader.State() && w.tag == tag.State()
      invariant !stop ==> reader.Valid()
      invariant fresh(rx) && rx.Length == 20 && rxlen <= 160 && rxlen == w.rx.bits
      invariant !stop ==> rx[..ByteCount(rxlen)] == w.rx.bytes
      decreases if stop then 0 else 1, Rank(w)
    {
      Unwind(c, job, w);
      RankFalls(c, job, w);
      var tx, answer := new byte[20], new byte[20];
      var go, txlen := OneTurn(c, reader, rx, rxlen, tx);
      if !go {
        stop := true;
      } else {
        OnAirIsClean(tx[..], txlen);
        rx := Deliver(OnAir(tx[..], txlen));
        rxlen := tag.HandleReaderCommand(c, rx, txlen, answer);
        OnAirIsClean(answer[..], rxlen);
        rx := Deliver(OnAir(answer[..], rxlen));
        if rxlen == 0 && !job.write { stop := true; }
      }
      w := Exchange(c, job, w);
    }
  }
}
