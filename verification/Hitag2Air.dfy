/**
  Hitag 2: what a session with the right secret puts on air, bit by bit, from the first frame to the last.
 */
module Hitag2Air {
  import opened Bits
  import opened Cbc
  import opened Hitag2

  /** The bits of a frame in the order in which they are sent. */
  function FrameBits(f: Frame): (s: seq<bool>)
    requires f.Shaped()
    ensures |s| == f.bits
  {
    Stream(f.bytes, false)[..f.bits]
  }

  /** `bits` combined with the key stream of state `s`, from its bit `n` on. */
  function Masked(c: Cipher, s: nat, n: nat, bits: seq<bool>): (r: seq<bool>)
    ensures |r| == |bits|
  {
    seq(|bits|, k requires 0 <= k < |bits| => bits[k] != c.filter(After(c, s, n + k + 1)))
  }

  /** Bits on air: in the clear in password mode, under the key stream from bit `n` on in crypto mode. */
  function Air(c: Cipher, crypto: bool, s: nat, n: nat, bits: seq<bool>): (r: seq<bool>)
    ensures |r| == |bits|
  {
    if crypto then Masked(c, s, n, bits) else bits
  }

  /** The ten bits that ask for a page, and that announce a page to write. */
  function ReadBits(page: Page): seq<bool> {
    [true, true, page / 4 == 1, page / 2 % 2 == 1, page % 2 == 1,
     false, false, page / 4 != 1, page / 2 % 2 != 1, page % 2 != 1]
  }

  function WriteBits(page: Page): seq<bool> {
    [true, false, page / 4 == 1, page / 2 % 2 == 1, page % 2 == 1,
     false, true, page / 4 != 1, page / 2 % 2 != 1, page % 2 != 1]
  }

  // ---------------------------------------------------------------------------
  // The cipher as a stream of bits
  // ---------------------------------------------------------------------------

  lemma {:induction false} KeyBitAt(c: Cipher, s: nat, n: nat, k: nat)
    requires k < n
    ensures KeyBits(c, s, n)[k] == c.filter(After(c, s, k + 1))
    decreases n
  {
    if k > 0 {
      KeyBitAt(c, c.next(s), n - 1, k - 1);
    } else {
      assert After(c, s, 1) == After(c, c.next(s), 0) == c.next(s);
    }
  }

  /** Bit `k` of a byte combined with `m` key bits from its top. */
  lemma KeyedByte(c: Cipher, s: nat, b: byte, m: nat, k: nat)
    requires k < m <= 8
    ensures MsbFirst(XorByte(b, KeyByte(c, s, m)))[k] == (MsbFirst(b)[k] != c.filter(After(c, s, k + 1)))
  {
    hide MsbFirst, ByteOf, KeyBits, After;
    var x, y := MsbFirst(b), KeyBits(c, s, m) + Zeros(8 - m);
    ByteOfBits(y, 0);
    ByteOfBits(XorBits(x, y), 0);
    KeyBitAt(c, s, m, k);
    assert y[k] == KeyBits(c, s, m)[k];
  }

  lemma StreamHead(bytes: seq<byte>)
    requires bytes != []
    ensures Stream(bytes, false) == MsbFirst(bytes[0]) + Stream(bytes[1..], false)
  {
  }

  lemma MaskedJoins(c: Cipher, s: nat, n: nat, a: seq<bool>, b: seq<bool>)
    ensures Masked(c, s, n, a + b) == Masked(c, s, n, a) + Masked(c, s, n + |a|, b)
  {
    hide After;
    var x, y := Masked(c, s, n, a), Masked(c, s, n + |a|, b);
    forall k | 0 <= k < |a + b| ensures Masked(c, s, n, a + b)[k] == (x + y)[k] {
      if k >= |a| { assert n + k + 1 == n + |a| + (k - |a|) + 1; }
    }
  }

  lemma MaskedByte(c: Cipher, s: nat, n: nat, b: byte, m: nat)
    requires m <= 8
    ensures MsbFirst(XorByte(b, KeyByte(c, After(c, s, n), m)))[..m] == Masked(c, s, n, MsbFirst(b)[..m])
  {
    hide MsbFirst, XorByte, KeyByte, After;
    var x, y := MsbFirst(XorByte(b, KeyByte(c, After(c, s, n), m)))[..m], Masked(c, s, n, MsbFirst(b)[..m]);
    forall k | 0 <= k < m ensures x[k] == y[k] {
      KeyedByte(c, After(c, s, n), b, m, k);
      AfterAfter(c, s, n, k + 1);
      assert y[k] == (MsbFirst(b)[k] != c.filter(After(c, s, n + k + 1)));
    }
    assert |x| == |y|;
  }

  /** Bit `k` of an encrypted frame is its bit combined with key bit `n + k`. */
  lemma {:induction false} CryptBits(c: Cipher, s: nat, n: nat, bytes: seq<byte>, bits: nat)
    requires |bytes| == ByteCount(bits)
    ensures
      FrameBits(Frame(Crypt(c, After(c, s, n), bytes, bits), bits)) == Masked(c, s, n, Stream(bytes, false)[..bits])
    decreases bits
  {
    hide MsbFirst, XorByte, KeyByte, After, Stream, Masked;
    var now := After(c, s, n);
    var out := Crypt(c, now, bytes, bits);
    if bits > 0 {
      var m := if bits < 8 then bits else 8;
      MaskedByte(c, s, n, bytes[0], m);
      StreamHead(bytes);
      StreamHead(out);
      if bits <= 8 {
        FirstBits(bytes, m);
        FirstBits(out, m);
        assert out[0] == XorByte(bytes[0], KeyByte(c, now, m));
      } else {
        AfterAfter(c, s, n, 8);
        CryptBits(c, s, n + 8, bytes[1..], bits - 8);
        assert out[1..] == Crypt(c, After(c, s, n + 8), bytes[1..], bits - 8);
        BehindByte(bytes, bits);
        BehindByte(out, bits);
        MaskedJoins(c, s, n, MsbFirst(bytes[0]), Stream(bytes[1..], false)[..bits - 8]);
        assert MsbFirst(bytes[0])[..8] == MsbFirst(bytes[0]) && MsbFirst(out[0])[..8] == MsbFirst(out[0]);
      }
    } else {
      NothingMasked(c, s, n);
    }
  }

  lemma NothingMasked(c: Cipher, s: nat, n: nat)
    ensures Masked(c, s, n, []) == []
  {
  }

  lemma FirstBits(bytes: seq<byte>, m: nat)
    requires bytes != [] && m <= 8
    ensures Stream(bytes, false)[..m] == MsbFirst(bytes[0])[..m]
  {
    hide MsbFirst;
    StreamHead(bytes);
  }

  lemma BehindByte(bytes: seq<byte>, bits: nat)
    requires bytes != [] && 8 < bits <= 8 * |bytes|
    ensures Stream(bytes, false)[..bits] == MsbFirst(bytes[0]) + Stream(bytes[1..], false)[..bits - 8]
  {
    hide MsbFirst, Stream;
    StreamHead(bytes);
  }

  /** A frame sent by a party whose cipher has used up `n` bits. */
  lemma {:induction false} SecureBits(c: Cipher, crypto: bool, s: nat, n: nat, bytes: seq<byte>, bits: nat)
    requires |bytes| == ByteCount(bits)
    ensures
      FrameBits(Secure(c, crypto, After(c, s, n), bytes, bits)) == Air(c, crypto, s, n, Stream(bytes, false)[..bits])
  {
    hide After, Crypt, Stream, Masked;
    if crypto { CryptBits(c, s, n, bytes, bits); }
  }

  lemma TwoBytes(a: byte, b: byte)
    ensures Stream([a, b], false)[..10] == MsbFirst(a) + MsbFirst(b)[..2]
  {
    hide MsbFirst;
    StreamHead([a, b]);
    StreamHead([b]);
    assert [a, b][1..] == [b] && [b][1..] == [];
  }

  lemma FieldBits3(page: Page, a: bool, b: bool, d: bool)
    requires page == 4 * Bit(a) + 2 * Bit(b) + Bit(d)
    ensures a == (page / 4 == 1) && b == (page / 2 % 2 == 1) && d == (page % 2 == 1)
  {
  }

  lemma CommandStream(page: Page)
    ensures Stream(Command(0xC0, page), false)[..10] == ReadBits(page)
    ensures Stream(Command(0x82, page), false)[..10] == WriteBits(page)
  {
    CommandBits(page);
    OneCommand(0xC0, page);
    OneCommand(0x82, page);
  }

  lemma OneCommand(op: byte, page: Page)
    requires op in {READ_PAGE, WRITE_PAGE}
    ensures Stream(Command(op, page), false)[..10] == if op == 0xC0 then ReadBits(page) else WriteBits(page)
  {
    CommandBits(page);
    hide MsbFirst, Command, Stream;
    var w := Command(op, page);
    assert w == [w[0], w[1]];
    TwoBytes(w[0], w[1]);
    var s := MsbFirst(w[0]) + MsbFirst(w[1])[..2];
    assert PageOf(s) == page && Checked(s);
    FieldBits3(page, s[2], s[3], s[4]);
    assert s == [s[0], s[1], s[2], s[3], s[4], s[5], s[6], s[7], s[8], s[9]];
    assert [s[0], s[1], s[5], s[6]][0] == s[0] && [s[0], s[1], s[5], s[6]][1] == s[1];
    assert [s[0], s[1], s[5], s[6]][2] == s[5] && [s[0], s[1], s[5], s[6]][3] == s[6];
  }

  // ---------------------------------------------------------------------------
  // The rounds of a session
  // ---------------------------------------------------------------------------

  /** Reader and tag between turns, the cipher having used up `k` bits since state `s`. */
  ghost predicate Placed(c: Cipher, job: Job, w: World, s: nat, k: nat) {
    w.tag.crypto == job.crypto && (job.crypto ==> w.tag.cs == After(c, s, k))
  }

  /** The tag takes a frame of `bits` bits in and sends `n` back. */
  lemma ReplyOnAir(c: Cipher, tag: TagState, s: nat, k: nat, bits: nat, bytes: seq<byte>, n: nat)
    requires |bytes| == ByteCount(n) && (tag.crypto ==> tag.cs == After(c, s, k))
    ensures
      var a := Reply(c, Ahead(c, tag, bits), bytes, n);
      && a.frame == Secure(c, tag.crypto, After(c, s, k + bits), bytes, n)
      && a.tag == tag.(cs := if tag.crypto then After(c, s, k + bits + n) else tag.cs)
  {
    hide After, Crypt;
    AfterAfter(c, s, k, bits);
    AfterAfter(c, s, k + bits, n);
  }

  /** One page is asked for and answered. */
  lemma NextOnAir(c: Cipher, job: Job, r: ReaderState, tag: TagState, s: nat, k: nat)
    requires r.page < 8 && tag.crypto == job.crypto && (job.crypto ==> r.cs == tag.cs == After(c, s, k))
    ensures
      var turn := Next(c, job, r);
      && turn.Emit? && turn.frame == Secure(c, job.crypto, After(c, s, k), Command(0xC0, r.page), 10)
      && var a := TagStep(c, tag, turn.frame);
      && a.frame == Secure(c, job.crypto, After(c, s, k + 10), tag.pages[r.page], 32)
      && a.tag.crypto == job.crypto && (job.crypto ==> a.tag.cs == After(c, s, k + 42))
  {
    hide After, Crypt, TagStep, PageCommand, Reply, Command;
    var ask := Command(0xC0, r.page);
    TagHears(c, tag, ask, 10);
    ReadAnswered(c, Ahead(c, tag, 10), r.page);
    ReplyOnAir(c, tag, s, k, 10, tag.pages[r.page], 32);
  }

  /** The reader in front of its command for page `i`. */
  ghost predicate Reading(c: Cipher, job: Job, w: World, pages: Pages, s: nat, i: nat) {
    && w.Valid(job) && !w.done && !job.write && i <= 7 && w.rx.bits == 32
    && InStep(c, job, w, pages, 0) && Placed(c, job, w, s, 64 + 42 * i)
    && if i == 0 then w.reader.phase == Login else w.reader.phase == Fetch && w.reader.page == i - 1
  }

  lemma LoginNext(c: Cipher, job: Job, w: World)
    requires w.Valid(job) && !w.done && !job.write && w.reader.phase == Login && w.rx.bits == 32
    ensures ReaderStep(c, job, w.reader, w.rx)
      == Next(c, job, if job.crypto then w.reader.(cs := After(c, w.reader.cs, 32)) else w.reader)
  {
    hide Crypt, After, Next;
  }

  /** What the reader is about to send, and the state it sends it from. */
  lemma ReadingTurn(c: Cipher, job: Job, w: World, pages: Pages, s: nat, i: nat) returns (r: ReaderState)
    requires Reading(c, job, w, pages, s, i)
    ensures ReaderStep(c, job, w.reader, w.rx) == Next(c, job, r)
    ensures r.page == i && (job.crypto ==> r.cs == w.tag.cs)
  {
    hide After, Crypt, Next, ReaderStep, Knows, Plain;
    if i == 0 {
      LoginNext(c, job, w);
      r := if job.crypto then w.reader.(cs := After(c, w.reader.cs, 32)) else w.reader;
    } else {
      FetchTurn(c, job, w, pages);
      r := Stored(c, job, w.reader, pages[w.reader.page]);
    }
  }

  lemma TagKeepsPages(c: Cipher, job: Job, w: World, pages: Pages, s: nat, i: nat)
    requires Reading(c, job, w, pages, s, i)
    ensures w.tag.pages == pages
  {
    hide After, Crypt, Knows, Plain;
  }

  /** A turn that asks for a page, as a round. */
  lemma AskRound(c: Cipher, job: Job, w: World, r: ReaderState, s: nat, k: nat)
    requires w.Valid(job) && !w.done && !job.write && ReaderStep(c, job, w.reader, w.rx) == Next(c, job, r)
    requires r.page < 8 && Placed(c, job, w, s, k) && (job.crypto ==> r.cs == w.tag.cs)
    ensures
      var turn, x := ReaderStep(c, job, w.reader, w.rx), Exchange(c, job, w);
      && turn.Emit? && turn.frame == Secure(c, job.crypto, After(c, s, k), Command(0xC0, r.page), 10)
      && x.rx == Secure(c, job.crypto, After(c, s, k + 10), w.tag.pages[r.page], 32)
      && !x.done && Placed(c, job, x, s, k + 42) && x.reader.phase == Fetch && x.reader.page == r.page
  {
    hide After, ReaderStep, TagStep, Command, Next, Secure;
    NextOnAir(c, job, r, w.tag, s, k);
    NextIsFetch(c, job, r);
    assert forall b: seq<byte>, z :: |b| == 4 ==> Secure(c, job.crypto, z, b, 32).bits == 32;
  }

  lemma {:induction false} ReadingRound(c: Cipher, job: Job, w: World, pages: Pages, s: nat, i: nat)
    requires Reading(c, job, w, pages, s, i)
    ensures
      var turn, x := ReaderStep(c, job, w.reader, w.rx), Exchange(c, job, w);
      && turn.Emit? && turn.frame == Secure(c, job.crypto, After(c, s, 64 + 42 * i), Command(0xC0, i), 10)
      && x.rx == Secure(c, job.crypto, After(c, s, 74 + 42 * i), pages[i], 32)
      && (i < 7 ==> Reading(c, job, x, pages, s, i + 1))
  {
    hide After, InStep, ReaderStep, TagStep, Command, Secure, Exchange;
    InStepKept(c, job, w, pages, 0);
    ExchangeValid(c, job, w);
    var r := ReadingTurn(c, job, w, pages, s, i);
    TagKeepsPages(c, job, w, pages, s, i);
    AskRound(c, job, w, r, s, 64 + 42 * i);
  }

  lemma NextIsFetch(c: Cipher, job: Job, r: ReaderState)
    requires r.page < 8
    ensures Next(c, job, r).Emit? && Next(c, job, r).reader.phase == Fetch && Next(c, job, r).reader.page == r.page
  {
    hide After, Crypt, Command;
  }

  lemma {:induction false} RunMore(c: Cipher, job: Job, w: World, n: nat)
    requires w.Valid(job)
    ensures Run(c, job, w, n).Valid(job) && Run(c, job, w, n + 1) == Exchange(c, job, Run(c, job, w, n))
    decreases n
  {
    hide Exchange;
    ExchangeValid(c, job, w);
    if n > 0 {
      RunMore(c, job, Exchange(c, job, w), n - 1);
    } else {
      assert Run(c, job, Exchange(c, job, w), 0) == Exchange(c, job, w);
    }
  }

  // ---------------------------------------------------------------------------
  // The login
  // ---------------------------------------------------------------------------

  lemma FiveBits()
    ensures FrameBits(Frame([0xC0], 5)) == [true, true, false, false, false]
  {
    FirstBits([0xC0], 5);
    assert MsbFirst(0xC0) == BitsOf(0xC0, 4 + 4);
    FourBits(0xC0, 4);
    FourBits(12, 0);
    assert BitsOf(0, 0) == [];
    assert BitsOf(12, 4) == [true, true, false, false];
  }

  lemma {:induction false} StreamJoins(a: seq<byte>, b: seq<byte>)
    ensures Stream(a + b, false) == Stream(a, false) + Stream(b, false)
  {
    hide MsbFirst;
    if a == [] {
      assert a + b == b;
    } else {
      StreamJoins(a[1..], b);
      assert (a + b)[1..] == a[1..] + b;
    }
  }

  lemma {:induction false} StreamOf(b: byte, n: nat)
    requires b == 0 || b == 0xFF
    ensures Stream(seq(n, _ => b), false) == seq(8 * n, _ => b == 0xFF)
  {
    if n > 0 {
      StreamOf(b, n - 1);
      assert seq(n, _ => b)[1..] == seq(n - 1, _ => b);
      if b == 0 { ZeroMsb(8); } else { MsbOnes(); }
    }
  }

  /** What proves the key: 32 ones under the first 32 key bits. */
  lemma AuthenticatorBits(c: Cipher, s: nat)
    ensures Stream(Authenticator(c, s), false) == Masked(c, s, 0, Ones(32))
  {
    hide Crypt, After, Authenticator, Stream;
    var ones := [0xFF, 0xFF, 0xFF, 0xFF];
    assert ones == seq(4, _ => 0xFF);
    StreamOf(0xFF, 4);
    assert Stream(ones, false)[..32] == Ones(32);
    OnesEncrypted(c, s);
    Still(c, s);
    CryptBits(c, s, 0, ones, 32);
  }

  /** The frame that logs in. */
  lemma UnlockBits(c: Cipher, job: Job, r: ReaderState, uid: seq<byte>)
    requires job.Valid()
    ensures
      var turn, s := Unlock(c, job, r, uid), c.init(job.secret, uid, [0, 0, 0, 0]);
      && turn.Emit? && turn.frame.Shaped()
      && FrameBits(turn.frame)
         == (if job.crypto then Zeros(32) + Masked(c, s, 0, Ones(32)) else Stream(job.secret, false))
      && (job.crypto ==> turn.reader.cs == After(c, s, 32))
  {
    hide Crypt, After, Authenticator, Stream, Masked;
    if job.crypto {
      var s, zeros := c.init(job.secret, uid, [0, 0, 0, 0]), [0, 0, 0, 0];
      AuthenticatorBits(c, s);
      StreamJoins(zeros, Authenticator(c, s));
      assert zeros == seq(4, _ => 0);
      StreamOf(0, 4);
      assert Stream(zeros, false) == Zeros(32);
    }
  }

  /** The first round asks for the serial number and gets it, in the clear. */
  lemma GreetingOnAir(c: Cipher, job: Job, page: Page, copy: Pages, cs: nat, tag: TagState)
    requires job.Valid()
    ensures
      var w := Begin(job, page, copy, cs, tag);
      var turn := ReaderStep(c, job, w.reader, w.rx);
      && turn.Emit? && turn.frame.Shaped() && FrameBits(turn.frame) == [true, true, false, false, false]
      && Exchange(c, job, w).rx.Shaped() && FrameBits(Exchange(c, job, w).rx) == Stream(tag.pages[0], false)
  {
    hide After, Crypt, Stream, TagStep, FrameBits;
    FiveBits();
    Greeted(c, tag);
    WholeFrame(tag.pages[0]);
  }

  lemma WholeFrame(bytes: seq<byte>)
    ensures Frame(bytes, 8 * |bytes|).Shaped() && FrameBits(Frame(bytes, 8 * |bytes|)) == Stream(bytes, false)
  {
  }

  /** The second round logs in; its answer takes the key stream to bit 64. */
  lemma {:induction false} UnlockOnAir(c: Cipher, job: Job, w: World, pages: Pages, page: Page)
    requires InStep(c, job, w, pages, page) && !w.done && w.reader.phase == Start && w.rx == Frame(pages[0], 32)
    requires w.Valid(job)
    ensures
      var turn, s := ReaderStep(c, job, w.reader, w.rx), c.init(job.secret, pages[0], [0, 0, 0, 0]);
      && turn.Emit? && turn.frame.Shaped()
      && FrameBits(turn.frame)
         == (if job.crypto then Zeros(32) + Masked(c, s, 0, Ones(32)) else Stream(job.secret, false))
    ensures
      var x, s := Exchange(c, job, w), c.init(job.secret, pages[0], [0, 0, 0, 0]);
      && x.rx == Secure(c, job.crypto, After(c, s, 32), pages[3], 32)
      && Placed(c, job, x, s, 64) && !x.done && x.reader.phase == Login
  {
    hide After, Crypt, Stream, TagStep, Unlock, FrameBits, Masked, Knows;
    var s := c.init(job.secret, pages[0], [0, 0, 0, 0]);
    UnlockBits(c, job, w.reader, pages[0]);
    assert Knows(job, w.tag.pages) && !w.tag.crypto && (job.crypto || !w.tag.writing);
    Accepted(c, job, w.reader, w.tag);
    assert ReaderStep(c, job, w.reader, w.rx) == Unlock(c, job, w.reader, pages[0]);
    var r := Unlock(c, job, w.reader, pages[0]).reader;
    var t := w.tag.(crypto := job.crypto, cs := if job.crypto then r.cs else w.tag.cs);
    ReplyOnAir(c, t, s, 32, 0, pages[3], 32);
    Still(c, t.cs);
  }

  /** The first two rounds, and where they leave the session. */
  lemma {:induction false} Opened(c: Cipher, job: Job, page: Page, copy: Pages, cs: nat, tag: TagState)
    requires job.Valid() && Knows(job, tag.pages) && (job.crypto || !tag.writing)
    ensures
      var w := Begin(job, page, copy, cs, tag);
      var x := Exchange(c, job, w);
      && x.Valid(job) && Run(c, job, w, 1) == x && InStep(c, job, x, tag.pages, page)
      && !x.done && x.reader.phase == Start && x.rx == Frame(tag.pages[0], 32)
      && Exchange(c, job, x).Valid(job) && Run(c, job, w, 2) == Exchange(c, job, x)
      && InStep(c, job, Exchange(c, job, x), tag.pages, page)
  {
    hide After, Crypt, TagStep, InStep, Knows, ReaderStep, Exchange;
    var w := Begin(job, page, copy, cs, tag);
    assert InStep(c, job, w, tag.pages, page) by { OpensInStep(c, job, page, copy, cs, tag); }
    InStepKept(c, job, w, tag.pages, page);
    FirstRound(c, job, page, copy, cs, tag);
    var x := Exchange(c, job, w);
    InStepKept(c, job, x, tag.pages, page);
    ExchangeValid(c, job, x);
    assert Run(c, job, w, 0) == w;
    RunMore(c, job, w, 0);
    RunMore(c, job, w, 1);
  }

  lemma OpensInStep(c: Cipher, job: Job, page: Page, copy: Pages, cs: nat, tag: TagState)
    requires job.Valid() && Knows(job, tag.pages) && (job.crypto || !tag.writing)
    ensures InStep(c, job, Begin(job, page, copy, cs, tag), tag.pages, page)
  {
    hide Knows;
  }

  /** Rounds 1 and 2 of every session with the right secret: serial number, secret, configuration page. */
  lemma LoginOnAir(c: Cipher, job: Job, page: Page, copy: Pages, cs: nat, tag: TagState)
    requires job.Valid() && Knows(job, tag.pages) && (job.crypto || !tag.writing)
    ensures
      var w, s := Begin(job, page, copy, cs, tag), c.init(job.secret, tag.pages[0], [0, 0, 0, 0]);
      var x, y := Run(c, job, w, 1), Run(c, job, w, 2);
      var asks := ReaderStep(c, job, w.reader, w.rx);
      && asks.Emit? && asks.frame.Shaped() && FrameBits(asks.frame) == [true, true, false, false, false]
      && x.Valid(job) && FrameBits(x.rx) == Stream(tag.pages[0], false)
      && !x.done
      && var logs := ReaderStep(c, job, x.reader, x.rx);
      && logs.Emit? && logs.frame.Shaped()
      && FrameBits(logs.frame)
         == (if job.crypto then Zeros(32) + Masked(c, s, 0, Ones(32)) else Stream(job.secret, false))
      && y.Valid(job) && FrameBits(y.rx) == Air(c, job.crypto, s, 32, Stream(tag.pages[3], false))
  {
    hide After, Crypt, Stream, ReaderStep, InStep, Masked, FrameBits, Exchange, Knows;
    var w, s := Begin(job, page, copy, cs, tag), c.init(job.secret, tag.pages[0], [0, 0, 0, 0]);
    Opened(c, job, page, copy, cs, tag);
    GreetingOnAir(c, job, page, copy, cs, tag);
    UnlockOnAir(c, job, Exchange(c, job, w), tag.pages, page);
    SecureWord(c, job.crypto, s, 32, tag.pages[3]);
  }

  /** Four bytes at place `n` of the key stream. */
  lemma {:induction false} SecureWord(c: Cipher, crypto: bool, s: nat, n: nat, word: seq<byte>)
    requires |word| == 4
    ensures FrameBits(Secure(c, crypto, After(c, s, n), word, 32)) == Air(c, crypto, s, n, Stream(word, false))
  {
    hide After, Crypt, Stream, Masked;
    SecureBits(c, crypto, s, n, word, 32);
    assert Stream(word, false)[..32] == Stream(word, false);
  }

  lemma {:induction false} ReadingStarts(c: Cipher, job: Job, copy: Pages, cs: nat, tag: TagState)
    requires job.Valid() && Knows(job, tag.pages) && !job.write && (job.crypto || !tag.writing)
    ensures
      var s := c.init(job.secret, tag.pages[0], [0, 0, 0, 0]);
      Reading(c, job, Run(c, job, Begin(job, 0, copy, cs, tag), 2), tag.pages, s, 0)
  {
    hide After, Crypt, ReaderStep, InStep, Exchange, Knows;
    var w := Begin(job, 0, copy, cs, tag);
    Opened(c, job, 0, copy, cs, tag);
    UnlockOnAir(c, job, Exchange(c, job, w), tag.pages, 0);
  }

  lemma {:induction false} ReadingAt(c: Cipher, job: Job, copy: Pages, cs: nat, tag: TagState, i: nat)
    requires job.Valid() && Knows(job, tag.pages) && !job.write && (job.crypto || !tag.writing) && i < 8
    ensures
      var s := c.init(job.secret, tag.pages[0], [0, 0, 0, 0]);
      Reading(c, job, Run(c, job, Begin(job, 0, copy, cs, tag), 2 + i), tag.pages, s, i)
  {
    hide Reading, Run, Exchange, ReaderStep, Knows, Secure, Command;
    var w := Begin(job, 0, copy, cs, tag);
    if i == 0 {
      ReadingStarts(c, job, copy, cs, tag);
    } else {
      ReadingAt(c, job, copy, cs, tag, i - 1);
      RunMore(c, job, w, 1 + i);
      ReadingRound(c, job, Run(c, job, w, 1 + i), tag.pages, c.init(job.secret, tag.pages[0], [0, 0, 0, 0]), i - 1);
    }
  }

  /**
    Round 3 + `i` of a reading session: the reader sends the ten bits that ask for page `i`, the tag its 32 bits; in
    crypto mode under the key stream from bits 64 + 42 `i` and 74 + 42 `i` on.
   */
  lemma ReadingOnAir(c: Cipher, job: Job, copy: Pages, cs: nat, tag: TagState, i: Page)
    requires job.Valid() && Knows(job, tag.pages) && !job.write && (job.crypto || !tag.writing)
    ensures
      var start, s := Begin(job, 0, copy, cs, tag), c.init(job.secret, tag.pages[0], [0, 0, 0, 0]);
      var w, x := Run(c, job, start, 2 + i), Run(c, job, start, 3 + i);
      && w.Valid(job) && !w.done && x.Valid(job)
      && var turn := ReaderStep(c, job, w.reader, w.rx);
      && turn.Emit? && turn.frame.Shaped()
      && FrameBits(turn.frame) == Air(c, job.crypto, s, 64 + 42 * i, ReadBits(i))
      && FrameBits(x.rx) == Air(c, job.crypto, s, 74 + 42 * i, Stream(tag.pages[i], false))
  {
    hide Run, Exchange, ReaderStep, Knows, Secure, Command, Masked, InStep, FrameBits, After, Stream, ReadBits;
    var start, s := Begin(job, 0, copy, cs, tag), c.init(job.secret, tag.pages[0], [0, 0, 0, 0]);
    ReadingAt(c, job, copy, cs, tag, i);
    RunMore(c, job, start, 2 + i);
    RunMore(c, job, start, 3 + i);
    ReadingRound(c, job, Run(c, job, start, 2 + i), tag.pages, s, i);
    SecureBits(c, job.crypto, s, 64 + 42 * i, Command(0xC0, i), 10);
    CommandStream(i);
    SecureWord(c, job.crypto, s, 74 + 42 * i, tag.pages[i]);
  }

  // ---------------------------------------------------------------------------
  // A writing session
  // ---------------------------------------------------------------------------

  lemma WriteTurn(c: Cipher, job: Job, w: World)
    requires w.Valid(job) && !w.done && job.write && w.reader.phase == Login && w.rx.bits == 32
    ensures
      var r := if job.crypto then w.reader.(cs := After(c, w.reader.cs, 32)) else w.reader;
      ReaderStep(c, job, w.reader, w.rx) == Transmit(c, job, r.(phase := PageSent), Command(0x82, w.reader.page), 10)
  {
    hide Crypt, After, Transmit, Command;
  }

  /** The write command is sent and repeated. */
  lemma AddressOnAir(c: Cipher, job: Job, w: World, pages: Pages, page: Page, s: nat)
    requires InStep(c, job, w, pages, page) && w.Valid(job) && !w.done && job.write && w.reader.phase == Login
    requires Placed(c, job, w, s, 64)
    ensures
      var turn, x, word := ReaderStep(c, job, w.reader, w.rx), Exchange(c, job, w), Command(0x82, page);
      && turn.Emit? && turn.frame == Secure(c, job.crypto, After(c, s, 64), word, 10)
      && x.rx == Secure(c, job.crypto, After(c, s, 74), word, 10)
      && Placed(c, job, x, s, 84) && !x.done && x.reader.phase == PageSent
  {
    hide After, Crypt, TagStep, PageCommand, Reply, Command, ReaderStep, Plain, Knows;
    var word := Command(0x82, page);
    WriteTurn(c, job, w);
    TagHears(c, w.tag, word, 10);
    var t := Ahead(c, w.tag, 10);
    WriteAnswered(c, t, page);
    var u := w.tag.(writing := true, active := page);
    assert Ahead(c, u, 10) == t.(writing := true, active := page);
    ReplyOnAir(c, u, s, 64, 10, word, 10);
  }

  lemma CommitTurn(c: Cipher, job: Job, w: World, pages: Pages, page: Page)
    requires w.Valid(job) && !w.done && w.reader.phase == PageSent && Addressed(c, job, w, pages, page)
    ensures
      var r := if job.crypto then w.reader.(cs := After(c, w.reader.cs, 10)) else w.reader;
      ReaderStep(c, job, w.reader, w.rx) == Transmit(c, job, r.(phase := DataSent), job.data, 32)
  {
    hide Crypt, After, Transmit, Command, Plain;
  }

  /** The data goes out, and the tag is silent. */
  lemma {:induction false} DataOnAir(c: Cipher, job: Job, w: World, pages: Pages, page: Page, s: nat)
    requires InStep(c, job, w, pages, page) && w.Valid(job) && !w.done && job.write && w.reader.phase == PageSent
    requires Placed(c, job, w, s, 84)
    ensures
      var turn := ReaderStep(c, job, w.reader, w.rx);
      && turn.Emit? && turn.frame == Secure(c, job.crypto, After(c, s, 84), job.data, 32)
      && Exchange(c, job, w).rx.bits == 0
  {
    hide After, Crypt, TagStep, Command, ReaderStep, Plain, Knows, Exchange, Goal;
    CommitTurn(c, job, w, pages, page);
    CommitKept(c, job, w, pages, page);
  }

  /**
    Rounds 3 and 4 of a writing session: the ten bits that announce the page, the same ten bits back, the 32 bits of
    data, silence; in crypto mode under the key stream from bits 64, 74 and 84 on.
   */
  lemma WritingOnAir(c: Cipher, job: Job, page: Page, copy: Pages, cs: nat, tag: TagState)
    requires job.Valid() && Knows(job, tag.pages) && job.write && (job.crypto || !tag.writing)
    ensures
      var start, s := Begin(job, page, copy, cs, tag), c.init(job.secret, tag.pages[0], [0, 0, 0, 0]);
      var w, x, y := Run(c, job, start, 2), Run(c, job, start, 3), Run(c, job, start, 4);
      && w.Valid(job) && !w.done && x.Valid(job) && !x.done
      && var names, sends := ReaderStep(c, job, w.reader, w.rx), ReaderStep(c, job, x.reader, x.rx);
      && names.Emit? && names.frame.Shaped()
      && FrameBits(names.frame) == Air(c, job.crypto, s, 64, WriteBits(page))
      && FrameBits(x.rx) == Air(c, job.crypto, s, 74, WriteBits(page))
      && sends.Emit? && sends.frame.Shaped()
      && FrameBits(sends.frame) == Air(c, job.crypto, s, 84, Stream(job.data, false))
      && y.rx.bits == 0
  {
    hide Run, Exchange, ReaderStep, Knows, Secure, Command, Masked, InStep, FrameBits, After, Stream, WriteBits, Placed;
    var start, s := Begin(job, page, copy, cs, tag), c.init(job.secret, tag.pages[0], [0, 0, 0, 0]);
    Opened(c, job, page, copy, cs, tag);
    UnlockOnAir(c, job, Exchange(c, job, start), tag.pages, page);
    var w := Run(c, job, start, 2);
    AddressOnAir(c, job, w, tag.pages, page, s);
    InStepKept(c, job, w, tag.pages, page);
    RunMore(c, job, start, 2);
    RunMore(c, job, start, 3);
    DataOnAir(c, job, Exchange(c, job, w), tag.pages, page, s);
    CommandStream(page);
    SecureBits(c, job.crypto, s, 64, Command(0x82, page), 10);
    SecureBits(c, job.crypto, s, 74, Command(0x82, page), 10);
    SecureWord(c, job.crypto, s, 84, job.data);
  }
}
