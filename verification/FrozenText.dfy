/**
  JSON documents, the texts that say them, and what the walker tells of such a text: nothing here uses the walker's
  grammar but to show that it agrees.
 */
module FrozenText {
  import opened Bits
  import opened Frozen

  // ---------------------------------------------------------------------------
  // Documents and their texts
  // ---------------------------------------------------------------------------

  /** A character of a string: itself, an escape, four hexadecimal digits, or the bytes of a longer code. */
  datatype Piece = Plain(c: byte) | Escaped(c: byte) | Unicode(digits: seq<byte>) | Wide(codes: seq<byte>)

  datatype Exp = NoExp | Exp(mark: byte, sign: seq<byte>, digits: seq<byte>)

  datatype Num = Dec(negative: bool, whole: seq<byte>, fraction: seq<byte>, exp: Exp) | Hex(negative: bool, digits: seq<byte>)

  datatype Key = Bare(name: seq<byte>) | InQuotes(pieces: seq<Piece>)

  /** A document; a pair is an item of an object only. */
  datatype Doc =
    | Word(kind: Kind)
    | Numeral(num: Num)
    | Text(pieces: seq<Piece>)
    | Many(isArray: bool, items: seq<Doc>)
    | Member(key: Key, value: Doc)

  predicate IsSign(s: seq<byte>) { s == [] || s == ['+' as int] || s == ['-' as int] }

  predicate AllDigits(s: seq<byte>) { forall c | c in s :: '0' as int <= c <= '9' as int }

  predicate AllHex(s: seq<byte>) {
    forall c | c in s ::
      '0' as int <= c <= '9' as int || 'a' as int <= c <= 'f' as int || 'A' as int <= c <= 'F' as int
  }

  predicate PieceOk(p: Piece) {
    match p
    case Plain(c) => 0x20 <= c < 0x80 && c != '"' as int && c != '\\' as int
    case Escaped(c) => c in ['"' as int, '\\' as int, '/' as int, 'b' as int, 'f' as int, 'n' as int, 'r' as int, 't' as int]
    case Unicode(d) => |d| == 4 && AllHex(d)
    case Wide(w) =>
      w != [] && w[0] >= 0x80 && |w| == if w[0] >= 0xF0 then 4 else if w[0] >= 0xE0 then 3 else 2
  }

  predicate Letter(c: int) { 'a' as int <= c <= 'z' as int || 'A' as int <= c <= 'Z' as int }

  predicate NameOk(s: seq<byte>) {
    s != [] && Letter(s[0])
    && forall c | c in s :: Letter(c) || '0' as int <= c <= '9' as int || c == '_' as int
  }

  predicate PiecesOk(pieces: seq<Piece>) { forall p | p in pieces :: PieceOk(p) }

  predicate NumOk(n: Num) {
    match n
    case Dec(_, whole, fraction, exp) =>
      && whole != [] && AllDigits(whole) && AllDigits(fraction)
      && (exp.Exp? ==> (exp.mark == 'e' as int || exp.mark == 'E' as int) && IsSign(exp.sign)
                       && exp.digits != [] && AllDigits(exp.digits))
    case Hex(_, digits) => digits != [] && AllHex(digits)
  }

  predicate Ok(d: Doc)
    decreases d
  {
    match d
    case Word(kind) => kind == Null || kind == True || kind == False
    case Numeral(n) => NumOk(n)
    case Text(pieces) => PiecesOk(pieces)
    case Many(isArray, items) => forall i | i in items :: Ok(i) && (i.Member? <==> !isArray)
    case Member(key, value) => (if key.Bare? then NameOk(key.name) else PiecesOk(key.pieces)) && Ok(value) && !value.Member?
  }

  function PieceText(p: Piece): seq<byte> {
    match p
    case Plain(c) => [c]
    case Escaped(c) => ['\\' as int, c]
    case Unicode(d) => ['\\' as int, 'u' as int] + d
    case Wide(w) => w
  }

  function PiecesText(pieces: seq<Piece>): seq<byte> {
    if pieces == [] then [] else PieceText(pieces[0]) + PiecesText(pieces[1..])
  }

  function Minus(negative: bool): seq<byte> { if negative then ['-' as int] else [] }

  function FractionText(fraction: seq<byte>): seq<byte> { if fraction == [] then [] else ['.' as int] + fraction }

  function ExpText(e: Exp): seq<byte> { if e.NoExp? then [] else [e.mark] + e.sign + e.digits }

  function NumText(n: Num): seq<byte> {
    match n
    case Dec(neg, whole, fraction, exp) => Minus(neg) + (whole + (FractionText(fraction) + ExpText(exp)))
    case Hex(neg, digits) => Minus(neg) + (['0' as int, 'x' as int] + digits)
  }

  function InQuotation(s: seq<byte>): seq<byte> { ['"' as int] + s + ['"' as int] }

  /** What a key says, quoted or not. */
  function KeyText(k: Key): seq<byte> { if k.Bare? then k.name else PiecesText(k.pieces) }

  /** What the key of a member takes of its text. */
  function KeySaid(key: Key): seq<byte> { if key.Bare? then key.name else InQuotation(KeyText(key)) }

  function WordText(kind: Kind): seq<byte> {
    if kind == Null then ['n' as int, 'u' as int, 'l' as int, 'l' as int]
    else if kind == True then ['t' as int, 'r' as int, 'u' as int, 'e' as int]
    else ['f' as int, 'a' as int, 'l' as int, 's' as int, 'e' as int]
  }

  /** The text of a document, with the white space `gap` wherever there may be some. */
  function Said(d: Doc, gap: seq<byte>): seq<byte>
    decreases d
  {
    match d
    case Word(kind) => WordText(kind)
    case Numeral(n) => NumText(n)
    case Text(pieces) => InQuotation(PiecesText(pieces))
    case Many(isArray, items) =>
      [if isArray then '[' as int else '{' as int] + SaidItems(items, gap) + [if isArray then ']' as int else '}' as int]
    case Member(key, value) =>
      KeySaid(key) + (gap + ([':' as int] + (gap + Said(value, gap))))
  }

  /** The items with commas between them. */
  function SaidItems(items: seq<Doc>, gap: seq<byte>): seq<byte>
    decreases items
  {
    if items == [] then gap
    else gap + (Said(items[0], gap) + (gap + if |items| == 1 then [] else [',' as int] + SaidItems(items[1..], gap)))
  }

  // ---------------------------------------------------------------------------
  // What is to be told
  // ---------------------------------------------------------------------------

  /** One call of the callback: what it is about, where, and the text it is given. */
  datatype Call = Call(kind: Kind, path: seq<byte>, text: seq<byte>)

  function KindOf(d: Doc): Kind {
    match d
    case Word(kind) => kind
    case Numeral(_) => Number
    case _ => String
  }

  /** The path of item `k`. */
  function Under(d: Doc, k: nat, path: seq<byte>): seq<byte> {
    if d.Member? then path + (['.' as int] + KeyText(d.key)) else path + (['[' as int] + Decimal(k) + [']' as int])
  }

  /** The calls for a document at `path`, in order: every value once, and a group before and behind what is in it. */
  function Calls(d: Doc, gap: seq<byte>, path: seq<byte>): seq<Call>
    decreases d
  {
    match d
    case Text(pieces) => [Call(String, path, PiecesText(pieces))]
    case Many(isArray, items) =>
      [Call(if isArray then ArrayStart else ObjectStart, path, [])]
      + CallsOf(items, gap, 0, path)
      + [Call(if isArray then ArrayEnd else ObjectEnd, path, Said(d, gap))]
    case Member(_, value) => Calls(value, gap, path)
    case _ => [Call(KindOf(d), path, Said(d, gap))]
  }

  function CallsOf(items: seq<Doc>, gap: seq<byte>, k: nat, path: seq<byte>): seq<Call>
    decreases items
  {
    if items == [] then []
    else Calls(items[0], gap, Under(items[0], k, path)) + CallsOf(items[1..], gap, k + 1, path)
  }

  /** Every path fits, and no key is empty or ends in a dot. */
  predicate Fits(d: Doc, path: seq<byte>)
    decreases d
  {
    && |path| < 256
    && match d
       case Many(_, items) => FitItems(items, 0, path)
       case Member(_, value) => Fits(value, path)
       case _ => true
  }

  predicate FitItems(items: seq<Doc>, k: nat, path: seq<byte>)
    decreases items
  {
    items == []
    || ((items[0].Member? ==> KeyText(items[0].key) != [] && KeyText(items[0].key)[|KeyText(items[0].key)| - 1] != '.' as int)
        && Fits(items[0], Under(items[0], k, path)) && FitItems(items[1..], k + 1, path))
  }

  /** What the walker's events tell. */
  function Told(s: seq<byte>, events: seq<Event>): seq<Call> {
    if events == [] then [] else [ToldOne(s, events[0])] + Told(s, events[1..])
  }

  function ToldOne(s: seq<byte>, e: Event): Call {
    Call(e.kind, e.path, match e.value case NoValue => [] case Slice(a, b) => if a <= b <= |s| then s[a..b] else [])
  }

  predicate Spaces(gap: seq<byte>) { forall c | c in gap :: c in [0x20, 0x09, 0x0D, 0x0A] }

  // ---------------------------------------------------------------------------
  // Tokens read back
  // ---------------------------------------------------------------------------

  /** `t` stands in `s` at `b`. */
  predicate StandsAt(s: seq<byte>, b: nat, t: seq<byte>) { b + |t| <= |s| && s[b..b + |t|] == t }

  /** What may follow a token: white space, a comma, a colon, a closing bracket, or the end. */
  predicate Ends(s: seq<byte>, e: nat) {
    e >= |s| || s[e] in [0x20, 0x09, 0x0D, 0x0A, ',' as int, ':' as int, ']' as int, '}' as int]
  }

  lemma Parts(s: seq<byte>, b: nat, t: seq<byte>, u: seq<byte>)
    requires StandsAt(s, b, t + u)
    ensures StandsAt(s, b, t) && StandsAt(s, b + |t|, u)
  {
    var w := t + u;
    assert s[b..b + |t|] == s[b..b + |w|][..|t|] == w[..|t|] == t;
    assert s[b + |t|..b + |w|] == s[b..b + |w|][|t|..] == w[|t|..] == u;
  }

  lemma FirstOf(s: seq<byte>, b: nat, t: seq<byte>)
    requires StandsAt(s, b, t)
    ensures forall k | 0 <= k < |t| :: s[b + k] == t[k]
  {
    forall k | 0 <= k < |t| ensures s[b + k] == t[k] { assert s[b..b + |t|][k] == s[b + k]; }
  }

  lemma {:induction false} GapSkipped(s: seq<byte>, b: nat, gap: seq<byte>)
    requires Spaces(gap) && StandsAt(s, b, gap) && (b + |gap| < |s| ==> !IsSpace(s[b + |gap|]))
    ensures Skip(s, b) == b + |gap|
    decreases |gap|
  {
    FirstOf(s, b, gap);
    if gap != [] {
      assert gap[0] in gap;
      assert s[b + 1..b + 1 + |gap[1..]|] == s[b..b + |gap|][1..];
      GapSkipped(s, b + 1, gap[1..]);
    }
  }

  lemma {:induction false} DigitsRun(s: seq<byte>, b: nat, t: seq<byte>, hex: bool)
    requires StandsAt(s, b, t) && forall c | c in t :: if hex then IsHexDigit(c) else IsDigit(c)
    requires b + |t| < |s| ==> !(if hex then IsHexDigit(s[b + |t|]) else IsDigit(s[b + |t|]))
    ensures DigitsEnd(s, b, hex) == b + |t|
    decreases |t|
  {
    FirstOf(s, b, t);
    if t != [] {
      assert t[0] in t;
      assert s[b + 1..b + 1 + |t[1..]|] == s[b..b + |t|][1..];
      DigitsRun(s, b + 1, t[1..], hex);
    }
  }

  lemma {:induction false} NameRun(s: seq<byte>, b: nat, t: seq<byte>)
    requires StandsAt(s, b, t) && forall c | c in t :: IsNameChar(c)
    requires b + |t| < |s| ==> !IsNameChar(s[b + |t|])
    ensures NameEnd(s, b) == b + |t|
    decreases |t|
  {
    FirstOf(s, b, t);
    if t != [] {
      assert t[0] in t;
      assert s[b + 1..b + 1 + |t[1..]|] == s[b..b + |t|][1..];
      NameRun(s, b + 1, t[1..]);
    }
  }

  lemma PieceRead(s: seq<byte>, b: nat, p: Piece)
    requires PieceOk(p) && StandsAt(s, b, PieceText(p)) && b + |PieceText(p)| < |s|
    ensures s[b] != '"' as int && CharLen(s, b) == |PieceText(p)|
  {
    FirstOf(s, b, PieceText(p));
    if p.Unicode? {
      var d := p.digits;
      assert d[0] in d && d[1] in d && d[2] in d && d[3] in d;
    }
  }

  lemma {:induction false} PiecesRead(s: seq<byte>, b: nat, pieces: seq<Piece>)
    requires PiecesOk(pieces) && StandsAt(s, b, PiecesText(pieces) + ['"' as int])
    ensures StringBody(s, b, b + |PiecesText(pieces)|)
    decreases |pieces|
  {
    hide PieceOk, CharLen;
    if pieces == [] {
      FirstOf(s, b, ['"' as int]);
    } else {
      var t, u := PieceText(pieces[0]), PiecesText(pieces[1..]);
      assert PiecesText(pieces) + ['"' as int] == t + (u + ['"' as int]);
      Parts(s, b, t, u + ['"' as int]);
      assert pieces[0] in pieces;
      PieceRead(s, b, pieces[0]);
      PiecesRead(s, b + |t|, pieces[1..]);
    }
  }

  lemma {:induction false} QuotationRead(s: seq<byte>, b: nat, pieces: seq<Piece>)
    requires PiecesOk(pieces) && StandsAt(s, b, InQuotation(PiecesText(pieces)))
    ensures Quoted(s, b + 1, b + 1 + |PiecesText(pieces)|)
    ensures s[b + 1..b + 1 + |PiecesText(pieces)|] == PiecesText(pieces)
  {
    hide PiecesText, StringBody;
    var t := PiecesText(pieces);
    assert InQuotation(t) == ['"' as int] + (t + ['"' as int]);
    Parts(s, b, ['"' as int], t + ['"' as int]);
    Parts(s, b + 1, t, ['"' as int]);
    FirstOf(s, b, ['"' as int]);
    PiecesRead(s, b + 1, pieces);
  }

  lemma DigitsRead(s: seq<byte>, b: nat, t: seq<byte>)
    requires t != [] && AllDigits(t) && StandsAt(s, b, t)
    requires b + |t| < |s| ==> !IsDigit(s[b + |t|])
    ensures b < |s| && Digits(s, b, false) == EndsAt(b + |t|) && IsDigit(s[b])
  {
    FirstOf(s, b, t);
    assert t[0] in t;
    DigitsRun(s, b, t, false);
  }

  lemma ExpRead(s: seq<byte>, b: nat, e: Exp)
    requires e.Exp? ==> (e.mark == 'e' as int || e.mark == 'E' as int) && IsSign(e.sign) && e.digits != [] && AllDigits(e.digits)
    requires StandsAt(s, b, ExpText(e)) && Ends(s, b + |ExpText(e)|)
    ensures Exponent(s, b) == EndsAt(b + |ExpText(e)|)
  {
    if e.Exp? { ExpIsRead(s, b, e.mark, e.sign, e.digits); }
  }

  lemma ExpIsRead(s: seq<byte>, b: nat, mark: byte, sign: seq<byte>, digits: seq<byte>)
    requires (mark == 'e' as int || mark == 'E' as int) && IsSign(sign) && digits != [] && AllDigits(digits)
    requires StandsAt(s, b, [mark] + sign + digits) && Ends(s, b + 1 + |sign| + |digits|)
    ensures Exponent(s, b) == EndsAt(b + 1 + |sign| + |digits|)
  {
    hide AllDigits, Digits, Exponent, StandsAt, IsSign;
    Parts(s, b, [mark] + sign, digits);
    Parts(s, b, [mark], sign);
    FirstOf(s, b, [mark]);
    assert s[b + 0] == [mark][0] == mark;
    DigitsRead(s, b + 1 + |sign|, digits);
    SignIsSkipped(s, b, sign);
  }

  lemma SignIsSkipped(s: seq<byte>, b: nat, sign: seq<byte>)
    requires (Has(s, b, 'e' as int) || Has(s, b, 'E' as int)) && IsSign(sign) && StandsAt(s, b + 1, sign)
    requires b + 1 + |sign| < |s| && IsDigit(s[b + 1 + |sign|])
    ensures Exponent(s, b) == Digits(s, b + 1 + |sign|, false)
  {
    hide Digits;
    FirstOf(s, b + 1, sign);
  }

  lemma FractionRead(s: seq<byte>, b: nat, f: seq<byte>)
    requires AllDigits(f) && StandsAt(s, b, FractionText(f))
    requires var e := b + |FractionText(f)|; e < |s| ==> !IsDigit(s[e]) && s[e] != '.' as int
    ensures Fraction(s, b) == EndsAt(b + |FractionText(f)|)
  {
    if f != [] {
      Parts(s, b, ['.' as int], f);
      FirstOf(s, b, ['.' as int]);
      DigitsRead(s, b + 1, f);
    }
  }

  /** What follows the digits of a number is not one of them, nor an x. */
  lemma BehindDigits(s: seq<byte>, b: nat, f: seq<byte>, e: Exp)
    requires e.Exp? ==> e.mark == 'e' as int || e.mark == 'E' as int
    requires StandsAt(s, b, FractionText(f) + ExpText(e)) && Ends(s, b + |FractionText(f) + ExpText(e)|)
    ensures b < |s| ==> !IsDigit(s[b]) && s[b] != 'x' as int
    ensures b + |FractionText(f)| < |s| ==> !IsDigit(s[b + |FractionText(f)|]) && s[b + |FractionText(f)|] != '.' as int
  {
    var x, y := FractionText(f), ExpText(e);
    Parts(s, b, x, y);
    FirstOf(s, b, x);
    FirstOf(s, b + |x|, y);
  }

  lemma WholeRead(s: seq<byte>, u: nat, whole: seq<byte>, fraction: seq<byte>, exp: Exp)
    requires NumOk(Dec(false, whole, fraction, exp))
    requires StandsAt(s, u, whole + (FractionText(fraction) + ExpText(exp)))
    requires Ends(s, u + |whole + (FractionText(fraction) + ExpText(exp))|)
    ensures NumberEnd(s, u) == EndsAt(u + |whole + (FractionText(fraction) + ExpText(exp))|)
    ensures IsDigit(s[u])
  {
    hide FractionText, ExpText, Ends, DigitsEnd, Digits, Fraction, Exponent;
    var f, e := FractionText(fraction), ExpText(exp);
    var a := u + |whole|;
    Parts(s, u, whole, f + e);
    Parts(s, a, f, e);
    BehindDigits(s, a, fraction, exp);
    DigitsRead(s, u, whole);
    FractionRead(s, a, fraction);
    ExpRead(s, a + |f|, exp);
    SecondDigit(s, u, whole);
    hide StandsAt, AllDigits;
  }

  lemma SecondDigit(s: seq<byte>, u: nat, whole: seq<byte>)
    requires AllDigits(whole) && StandsAt(s, u, whole)
    ensures |whole| > 1 ==> s[u + 1] != 'x' as int
  {
    FirstOf(s, u, whole);
    if |whole| > 1 { assert whole[1] in whole; }
  }

  lemma HexRead(s: seq<byte>, u: nat, digits: seq<byte>)
    requires digits != [] && AllHex(digits) && StandsAt(s, u, ['0' as int, 'x' as int] + digits)
    requires Ends(s, u + 2 + |digits|)
    ensures NumberEnd(s, u) == EndsAt(u + 2 + |digits|)
    ensures s[u] == '0' as int
  {
    Parts(s, u, ['0' as int, 'x' as int], digits);
    FirstOf(s, u, ['0' as int, 'x' as int]);
    DigitsRun(s, u + 2, digits, true);
  }

  /** A sign in front makes no difference but its place. */
  lemma SignRead(s: seq<byte>, b: nat)
    requires b + 1 < |s| && s[b] == '-' as int && s[b + 1] != '-' as int
    ensures NumberEnd(s, b) == NumberEnd(s, b + 1)
  {
    hide Digits, Fraction, Exponent;
  }

  /** A sign, or none, and digits behind it. */
  lemma SignedRead(s: seq<byte>, b: nat, negative: bool, rest: seq<byte>)
    requires StandsAt(s, b, Minus(negative) + rest) && rest != []
    requires b + |Minus(negative)| < |s| ==> IsDigit(s[b + |Minus(negative)|])
    ensures b < |s| && !IsSpace(s[b]) && StandsAt(s, b + |Minus(negative)|, rest)
    ensures NumberEnd(s, b) == NumberEnd(s, b + |Minus(negative)|)
  {
    hide NumberEnd;
    Parts(s, b, Minus(negative), rest);
    FirstOf(s, b, Minus(negative));
    if negative { SignRead(s, b); }
  }

  lemma NumRead(s: seq<byte>, b: nat, n: Num)
    requires NumOk(n) && StandsAt(s, b, NumText(n)) && Ends(s, b + |NumText(n)|)
    ensures NumberEnd(s, b) == EndsAt(b + |NumText(n)|)
    ensures b < |s| && !IsSpace(s[b])
  {
    hide NumberEnd, AllHex, AllDigits, StandsAt, Minus, Ends, FractionText, ExpText;
    match n
    case Dec(negative, whole, fraction, exp) => DecRead(s, b, negative, whole, fraction, exp);
    case Hex(negative, digits) => HexNumRead(s, b, negative, digits);
  }

  lemma HexNumRead(s: seq<byte>, b: nat, negative: bool, digits: seq<byte>)
    requires digits != [] && AllHex(digits)
    requires
      var rest := ['0' as int, 'x' as int] + digits;
      StandsAt(s, b, Minus(negative) + rest) && Ends(s, b + |Minus(negative)| + |rest|)
    ensures NumberEnd(s, b) == EndsAt(b + |Minus(negative)| + |['0' as int, 'x' as int] + digits|)
    ensures b < |s| && !IsSpace(s[b])
  {
    hide NumberEnd, AllHex, StandsAt, Minus, Ends;
    var rest := ['0' as int, 'x' as int] + digits;
    Parts(s, b, Minus(negative), rest);
    HexRead(s, b + |Minus(negative)|, digits);
    SignedRead(s, b, negative, rest);
  }

  lemma DecRead(s: seq<byte>, b: nat, negative: bool, whole: seq<byte>, fraction: seq<byte>, exp: Exp)
    requires NumOk(Dec(negative, whole, fraction, exp))
    requires
      var rest := whole + (FractionText(fraction) + ExpText(exp));
      StandsAt(s, b, Minus(negative) + rest) && Ends(s, b + |Minus(negative)| + |rest|)
    ensures NumberEnd(s, b) == EndsAt(b + |Minus(negative)| + |whole + (FractionText(fraction) + ExpText(exp))|)
    ensures b < |s| && !IsSpace(s[b])
  {
    assert NumOk(Dec(false, whole, fraction, exp));
    hide NumberEnd, FractionText, ExpText, Ends, AllDigits, NumOk, StandsAt, Minus;
    var rest := whole + (FractionText(fraction) + ExpText(exp));
    Parts(s, b, Minus(negative), rest);
    WholeRead(s, b + |Minus(negative)|, whole, fraction, exp);
    assert rest != [] by { WholeNotEmpty(negative, whole, fraction, exp); }
    SignedRead(s, b, negative, rest);
  }

  lemma WholeNotEmpty(negative: bool, whole: seq<byte>, fraction: seq<byte>, exp: Exp)
    requires NumOk(Dec(negative, whole, fraction, exp))
    ensures whole != []
  {
  }

  // ---------------------------------------------------------------------------
  // Documents read back
  // ---------------------------------------------------------------------------

  /** No document starts with white space, a comma or a closing bracket. */
  lemma SaidStarts(d: Doc, gap: seq<byte>)
    requires Ok(d)
    ensures Said(d, gap) != [] && Said(d, gap)[0] !in [0x20, 0x09, 0x0D, 0x0A, ',' as int, ']' as int, '}' as int]
  {
    hide SaidItems;
    match d
    case Numeral(n) => NumStarts(n);
    case _ =>
  }

  lemma NumStarts(n: Num)
    requires NumOk(n)
    ensures NumText(n) != [] && (NumText(n)[0] == '-' as int || '0' as int <= NumText(n)[0] <= '9' as int)
  {
    if n.Dec? { assert n.whole[0] in n.whole; }
  }

  lemma {:induction false} ToldJoins(s: seq<byte>, a: seq<Event>, b: seq<Event>)
    ensures Told(s, a + b) == Told(s, a) + Told(s, b)
    decreases |a|
  {
    hide ToldOne;
    if a == [] {
      assert a + b == b;
    } else {
      assert (a + b)[1..] == a[1..] + b;
      ToldJoins(s, a[1..], b);
    }
  }

  lemma TellOne(s: seq<byte>, kind: Kind, path: seq<byte>, value: Value)
    requires Reported(path)
    ensures Told(s, Report(kind, path, value)) == [ToldOne(s, Event(kind, path, value))]
  {
    hide ToldOne;
    assert Told(s, []) == [];
  }

  /** `j` is what stands at `b` for a document, and its events tell the document's calls. */
  ghost predicate Agrees(s: seq<byte>, b: nat, d: Doc, gap: seq<byte>, at: Path, path: seq<byte>, j: Json) {
    && j.Pair? == d.Member? && j.Begin() == b && Stands(s, j) && j.End() == b + |Said(d, gap)|
    && Told(s, Events(s, j, at)) == Calls(d, gap, path)
  }

  /** Where a document is to be reported: its own path, or for a member the path of its object with a dot. */
  ghost predicate Placed(d: Doc, at: Path, path: seq<byte>) {
    && Reported(path) && Fits(d, path)
    && if d.Member? then !Reported(at) && path == at + KeyText(d.key) else path == at
  }

  lemma LeafRead(s: seq<byte>, b: nat, d: Doc, gap: seq<byte>, path: Path) returns (j: Json)
    requires Ok(d) && (d.Word? || d.Numeral? || d.Text?) && Reported(path)
    requires StandsAt(s, b, Said(d, gap)) && Ends(s, b + |Said(d, gap)|)
    ensures Agrees(s, b, d, gap, path, path, j)
  {
    match d {
      case Word(kind) => j := WordRead(s, b, kind, gap, path);
      case Numeral(n) => j := NumeralRead(s, b, n, gap, path);
      case Text(pieces) => j := TextRead(s, b, pieces, gap, path);
    }
  }

  lemma WordRead(s: seq<byte>, b: nat, kind: Kind, gap: seq<byte>, path: Path) returns (j: Json)
    requires (kind == Null || kind == True || kind == False) && Reported(path) && StandsAt(s, b, WordText(kind))
    ensures Agrees(s, b, Word(kind), gap, path, path, j)
  {
    j := Leaf(kind, b, b + |WordText(kind)|);
    TellOne(s, kind, path, Slice(j.from, j.to));
    hide Told, Reported;
  }

  lemma {:induction false} NumeralRead(s: seq<byte>, b: nat, n: Num, gap: seq<byte>, path: Path) returns (j: Json)
    requires NumOk(n) && Reported(path) && StandsAt(s, b, NumText(n)) && Ends(s, b + |NumText(n)|)
    ensures Agrees(s, b, Numeral(n), gap, path, path, j)
  {
    hide NumberEnd, NumText, NumOk, Told, Reported, Ends;
    NumRead(s, b, n);
    j := Leaf(Number, b, b + |NumText(n)|);
    TellOne(s, Number, path, Slice(j.from, j.to));
  }

  lemma TextRead(s: seq<byte>, b: nat, pieces: seq<Piece>, gap: seq<byte>, path: Path) returns (j: Json)
    requires PiecesOk(pieces) && Reported(path) && StandsAt(s, b, InQuotation(PiecesText(pieces)))
    ensures Agrees(s, b, Text(pieces), gap, path, path, j)
  {
    hide PiecesText, Quoted, PiecesOk, Told, Reported;
    QuotationRead(s, b, pieces);
    j := Leaf(String, b + 1, b + 1 + |PiecesText(pieces)|);
    Standing(s, b, InQuotation(PiecesText(pieces)));
    TellOne(s, String, path, Slice(j.from, j.to));
  }

  /** A key stands before its colon. */
  lemma KeyRead(s: seq<byte>, b: nat, key: Key)
    requires if key.Bare? then NameOk(key.name) else PiecesOk(key.pieces)
    requires StandsAt(s, b, KeySaid(key)) && Ends(s, KeyEnd(b, key))
    ensures
      var from := if key.Bare? then b else b + 1;
      var to := from + |KeyText(key)|;
      && (if key.Bare? then Name(s, from, to) else Quoted(s, from, to))
      && to <= |s| && s[from..to] == KeyText(key)
  {
    hide PiecesText, Quoted, PiecesOk, NameOk, Name, Ends;
    if key.Bare? {
      BareRead(s, b, key.name);
    } else {
      QuotationRead(s, b, key.pieces);
      Standing(s, b, KeySaid(key));
    }
  }

  lemma BareRead(s: seq<byte>, b: nat, name: seq<byte>)
    requires NameOk(name) && StandsAt(s, b, name) && Ends(s, b + |name|)
    ensures Name(s, b, b + |name|)
  {
    FirstOf(s, b, name);
    assert s[b + 0] == name[0];
    NoNameChar(s, b + |name|);
    NameRun(s, b, name);
  }

  lemma NoNameChar(s: seq<byte>, e: nat)
    requires Ends(s, e)
    ensures e < |s| ==> !IsNameChar(s[e])
  {
  }

  /** The gap behind a token is skipped up to what is not white space. */
  lemma GapThen(s: seq<byte>, b: nat, gap: seq<byte>, c: byte, rest: seq<byte>)
    requires Spaces(gap) && StandsAt(s, b, gap + ([c] + rest)) && !IsSpace(c)
    ensures Skip(s, b) == b + |gap| && Has(s, b + |gap|, c) && StandsAt(s, b + |gap| + 1, rest)
    ensures gap != [] || c == ',' as int || c == ':' as int || c == ']' as int || c == '}' as int ==> Ends(s, b)
  {
    Parts(s, b, gap, [c] + rest);
    Parts(s, b + |gap|, [c], rest);
    FirstOf(s, b, gap);
    FirstOf(s, b + |gap|, [c]);
    GapSkipped(s, b, gap);
    if gap != [] { assert gap[0] in gap; }
  }

  /** Where the key ends. */
  function KeyEnd(b: nat, key: Key): nat { b + |KeyText(key)| + if key.Bare? then 0 else 2 }

  /** A member's text: its key stands at `b`, then come the colon and the value. */
  lemma MemberSplit(s: seq<byte>, b: nat, key: Key, gap: seq<byte>, v: seq<byte>)
    requires Spaces(gap) && v != [] && !IsSpace(v[0])
    requires StandsAt(s, b, KeySaid(key) + (gap + ([':' as int] + (gap + v))))
    ensures
      var i := KeyEnd(b, key);
      var colon := i + |gap|;
      && StandsAt(s, b, KeySaid(key)) && Ends(s, i) && i <= |s| && Skip(s, i) == colon && Has(s, colon, ':' as int)
      && Skip(s, colon + 1) == colon + 1 + |gap| && StandsAt(s, colon + 1 + |gap|, v)
  {
    hide KeyText, KeySaid, StandsAt, Skip, Ends, Spaces, IsSpace, KeyEnd;
    KeyLength(b, key);
    Parts(s, b, KeySaid(key), gap + ([':' as int] + (gap + v)));
    ColonThen(s, KeyEnd(b, key), gap, v);
  }

  lemma ColonThen(s: seq<byte>, i: nat, gap: seq<byte>, v: seq<byte>)
    requires Spaces(gap) && v != [] && !IsSpace(v[0]) && StandsAt(s, i, gap + ([':' as int] + (gap + v)))
    ensures
      var colon := i + |gap|;
      && Ends(s, i) && i <= |s| && Skip(s, i) == colon && Has(s, colon, ':' as int)
      && Skip(s, colon + 1) == colon + 1 + |gap| && StandsAt(s, colon + 1 + |gap|, v)
  {
    var w := gap + v;
    Standing(s, i, gap + ([':' as int] + w));
    ColonIsNoSpace();
    GapThen(s, i, gap, ':' as int, w);
    Standing(s, i + |gap| + 1, w);
    hide StandsAt, Skip, Ends, Spaces, IsSpace;
    ValueThen(s, i + |gap| + 1, gap, v);
  }

  lemma Standing(s: seq<byte>, b: nat, t: seq<byte>)
    requires StandsAt(s, b, t)
    ensures b + |t| <= |s|
  {
  }

  lemma ValueThen(s: seq<byte>, b: nat, gap: seq<byte>, v: seq<byte>)
    requires Spaces(gap) && v != [] && !IsSpace(v[0]) && StandsAt(s, b, gap + v)
    ensures Skip(s, b) == b + |gap| && StandsAt(s, b + |gap|, v)
  {
    hide Spaces, Skip;
    Parts(s, b, gap, v);
    FirstOf(s, b + |gap|, v);
    GapSkipped(s, b, gap);
  }

  lemma ColonIsNoSpace()
    ensures !IsSpace(':' as int)
  {
  }

  lemma KeyLength(b: nat, key: Key)
    ensures b + |KeySaid(key)| == KeyEnd(b, key)
  {
  }

  lemma {:induction false} MemberRead(s: seq<byte>, b: nat, d: Doc, gap: seq<byte>, at: Path, path: seq<byte>)
    returns (j: Json)
    requires Ok(d) && d.Member? && Spaces(gap) && Placed(d, at, path)
    requires StandsAt(s, b, Said(d, gap)) && Ends(s, b + |Said(d, gap)|)
    ensures Agrees(s, b, d, gap, at, path, j)
    decreases d, 0
  {
    hide Said, Calls, Events, Stands, Fits, Ok, Quoted, Name, KeyText, NameOk, PiecesOk, Told, Skip, StandsAt, Ends, Placed;
    hide KeySaid, Spaces, Agrees;
    var key, value := d.key, d.value;
    MemberSaid(d, gap);
    MemberOk(d, at, path);
    SaidStarts(value, gap);
    KeyLength(b, key);
    MemberSplit(s, b, key, gap, Said(value, gap));
    KeyRead(s, b, key);
    var colon := KeyEnd(b, key) + |gap|;
    var inner := Reads(s, colon + 1 + |gap|, value, gap, path, path);
    var from := if key.Bare? then b else b + 1;
    j := Pair(!key.Bare?, from, from + |KeyText(key)|, inner);
    MemberAgrees(s, b, d, gap, at, path, j, colon);
  }

  lemma {:induction false} MemberAgrees(s: seq<byte>, b: nat, d: Doc, gap: seq<byte>, at: Path, path: Path, j: Json,
                                        colon: nat)
    requires d.Member? && j.Pair? && j.quoted == !d.key.Bare? && j.from == (if j.quoted then b + 1 else b)
    requires j.to == j.from + |KeyText(d.key)| && j.to <= |s| && s[j.from..j.to] == KeyText(d.key)
    requires if j.quoted then Quoted(s, j.from, j.to) else Name(s, j.from, j.to)
    requires (if j.quoted then j.to + 1 else j.to) <= |s| && colon == Skip(s, if j.quoted then j.to + 1 else j.to)
    requires Has(s, colon, ':' as int) && Skip(s, colon + 1) == colon + 1 + |gap|
    requires Agrees(s, colon + 1 + |gap|, d.value, gap, path, path, j.value) && !d.value.Member?
    requires b + |Said(d, gap)| == colon + 1 + |gap| + |Said(d.value, gap)|
    requires !Reported(at) && path == at + KeyText(d.key)
    ensures Agrees(s, b, d, gap, at, path, j)
  {
    hide Said, Calls, Events, Stands, Quoted, Name, KeyText, Told, Skip;
    PairStands(s, j, colon);
    MemberTold(s, j, d.key, at, path);
    MemberCalls(d.key, d.value, gap, path);
  }

  lemma MemberSaid(d: Doc, gap: seq<byte>)
    requires d.Member?
    ensures Said(d, gap) == KeySaid(d.key) + (gap + ([':' as int] + (gap + Said(d.value, gap))))
  {
    hide KeyText, InQuotation;
  }

  lemma MemberOk(d: Doc, at: Path, path: seq<byte>)
    requires d.Member? && Ok(d) && Placed(d, at, path)
    ensures if d.key.Bare? then NameOk(d.key.name) else PiecesOk(d.key.pieces)
    ensures Ok(d.value) && !d.value.Member? && Placed(d.value, path, path) && |path| < 256
    ensures !Reported(at) && path == at + KeyText(d.key)
  {
    hide NameOk, PiecesOk, KeyText;
  }

  lemma MemberCalls(key: Key, value: Doc, gap: seq<byte>, path: seq<byte>)
    ensures Calls(Member(key, value), gap, path) == Calls(value, gap, path)
  {
  }

  lemma PairStands(s: seq<byte>, j: Json, colon: nat)
    requires j.Pair? && (if j.quoted then Quoted(s, j.from, j.to) else Name(s, j.from, j.to))
    requires (if j.quoted then j.to + 1 else j.to) <= |s|
    requires colon == Skip(s, if j.quoted then j.to + 1 else j.to)
    requires Has(s, colon, ':' as int) && !j.value.Pair? && j.value.Begin() == Skip(s, colon + 1) && Stands(s, j.value)
    ensures Stands(s, j)
  {
    hide Quoted, Name;
    assert Next(s, colon + 1, false, j.value);
  }

  /** The key itself is not told: it would stand at a path that ends in a dot. */
  lemma {:induction false} MemberTold(s: seq<byte>, j: Json, key: Key, at: Path, path: Path)
    requires j.Pair? && j.from <= j.to <= |s| && s[j.from..j.to] == KeyText(key)
    requires !Reported(at) && path == at + KeyText(key)
    ensures Told(s, Events(s, j, at)) == Told(s, Events(s, j.value, path))
  {
    hide KeyText;
    var text := KeyText(key);
    assert text[..|text|] == text;
    assert Append(at, text) == path;
    assert [] + Events(s, j.value, path) == Events(s, j.value, path);
  }

  /** A document that stands in a text is read as itself, and told as it should be. */
  lemma {:induction false} Reads(s: seq<byte>, b: nat, d: Doc, gap: seq<byte>, at: Path, path: seq<byte>)
    returns (j: Json)
    requires Ok(d) && Spaces(gap) && Placed(d, at, path)
    requires StandsAt(s, b, Said(d, gap)) && Ends(s, b + |Said(d, gap)|)
    ensures Agrees(s, b, d, gap, at, path, j)
    decreases d, 1
  {
    match d {
      case Many(_, _) => j := ManyRead(s, b, d, gap, path);
      case Member(_, _) => j := MemberRead(s, b, d, gap, at, path);
      case _ => j := LeafRead(s, b, d, gap, path);
    }
  }

  lemma {:induction false} ManyRead(s: seq<byte>, b: nat, d: Doc, gap: seq<byte>, path: Path) returns (j: Json)
    requires Ok(d) && d.Many? && Spaces(gap) && Reported(path) && Fits(d, path)
    requires StandsAt(s, b, Said(d, gap))
    ensures Agrees(s, b, d, gap, path, path, j)
    decreases d, 0
  {
    hide Said, SaidItems, Calls, CallsOf, Events, ItemEvents, Stands, ItemsStand, Fits, FitItems, Ok, After, Told, Skip;
    hide Reported, StandsAt;
    ManyOk(d, gap, path);
    ManyParts(s, b, d, gap, path);
    var js := ItemsRead(s, b + 1, d.isArray, d.items, gap, 0, path);
    j := Group(d.isArray, b, b + |Said(d, gap)|, js);
    GroupStands(s, j);
    GroupTold(s, j, d, gap, path);
  }

  /** The brackets and what is between them. */
  lemma ManyParts(s: seq<byte>, b: nat, d: Doc, gap: seq<byte>, path: Path)
    requires d.Many? && Ok(d) && Fits(d, path) && StandsAt(s, b, Said(d, gap))
    ensures
      var inside := SaidItems(d.items, gap);
      && |Said(d, gap)| == |inside| + 2 && b + |inside| + 2 <= |s| && s[b..b + |inside| + 2] == Said(d, gap)
      && Has(s, b, if d.isArray then '[' as int else '{' as int) && StandsAt(s, b + 1, inside)
      && Has(s, b + 1 + |inside|, if d.isArray then ']' as int else '}' as int)
  {
    hide Said, SaidItems, Fits, FitItems, Ok;
    var open, close := if d.isArray then '[' as int else '{' as int, if d.isArray then ']' as int else '}' as int;
    var inside := SaidItems(d.items, gap);
    ManyOk(d, gap, path);
    Parts(s, b, [open], inside + [close]);
    Parts(s, b + 1, inside, [close]);
    FirstOf(s, b, [open]);
    FirstOf(s, b + 1 + |inside|, [close]);
  }

  lemma ManyOk(d: Doc, gap: seq<byte>, path: Path)
    requires d.Many? && Ok(d) && Fits(d, path)
    ensures forall i | i in d.items :: Ok(i) && (i.Member? <==> !d.isArray)
    ensures FitItems(d.items, 0, path)
    ensures
      var open, close := if d.isArray then '[' as int else '{' as int, if d.isArray then ']' as int else '}' as int;
      Said(d, gap) == [open] + (SaidItems(d.items, gap) + [close])
  {
    hide SaidItems, FitItems;
  }

  lemma GroupStands(s: seq<byte>, j: Json)
    requires j.Group? && Has(s, j.from, if j.isArray then '[' as int else '{' as int)
    requires ItemsStand(s, j.isArray, j.items, j.from + 1)
    requires j.to == Skip(s, After(s, j.items, j.from + 1)) + 1 && Has(s, j.to - 1, if j.isArray then ']' as int else '}' as int)
    ensures Stands(s, j)
  {
    hide ItemsStand, After;
  }

  lemma {:induction false} GroupTold(s: seq<byte>, j: Json, d: Doc, gap: seq<byte>, path: Path)
    requires j.Group? && d.Many? && j.isArray == d.isArray && Reported(path)
    requires j.from <= j.to <= |s| && s[j.from..j.to] == Said(d, gap)
    requires Told(s, ItemEvents(s, j.isArray, j.items, 0, ItemBase(j.isArray, path))) == CallsOf(d.items, gap, 0, path)
    ensures Told(s, Events(s, j, path)) == Calls(d, gap, path)
  {
    hide Said, CallsOf, ItemEvents, Told, ToldOne, Report, Reported;
    var first := Report(if j.isArray then ArrayStart else ObjectStart, path, NoValue);
    var inner := ItemEvents(s, j.isArray, j.items, 0, ItemBase(j.isArray, path));
    var last := Report(if j.isArray then ArrayEnd else ObjectEnd, path, Slice(j.from, j.to));
    ToldJoins(s, first + inner, last);
    ToldJoins(s, first, inner);
    TellOne(s, if j.isArray then ArrayStart else ObjectStart, path, NoValue);
    TellOne(s, if j.isArray then ArrayEnd else ObjectEnd, path, Slice(j.from, j.to));
    ToldIs(s, Event(if j.isArray then ArrayStart else ObjectStart, path, NoValue));
    ToldIs(s, Event(if j.isArray then ArrayEnd else ObjectEnd, path, Slice(j.from, j.to)));
  }

  lemma ToldIs(s: seq<byte>, e: Event)
    ensures e.value == NoValue ==> ToldOne(s, e) == Call(e.kind, e.path, [])
    ensures e.value.Slice? && e.value.from <= e.value.to <= |s| ==>
      ToldOne(s, e) == Call(e.kind, e.path, s[e.value.from..e.value.to])
  {
  }

  /** The path an item is reported at is the one it is to be told at. */
  lemma {:induction false} ItemPlaced(d: Doc, isArray: bool, k: nat, path: Path)
    requires Reported(path) && (d.Member? <==> !isArray) && Fits(d, Under(d, k, path))
    requires d.Member? ==> KeyText(d.key) != [] && KeyText(d.key)[|KeyText(d.key)| - 1] != '.' as int
    ensures Placed(d, ItemPath(isArray, ItemBase(isArray, path), k), Under(d, k, path))
  {
    hide Fits, Decimal, KeyText;
    FitsLength(d, Under(d, k, path));
    if isArray {
      ElementPath(path, k);
    } else {
      assert ['.' as int][..1] == ['.' as int];
    }
  }

  lemma FitsLength(d: Doc, path: seq<byte>)
    requires Fits(d, path)
    ensures |path| < 256
  {
  }

  /** The items up to the closing bracket, and what is told of them. */
  lemma {:induction false} ItemsRead(s: seq<byte>, i: nat, isArray: bool, items: seq<Doc>, gap: seq<byte>, k: nat,
                                     path: Path)
    returns (js: seq<Json>)
    requires (forall d | d in items :: Ok(d) && (d.Member? <==> !isArray)) && Spaces(gap) && Reported(path)
    requires FitItems(items, k, path) && StandsAt(s, i, SaidItems(items, gap))
    requires Has(s, i + |SaidItems(items, gap)|, if isArray then ']' as int else '}' as int)
    ensures ItemsStand(s, isArray, js, i) && Skip(s, After(s, js, i)) == i + |SaidItems(items, gap)|
    ensures Told(s, ItemEvents(s, isArray, js, k, ItemBase(isArray, path))) == CallsOf(items, gap, k, path)
    decreases items, 1
  {
    hide Said, SaidItems, Calls, CallsOf, Events, ItemEvents, Stands, ItemsStand, Fits, FitItems, Ok, After, Told, Skip, Under;
    hide Reported, StandsAt, Placed, Comma;
    if items == [] {
      js := [];
      NoItemsRead(s, i, isArray, gap, k, path);
    } else {
      var d := items[0];
      assert d in items;
      FirstFits(items, k, path);
      ItemPlaced(d, isArray, k, path);
      var e := ItemBounds(s, i, isArray, items, gap);
      var j := Reads(s, i + |gap|, d, gap, ItemPath(isArray, ItemBase(isArray, path), k), Under(d, k, path));
      js := ItemsTail(s, e, isArray, items, gap, k, path);
      assert Next(s, i, !isArray, j);
      ItemsJoin(s, isArray, j, js, i, k, ItemBase(isArray, path));
      js := [j] + js;
      CallsHead(items, gap, k, path);
    }
  }

  lemma FirstFits(items: seq<Doc>, k: nat, path: seq<byte>)
    requires items != [] && FitItems(items, k, path)
    ensures Fits(items[0], Under(items[0], k, path))
    ensures items[0].Member? ==>
      KeyText(items[0].key) != [] && KeyText(items[0].key)[|KeyText(items[0].key)| - 1] != '.' as int
    ensures FitItems(items[1..], k + 1, path)
  {
    hide Fits, KeyText, Under;
  }

  lemma NoItemsRead(s: seq<byte>, i: nat, isArray: bool, gap: seq<byte>, k: nat, path: Path)
    requires Spaces(gap) && StandsAt(s, i, SaidItems([], gap))
    requires Has(s, i + |SaidItems([], gap)|, if isArray then ']' as int else '}' as int)
    ensures ItemsStand(s, isArray, [], i) && Skip(s, After(s, [], i)) == i + |SaidItems([], gap)|
    ensures Told(s, ItemEvents(s, isArray, [], k, ItemBase(isArray, path))) == CallsOf([], gap, k, path)
  {
    GapSkipped(s, i, gap);
  }

  lemma CallsHead(items: seq<Doc>, gap: seq<byte>, k: nat, path: seq<byte>)
    requires items != []
    ensures CallsOf(items, gap, k, path) == Calls(items[0], gap, Under(items[0], k, path)) + CallsOf(items[1..], gap, k + 1, path)
  {
    hide Calls, Under;
  }

  /** The rest of the items behind the first one, which ends before `e`. */
  lemma {:induction false} ItemsTail(s: seq<byte>, e: nat, isArray: bool, items: seq<Doc>, gap: seq<byte>, k: nat,
                                     path: Path)
    returns (js: seq<Json>)
    requires items != [] && (forall d | d in items :: Ok(d) && (d.Member? <==> !isArray)) && Spaces(gap) && Reported(path)
    requires FitItems(items, k, path) && e <= |s|
    requires
      var close := if isArray then ']' as int else '}' as int;
      if |items| == 1 then Has(s, e, close)
      else StandsAt(s, e, SaidItems(items[1..], gap)) && Has(s, e + |SaidItems(items[1..], gap)|, close)
    ensures ItemsStand(s, isArray, js, e)
    ensures Skip(s, After(s, js, e)) == if |items| == 1 then e else e + |SaidItems(items[1..], gap)|
    ensures Told(s, ItemEvents(s, isArray, js, k + 1, ItemBase(isArray, path))) == CallsOf(items[1..], gap, k + 1, path)
    decreases items, 0
  {
    hide Said, SaidItems, Calls, Events, Stands, Fits, Ok, Under, StandsAt, Placed, KeyText;
    FirstFits(items, k, path);
    if |items| == 1 {
      js := [];
      assert items[1..] == [];
    } else {
      assert forall d | d in items[1..] :: d in items;
      js := ItemsRead(s, e, isArray, items[1..], gap, k + 1, path);
    }
  }

  /** The text behind the first item. */
  function Behind(items: seq<Doc>, gap: seq<byte>): seq<byte>
    requires items != []
  {
    if |items| == 1 then [] else [',' as int] + SaidItems(items[1..], gap)
  }

  /** Where the first item stands, and where the next one begins: behind a comma, or at the closing bracket. */
  lemma {:induction false} ItemBounds(s: seq<byte>, i: nat, isArray: bool, items: seq<Doc>, gap: seq<byte>)
    returns (e: nat)
    requires items != [] && Ok(items[0]) && Spaces(gap) && StandsAt(s, i, SaidItems(items, gap))
    requires Has(s, i + |SaidItems(items, gap)|, if isArray then ']' as int else '}' as int)
    ensures Skip(s, i) == i + |gap| && StandsAt(s, i + |gap|, Said(items[0], gap))
    ensures Ends(s, i + |gap| + |Said(items[0], gap)|) && i + |gap| + |Said(items[0], gap)| <= |s|
    ensures e == Comma(s, i + |gap| + |Said(items[0], gap)|)
    ensures i + |SaidItems(items, gap)| == if |items| == 1 then e else e + |SaidItems(items[1..], gap)|
    ensures |items| > 1 ==> StandsAt(s, e, SaidItems(items[1..], gap))
  {
    hide Said, Ok, SaidItems, Behind, StandsAt, Skip, Ends, Comma, Spaces;
    var v := Said(items[0], gap);
    SaidStarts(items[0], gap);
    ItemsSaid(items, gap);
    ItemFirst(s, i, gap, v, gap + Behind(items, gap));
    e := ItemNext(s, i + |gap| + |v|, isArray, items, gap);
  }

  lemma ItemsSaid(items: seq<Doc>, gap: seq<byte>)
    requires items != []
    ensures SaidItems(items, gap) == gap + (Said(items[0], gap) + (gap + Behind(items, gap)))
  {
    hide Said;
  }

  lemma ItemFirst(s: seq<byte>, i: nat, gap: seq<byte>, v: seq<byte>, rest: seq<byte>)
    requires Spaces(gap) && StandsAt(s, i, gap + (v + rest)) && v != []
    requires v[0] !in [0x20, 0x09, 0x0D, 0x0A, ',' as int, ']' as int, '}' as int]
    ensures Skip(s, i) == i + |gap| && StandsAt(s, i + |gap|, v) && StandsAt(s, i + |gap| + |v|, rest)
  {
    hide Spaces;
    Parts(s, i, gap, v + rest);
    Parts(s, i + |gap|, v, rest);
    FirstOf(s, i + |gap|, v);
    GapSkipped(s, i, gap);
  }

  lemma {:induction false} ItemNext(s: seq<byte>, at: nat, isArray: bool, items: seq<Doc>, gap: seq<byte>)
    returns (e: nat)
    requires items != [] && Spaces(gap) && StandsAt(s, at, gap + Behind(items, gap))
    requires Has(s, at + |gap + Behind(items, gap)|, if isArray then ']' as int else '}' as int)
    ensures at <= |s| && Ends(s, at) && e == Comma(s, at)
    ensures at + |gap + Behind(items, gap)| == if |items| == 1 then e else e + |SaidItems(items[1..], gap)|
    ensures |items| > 1 ==> StandsAt(s, e, SaidItems(items[1..], gap))
  {
    hide SaidItems, Spaces, Ends;
    if |items| == 1 {
      var close := s[at + |gap|];
      assert gap + Behind(items, gap) == gap;
      assert s[at..at + |gap| + 1] == s[at..at + |gap|] + [close] == gap + ([close] + []);
      GapThen(s, at, gap, close, []);
    } else {
      GapThen(s, at, gap, ',' as int, SaidItems(items[1..], gap));
    }
    e := Comma(s, at);
  }

  lemma {:induction false} ItemsJoin(s: seq<byte>, isArray: bool, j: Json, js: seq<Json>, i: nat, k: nat, base: Path)
    requires i <= |s| && Next(s, i, !isArray, j) && j.End() <= |s|
    requires ItemsStand(s, isArray, js, Comma(s, j.End()))
    ensures ItemsStand(s, isArray, [j] + js, i) && After(s, [j] + js, i) == After(s, js, Comma(s, j.End()))
    ensures Told(s, ItemEvents(s, isArray, [j] + js, k, base))
      == Told(s, Events(s, j, ItemPath(isArray, base, k))) + Told(s, ItemEvents(s, isArray, js, k + 1, base))
  {
    hide Stands, Events, Comma;
    assert ([j] + js)[1..] == js;
    ToldJoins(s, Events(s, j, ItemPath(isArray, base, k)), ItemEvents(s, isArray, js, k + 1, base));
  }

  /**
    Whatever document is written as a text, with any white space between its tokens and anything that ends a token
    behind it, `json_walk` reads all of it and tells exactly the document: every value once, in order, at its path, with
    the text it has.
   */
  lemma Documents(d: Doc, gap: seq<byte>, rest: seq<byte>) returns (j: Json)
    requires Ok(d) && !d.Member? && Spaces(gap) && Fits(d, []) && Ends(rest, 0)
    ensures
      var s := gap + Said(d, gap) + rest;
      && Next(s, 0, false, j) && j.End() == |gap| + |Said(d, gap)|
      && Told(s, Events(s, j, [])) == Calls(d, gap, [])
  {
    var s, v := gap + Said(d, gap) + rest, Said(d, gap);
    SaidStarts(d, gap);
    hide Said, Calls, Events, Ok, Fits;
    assert s[..|gap|] == gap && s[|gap|..|gap| + |v|] == v;
    assert s[|gap|] == v[0];
    GapSkipped(s, 0, gap);
    assert rest != [] ==> s[|gap| + |v|] == rest[0];
    j := Reads(s, |gap|, d, gap, [], []);
  }

  /** The walk of such a text. */
  method WalkDocument(d: Doc, gap: seq<byte>, rest: seq<byte>) returns (n: int, events: seq<Event>)
    requires Ok(d) && !d.Member? && Spaces(gap) && Fits(d, []) && Ends(rest, 0)
    ensures n == |gap| + |Said(d, gap)|
    ensures Told(gap + Said(d, gap) + rest, events) == Calls(d, gap, [])
  {
    ghost var j := Documents(d, gap, rest);
    n, events := Walk(gap + Said(d, gap) + rest);
  }
}
