/**
  The translation script: a hand-written scan over C source text that replaces string literals by their
  translations and copies everything else.
 */
module Rewriter {

  datatype Kind = StringLiteral | CharLiteral | LineComment | BlockComment | Directive | Plain

  datatype Token = Token(kind: Kind, text: string)

  // ---------------------------------------------------------------------------
  // Tokens
  // ---------------------------------------------------------------------------

  function Min(a: nat, b: nat): nat { if a < b then a else b }

  /** The closing `quote` at or behind `j`, skipping escaped characters; past the end if there is none. */
  function Close(s: string, j: nat, quote: char): (e: nat)
    ensures j <= e
    decreases |s| - j
  {
    if j >= |s| then j
    else if s[j] == '\\' then Close(s, j + 2, quote)
    else if s[j] == quote then j
    else Close(s, j + 1, quote)
  }

  function LineEnd(s: string, j: nat): (e: nat)
    requires j <= |s|
    ensures j <= e <= |s|
    decreases |s| - j
  {
    if j == |s| || s[j] == '\n' then j else LineEnd(s, j + 1)
  }

  /** Behind the first star and slash at or behind `j`, or the end of the text. */
  function BlockEnd(s: string, j: nat): (e: nat)
    requires j <= |s|
    ensures j <= e <= |s|
    decreases |s| - j
  {
    if j + 1 >= |s| then |s|
    else if s[j] == '*' && s[j + 1] == '/' then j + 2
    else BlockEnd(s, j + 1)
  }

  function KindOf(s: string): Kind
    requires s != []
  {
    if s[0] == '"' then StringLiteral
    else if s[0] == '\'' then CharLiteral
    else if s[0] == '/' && |s| > 1 && s[1] == '/' then LineComment
    else if s[0] == '/' && |s| > 1 && s[1] == '*' then BlockComment
    else if s[0] == '#' then Directive
    else Plain
  }

  /** The length of the first token. */
  function Length(s: string): (k: nat)
    requires s != []
    ensures 0 < k <= |s|
  {
    match KindOf(s)
    case StringLiteral => Min(Close(s, 1, '"') + 1, |s|)
    case CharLiteral => Min(Close(s, 1, '\'') + 1, |s|)
    case LineComment => LineEnd(s, 1)
    case BlockComment => BlockEnd(s, 2)
    case Directive => LineEnd(s, 1)
    case Plain => 1
  }

  function Lex(s: string): seq<Token> {
    if s == [] then [] else [Token(KindOf(s), s[..Length(s)])] + Lex(s[Length(s)..])
  }

  function Render(tokens: seq<Token>): string {
    if tokens == [] then [] else tokens[0].text + Render(tokens[1..])
  }

  /** The tokens of a text are the whole text. */
  lemma {:induction false} LexLossless(s: string)
    ensures Render(Lex(s)) == s
  {
    hide Length, KindOf;
    if s != [] {
      LexLossless(s[Length(s)..]);
      assert s[..Length(s)] + s[Length(s)..] == s;
    }
  }

  /** How many backslashes stand directly before `k`, none counted before `j`. */
  function Backslashes(s: string, j: nat, k: nat): nat
    requires k <= |s|
  {
    if k > j && s[k - 1] == '\\' then 1 + Backslashes(s, j, k - 1) else 0
  }

  lemma {:induction false} SameParity(s: string, j: nat, k: nat)
    requires j + 2 <= k <= |s| && s[j] == '\\'
    ensures Backslashes(s, j, k) % 2 == Backslashes(s, j + 2, k) % 2
    decreases k
  {
    if k > j + 2 {
      SameParity(s, j, k - 1);
    } else {
      assert Backslashes(s, j, j + 1) == 1 + Backslashes(s, j, j);
    }
  }

  lemma {:induction false} NoBackslash(s: string, j: nat, k: nat)
    requires j < k <= |s| && s[j] != '\\'
    ensures Backslashes(s, j, k) == Backslashes(s, j + 1, k)
    decreases k
  {
    if k > j + 1 { NoBackslash(s, j, k - 1); }
  }

  /** The closing quote is the first one with an even number of backslashes directly before it. */
  lemma {:induction false} CloseIsFirst(s: string, j: nat, quote: char)
    requires quote != '\\' && j <= |s|
    ensures
      var e := Close(s, j, quote);
      && (forall k | j <= k < Min(e, |s|) && s[k] == quote :: Backslashes(s, j, k) % 2 == 1)
      && (e < |s| ==> s[e] == quote && Backslashes(s, j, e) % 2 == 0)
    decreases |s| - j
  {
    var e := Close(s, j, quote);
    if j < |s| && s[j] == '\\' && j + 2 <= |s| {
      CloseIsFirst(s, j + 2, quote);
      if e < |s| { SameParity(s, j, e); }
      forall k | j <= k < Min(e, |s|) && s[k] == quote ensures Backslashes(s, j, k) % 2 == 1 {
        if k > j + 1 { SameParity(s, j, k); } else { assert Backslashes(s, j, j + 1) == 1 + Backslashes(s, j, j); }
      }
    } else if j < |s| && s[j] != '\\' && s[j] != quote {
      CloseIsFirst(s, j + 1, quote);
      if e < |s| { NoBackslash(s, j, e); }
      forall k | j <= k < Min(e, |s|) && s[k] == quote ensures Backslashes(s, j, k) % 2 == 1 { NoBackslash(s, j, k); }
    }
  }

  /** A literal: from a quote to the first one that no odd number of backslashes precedes, or to the end of the text. */
  ghost predicate IsQuoted(s: string, text: string, quote: char) {
    && 0 < |text| <= |s| && text == s[..|text|] && s[0] == quote
    && (forall k | 1 <= k < |text| - 1 && s[k] == quote :: Backslashes(s, 1, k) % 2 == 1)
    && (|text| == |s| || (|text| > 1 && s[|text| - 1] == quote && Backslashes(s, 1, |text| - 1) % 2 == 0))
  }

  /** The rest of a line, without its line feed. */
  ghost predicate IsLine(s: string, text: string) {
    text <= s && '\n' !in text && (text == s || s[|text|] == '\n')
  }

  /** A block comment: to the first star and slash behind its opening, or to the end of the text. */
  ghost predicate IsBlock(s: string, text: string) {
    && 2 <= |text| && text <= s
    && (forall k | 2 <= k < |text| - 2 :: !(s[k] == '*' && s[k + 1] == '/'))
    && (text == s || (|text| >= 4 && s[|text| - 2] == '*' && s[|text| - 1] == '/'))
  }

  /** What the first token of a text is, told by its first one or two characters. */
  lemma TokenShape(s: string)
    requires s != []
    ensures
      var t := Lex(s)[0];
      && Lex(s) == [t] + Lex(s[|t.text|..])
      && if s[0] == '"' then t.kind == StringLiteral && IsQuoted(s, t.text, '"')
         else if s[0] == '\'' then t.kind == CharLiteral && IsQuoted(s, t.text, '\'')
         else if "//" <= s then t.kind == LineComment && IsLine(s, t.text)
         else if "/*" <= s then t.kind == BlockComment && IsBlock(s, t.text)
         else if s[0] == '#' then t.kind == Directive && IsLine(s, t.text)
         else t == Token(Plain, [s[0]])
  {
    FirstToken(s);
    hide Lex, Close, LineEnd, BlockEnd, Backslashes, IsQuoted, IsLine, IsBlock;
    if s[0] == '"' || s[0] == '\'' {
      QuotedShape(s, s[0]);
    } else if "//" <= s || s[0] == '#' {
      LineShape(s);
    } else if "/*" <= s {
      BlockShape(s);
    }
  }

  lemma FirstToken(s: string)
    requires s != []
    ensures Lex(s)[0] == Token(KindOf(s), s[..Length(s)]) && Lex(s) == [Lex(s)[0]] + Lex(s[|Lex(s)[0].text|..])
  {
    hide KindOf, Length;
    assert Lex(s) == [Token(KindOf(s), s[..Length(s)])] + Lex(s[Length(s)..]);
  }

  lemma QuotedShape(s: string, quote: char)
    requires s != [] && s[0] == quote && (quote == '"' || quote == '\'')
    ensures IsQuoted(s, s[..Min(Close(s, 1, quote) + 1, |s|)], quote)
  {
    CloseIsFirst(s, 1, quote);
    hide Close, Backslashes;
  }

  lemma LineShape(s: string)
    requires s != [] && s[0] != '\n'
    ensures IsLine(s, s[..LineEnd(s, 1)])
  {
    LineIsFirst(s, 1);
    hide LineEnd;
  }

  lemma BlockShape(s: string)
    requires "/*" <= s
    ensures IsBlock(s, s[..BlockEnd(s, 2)])
  {
    BlockIsFirst(s, 2);
    hide BlockEnd;
  }

  lemma {:induction false} LineIsFirst(s: string, j: nat)
    requires j <= |s|
    ensures forall k | j <= k < LineEnd(s, j) :: s[k] != '\n'
    ensures LineEnd(s, j) < |s| ==> s[LineEnd(s, j)] == '\n'
    decreases |s| - j
  {
    if j < |s| && s[j] != '\n' { LineIsFirst(s, j + 1); }
  }

  lemma {:induction false} BlockIsFirst(s: string, j: nat)
    requires j <= |s|
    ensures
      var e := BlockEnd(s, j);
      && (forall k | j <= k < e - 2 :: !(s[k] == '*' && s[k + 1] == '/'))
      && (e < |s| ==> e >= j + 2 && s[e - 2] == '*' && s[e - 1] == '/')
    decreases |s| - j
  {
    if j + 1 < |s| && !(s[j] == '*' && s[j + 1] == '/') { BlockIsFirst(s, j + 1); }
  }

  // ---------------------------------------------------------------------------
  // Translation
  // ---------------------------------------------------------------------------

  const KEYWORDS: set<string> := {
    "auto", "break", "case", "char", "const", "continue", "default", "do", "double", "else", "enum", "extern",
    "float", "for", "goto", "if", "int", "long", "register", "return", "short", "signed", "sizeof", "static",
    "struct", "switch", "typedef", "union", "unsigned", "void", "volatile", "while", "true", "false", "NULL",
    "nullptr"
  }

  /** The dictionary, and the format specifiers a text contains. */
  datatype Dictionary = Dictionary(entries: map<string, string>, specifiers: string -> set<string>)

  /** What stands between the quotes; a literal that runs into the end of the text has no closing one. */
  function Inner(literal: string): string
    requires literal != []
  {
    literal[1..Min(Close(literal, 1, '"'), |literal|)]
  }

  predicate Translates(d: Dictionary, inner: string) {
    && inner in d.entries
    && var zh := d.entries[inner];
    zh != [] && zh != inner && inner !in KEYWORDS && |inner| >= 2 && d.specifiers(inner) == d.specifiers(zh)
  }

  /** Backslashes and quotes get a backslash in front. */
  function Escape(s: string): string {
    if s == [] then []
    else (if s[0] == '\\' || s[0] == '"' then ['\\', s[0]] else [s[0]]) + Escape(s[1..])
  }

  /** A backslash stands for the character behind it. */
  function Unescape(s: string): string {
    if s == [] then []
    else if s[0] == '\\' && |s| > 1 then [s[1]] + Unescape(s[2..])
    else [s[0]] + Unescape(s[1..])
  }

  lemma {:induction false} EscapeUndone(s: string)
    ensures Unescape(Escape(s)) == s
  {
    if s != [] {
      EscapeUndone(s[1..]);
      var e := Escape(s);
      if s[0] == '\\' || s[0] == '"' {
        assert e[2..] == Escape(s[1..]);
      } else {
        assert e[1..] == Escape(s[1..]);
      }
    }
  }

  predicate Replaces(d: Dictionary, t: Token) {
    t.kind == StringLiteral && t.text != [] && Translates(d, Inner(t.text))
  }

  function Quoted(zh: string): string { ['"'] + Escape(zh) + ['"'] }

  function Rewrite(d: Dictionary, t: Token): Token {
    if Replaces(d, t) then Token(StringLiteral, Quoted(d.entries[Inner(t.text)])) else t
  }

  function RewriteAll(d: Dictionary, tokens: seq<Token>): (r: seq<Token>)
    ensures |r| == |tokens|
  {
    if tokens == [] then [] else [Rewrite(d, tokens[0])] + RewriteAll(d, tokens[1..])
  }

  function Replaced(d: Dictionary, tokens: seq<Token>): nat {
    if tokens == [] then 0 else (if Replaces(d, tokens[0]) then 1 else 0) + Replaced(d, tokens[1..])
  }

  // ---------------------------------------------------------------------------
  // The rewritten text has the rewritten tokens
  // ---------------------------------------------------------------------------

  lemma {:induction false} ClosePrefix(s: string, t: string, j: nat, quote: char)
    requires Close(s, j, quote) < |s| && Close(s, j, quote) < |t|
    requires s[..Close(s, j, quote) + 1] == t[..Close(s, j, quote) + 1]
    ensures Close(t, j, quote) == Close(s, j, quote)
    decreases |s| - j
  {
    var e := Close(s, j, quote);
    assert s[j] == s[..e + 1][j] == t[..e + 1][j] == t[j];
    if s[j] == '\\' {
      ClosePrefix(s, t, j + 2, quote);
    } else if s[j] != quote {
      ClosePrefix(s, t, j + 1, quote);
    }
  }

  lemma {:induction false} LinePrefix(s: string, t: string, j: nat)
    requires j <= |s| && LineEnd(s, j) <= |t| && s[..LineEnd(s, j)] == t[..LineEnd(s, j)]
    requires LineEnd(s, j) == |t| || t[LineEnd(s, j)] == '\n'
    ensures LineEnd(t, j) == LineEnd(s, j)
    decreases |s| - j
  {
    var e := LineEnd(s, j);
    if j < e {
      assert s[j] == s[..e][j] == t[..e][j] == t[j];
      LinePrefix(s, t, j + 1);
    }
  }

  lemma {:induction false} BlockPrefix(s: string, t: string, j: nat)
    requires j <= |s| && BlockEnd(s, j) < |s| && BlockEnd(s, j) <= |t| && s[..BlockEnd(s, j)] == t[..BlockEnd(s, j)]
    ensures BlockEnd(t, j) == BlockEnd(s, j)
    decreases |s| - j
  {
    var e := BlockEnd(s, j);
    assert j + 2 <= e;
    assert s[j] == s[..e][j] == t[..e][j] == t[j];
    assert s[j + 1] == s[..e][j + 1] == t[..e][j + 1] == t[j + 1];
    if !(s[j] == '*' && s[j + 1] == '/') { BlockPrefix(s, t, j + 1); }
  }

  /** Scanning over escaped text stops at the quote behind it. */
  lemma {:induction false} CloseEscaped(before: string, zh: string, rest: string)
    ensures Close(before + Escape(zh) + ['"'] + rest, |before|, '"') == |before| + |Escape(zh)|
    decreases zh
  {
    var s := before + Escape(zh) + ['"'] + rest;
    if zh == [] {
      assert s[|before|] == '"';
    } else {
      var step := Escape(zh)[..|Escape(zh)| - |Escape(zh[1..])|];
      assert Escape(zh) == step + Escape(zh[1..]);
      CloseEscaped(before + step, zh[1..], rest);
      assert s == before + step + Escape(zh[1..]) + ['"'] + rest;
      assert s[|before|] == step[0];
    }
  }

  /** Two texts that start with the same token: `t` keeps the token of `s` and the first character behind it. */
  lemma SameToken(s: string, t: string)
    requires s != [] && Length(s) <= |t| && s[..Length(s)] == t[..Length(s)]
    requires Length(s) == |s| <==> Length(s) == |t|
    requires Length(s) < |s| ==> s[Length(s)] == t[Length(s)]
    ensures t != [] && KindOf(t) == KindOf(s) && Length(t) == Length(s)
  {
    var k := Length(s);
    if k == |s| {
      assert s == s[..k] == t[..k] == t;
    } else {
      assert s[0] == s[..k][0] == t[0];
      assert k > 1 ==> s[1] == s[..k][1] == t[..k][1] == t[1];
      match KindOf(s)
      case StringLiteral => ClosePrefix(s, t, 1, '"');
      case CharLiteral => ClosePrefix(s, t, 1, '\'');
      case LineComment => LineStops(s, 1); LinePrefix(s, t, 1);
      case BlockComment => BlockPrefix(s, t, 2);
      case Directive => LineStops(s, 1); LinePrefix(s, t, 1);
      case Plain =>
    }
  }

  lemma {:induction false} LineStops(s: string, j: nat)
    requires j <= |s| && LineEnd(s, j) < |s|
    ensures s[LineEnd(s, j)] == '\n'
    decreases |s| - j
  {
    if s[j] != '\n' { LineStops(s, j + 1); }
  }

  /** A translated literal is lexed as itself. */
  lemma TranslatedToken(zh: string, rest: string)
    ensures KindOf(Quoted(zh) + rest) == StringLiteral && Length(Quoted(zh) + rest) == |Quoted(zh)|
  {
    CloseEscaped(['"'], zh, rest);
    assert ['"'] + Escape(zh) + ['"'] + rest == Quoted(zh) + rest;
  }

  /** Rewriting keeps the first character of a text, and emptiness. */
  lemma FirstKept(d: Dictionary, s: string)
    ensures
      var t := Render(RewriteAll(d, Lex(s)));
      (t == [] <==> s == []) && (s != [] ==> t[0] == s[0])
  {
    if s != [] {
      var first := Lex(s)[0];
      assert first == Token(KindOf(s), s[..Length(s)]);
      assert Rewrite(d, first).text != [] && Rewrite(d, first).text[0] == s[0];
    }
  }

  /**
    Lexing the rewritten text gives the rewritten tokens: as many, of the same kinds, in the same order. It holds
    for every text, also for one whose last literal or comment is not closed.
   */
  lemma {:induction false} TokensKept(d: Dictionary, s: string)
    ensures Lex(Render(RewriteAll(d, Lex(s)))) == RewriteAll(d, Lex(s))
    decreases |s|
  {
    if s != [] {
      hide Length, KindOf, Rewrite;
      var k := Length(s);
      var rest := s[k..];
      TokensKept(d, rest);
      FirstKept(d, rest);
      var token, tail := Token(KindOf(s), s[..k]), Render(RewriteAll(d, Lex(rest)));
      var text := Rewrite(d, token).text + tail;
      assert Lex(s) == [token] + Lex(rest);
      RewriteCons(d, token, Lex(rest));
      HeadKept(d, s, tail);
      assert text[|Rewrite(d, token).text|..] == tail && text[..|Rewrite(d, token).text|] == Rewrite(d, token).text;
    }
  }

  lemma RewriteCons(d: Dictionary, token: Token, tokens: seq<Token>)
    ensures RewriteAll(d, [token] + tokens) == [Rewrite(d, token)] + RewriteAll(d, tokens)
    ensures Render(RewriteAll(d, [token] + tokens)) == Rewrite(d, token).text + Render(RewriteAll(d, tokens))
  {
    hide Rewrite;
    assert ([token] + tokens)[1..] == tokens;
    var r := [Rewrite(d, token)] + RewriteAll(d, tokens);
    assert r[1..] == RewriteAll(d, tokens);
  }

  lemma HeadKept(d: Dictionary, s: string, tail: string)
    requires s != []
    requires tail == [] <==> Length(s) == |s|
    requires tail != [] ==> tail[0] == s[Length(s)]
    ensures
      var r := Rewrite(d, Token(KindOf(s), s[..Length(s)]));
      var text := r.text + tail;
      text != [] && KindOf(text) == r.kind && Length(text) == |r.text|
  {
    hide Length, KindOf;
    var k := Length(s);
    var token := Token(KindOf(s), s[..k]);
    if Replaces(d, token) {
      TranslatedToken(d.entries[Inner(token.text)], tail);
    } else {
      var text := s[..k] + tail;
      assert text[..k] == s[..k];
      SameToken(s, text);
    }
  }

  /** What a token turns into: itself, or a literal that un-escapes to the dictionary's text for its inside. */
  lemma OnlyTranslations(d: Dictionary, s: string, i: nat)
    requires i < |Lex(s)|
    ensures
      var before, after := Lex(s)[i], RewriteAll(d, Lex(s))[i];
      && after.kind == before.kind
      && (after != before ==>
            && before.kind == StringLiteral && before.text != [] && Translates(d, Inner(before.text))
            && after.text != [] && Inner(after.text) == Escape(d.entries[Inner(before.text)])
            && Unescape(Inner(after.text)) == d.entries[Inner(before.text)])
  {
    hide Lex, Close;
    RewriteAt(d, Lex(s), i);
    var t := Lex(s)[i];
    if Replaces(d, t) {
      var zh := d.entries[Inner(t.text)];
      TranslatedInner(zh);
      EscapeUndone(zh);
    }
  }

  /** The inside of a literal is the literal without its quotes. */
  lemma InnerIs(s: string)
    requires s != [] && s[0] == '"'
    ensures
      var literal := Lex(s)[0].text;
      literal == ['"'] + Inner(literal) + ['"'] || (literal == s && s == ['"'] + Inner(s))
  {
    var e := Close(s, 1, '"');
    FirstToken(s);
    hide Lex;
    var literal := Lex(s)[0].text;
    assert literal == s[..Min(e + 1, |s|)];
    CloseIsFirst(s, 1, '"');
    if e < |s| { ClosePrefix(s, literal, 1, '"'); } else { assert literal == s; }
    hide Close, Backslashes;
  }

  /**
    A token to translate: a string literal for whose inside the dictionary has a different, non-empty text with the
    same format specifiers, the inside being no keyword and longer than a character.
   */
  predicate Due(d: Dictionary, t: Token) {
    && t.kind == StringLiteral && t.text != []
    && var inside := Inner(t.text);
       && inside in d.entries && d.entries[inside] != [] && d.entries[inside] != inside
       && inside !in KEYWORDS && |inside| >= 2
       && d.specifiers(inside) == d.specifiers(d.entries[inside])
  }

  /** `at` are the places of the tokens to translate, in order. */
  ghost predicate Places(d: Dictionary, tokens: seq<Token>, at: seq<nat>) {
    && (forall k | 0 <= k < |at| :: at[k] < |tokens|)
    && (forall j, k | 0 <= j < k < |at| :: at[j] < at[k])
    && (forall i | 0 <= i < |tokens| :: Due(d, tokens[i]) <==> i in at)
  }

  /**
    What the script promises of a file's text and the number it reports: the tokens stay as many, those to translate
    un-escape to the dictionary's text and are counted, and every other token is as it was.
   */
  ghost predicate Obeys(d: Dictionary, src: string, newSrc: string, count: nat) {
    var (before, after) := (Lex(src), Lex(newSrc));
    && |after| == |before| && (exists at :: Places(d, before, at) && |at| == count)
    && forall i | 0 <= i < |before| ::
         if Due(d, before[i]) then
           && after[i].kind == StringLiteral && after[i].text != []
           && Unescape(Inner(after[i].text)) == d.entries[Inner(before[i].text)]
         else after[i] == before[i]
  }

  lemma {:induction false} ReplacedLast(d: Dictionary, tokens: seq<Token>)
    requires tokens != []
    ensures
      var n := |tokens| - 1;
      Replaced(d, tokens) == Replaced(d, tokens[..n]) + if Replaces(d, tokens[n]) then 1 else 0
    decreases |tokens|
  {
    hide Replaces;
    var n := |tokens| - 1;
    if n > 0 {
      ReplacedLast(d, tokens[1..]);
      assert tokens[1..][..n - 1] == tokens[..n][1..];
    }
  }

  lemma {:induction false} ReplacedIsCount(d: Dictionary, tokens: seq<Token>) returns (at: seq<nat>)
    ensures Places(d, tokens, at) && |at| == Replaced(d, tokens)
    decreases |tokens|
  {
    if tokens == [] {
      at := [];
    } else {
      var n := |tokens| - 1;
      ReplacedLast(d, tokens);
      at := ReplacedIsCount(d, tokens[..n]);
      assert Due(d, tokens[n]) <==> Replaces(d, tokens[n]);
      hide Replaces, Due;
      forall i | 0 <= i < n ensures Due(d, tokens[i]) <==> i in at { assert tokens[..n][i] == tokens[i]; }
      if Due(d, tokens[n]) { at := at + [n]; }
    }
  }

  /** The rewriting does exactly what is promised. */
  lemma {:induction false} RewritingObeys(d: Dictionary, src: string, newSrc: string)
    requires Lex(newSrc) == RewriteAll(d, Lex(src))
    ensures Obeys(d, src, newSrc, Replaced(d, Lex(src)))
  {
    hide Lex, Inner, Unescape;
    var before, after := Lex(src), Lex(newSrc);
    var at := ReplacedIsCount(d, before);
    forall i | 0 <= i < |before|
      ensures
        if Due(d, before[i]) then
          && after[i].kind == StringLiteral && after[i].text != []
          && Unescape(Inner(after[i].text)) == d.entries[Inner(before[i].text)]
        else after[i] == before[i]
    {
      RewriteAt(d, before, i);
      if Replaces(d, before[i]) {
        var zh := d.entries[Inner(before[i].text)];
        TranslatedInner(zh);
        EscapeUndone(zh);
      }
    }
  }

  lemma TranslatedInner(zh: string)
    ensures Inner(Quoted(zh)) == Escape(zh)
  {
    CloseEscaped(['"'], zh, []);
    assert ['"'] + Escape(zh) + ['"'] + [] == Quoted(zh);
  }

  lemma {:induction false} RewriteAt(d: Dictionary, tokens: seq<Token>, i: nat)
    requires i < |tokens|
    ensures RewriteAll(d, tokens)[i] == Rewrite(d, tokens[i])
  {
    hide Rewrite;
    if i > 0 { RewriteAt(d, tokens[1..], i - 1); }
  }

  /** Nothing replaced, nothing changed. */
  lemma {:induction false} NoneReplaced(d: Dictionary, tokens: seq<Token>)
    requires Replaced(d, tokens) == 0
    ensures RewriteAll(d, tokens) == tokens
  {
    hide Replaces;
    if tokens != [] { NoneReplaced(d, tokens[1..]); }
  }

  // ---------------------------------------------------------------------------
  // The scan itself
  // ---------------------------------------------------------------------------

  /** `s[a:b]` as Python slices: bounds past the end are the end. */
  function Slice(s: string, a: nat, b: nat): string
    requires a <= b
  {
    s[Min(a, |s|)..Min(b, |s|)]
  }

  lemma SliceNone(s: string, a: nat)
    ensures Slice(s, a, a) == []
  {
  }

  lemma SliceGrows(s: string, a: nat, j: nat, k: nat)
    requires a <= j <= k && j <= |s|
    ensures Slice(s, a, k) == Slice(s, a, j) + Slice(s, j, k)
    ensures j < |s| ==> Slice(s, j, j + 1) == [s[j]]
  {
  }

  function Join(parts: seq<string>): string { if parts == [] then [] else Join(parts[..|parts| - 1]) + parts[|parts| - 1] }

  lemma {:induction false} CloseShift(s: string, i: nat, j: nat, quote: char)
    requires i <= |s|
    ensures Close(s[i..], j, quote) + i == Close(s, i + j, quote)
    decreases |s| - i - j
  {
    if i + j < |s| {
      if s[i + j] == '\\' {
        CloseShift(s, i, j + 2, quote);
      } else if s[i + j] != quote {
        CloseShift(s, i, j + 1, quote);
      }
    }
  }

  lemma {:induction false} LineShift(s: string, i: nat, j: nat)
    requires i + j <= |s|
    ensures LineEnd(s[i..], j) + i == LineEnd(s, i + j)
    decreases |s| - i - j
  {
    if i + j < |s| && s[i + j] != '\n' { LineShift(s, i, j + 1); }
  }

  lemma {:induction false} BlockShift(s: string, i: nat, j: nat)
    requires i + j <= |s|
    ensures BlockEnd(s[i..], j) + i == BlockEnd(s, i + j)
    decreases |s| - i - j
  {
    if i + j + 1 < |s| && !(s[i + j] == '*' && s[i + j + 1] == '/') { BlockShift(s, i, j + 1); }
  }

  /** The inside of the literal that opens at `i`, collected piece by piece, and where it closes. */
  method ScanLiteral(src: string, i: nat) returns (inner: string, close: nat)
    requires i < |src|
    ensures close == Close(src, i + 1, '"') && inner == Slice(src, i + 1, close)
  {
    hide Slice;
    assert Slice(src, i + 1, i + 1) == [] by { SliceNone(src, i + 1); }
    var j := i + 1;
    var literal: seq<string> := [];
    while j < |src|
      invariant i < j && Close(src, j, '"') == Close(src, i + 1, '"')
      invariant Join(literal) == Slice(src, i + 1, j)
    {
      ghost var before := literal;
      if src[j] == '\\' {
        literal := literal + [Slice(src, j, j + 2)];
        SliceGrows(src, i + 1, j, j + 2);
        assert literal[..|before|] == before;
        j := j + 2;
        continue;
      }
      if src[j] == '"' { break; }
      literal := literal + [[src[j]]];
      SliceGrows(src, i + 1, j, j + 1);
      assert literal[..|before|] == before;
      j := j + 1;
    }
    return Join(literal), j;
  }

  method ScanChar(src: string, i: nat) returns (j: nat)
    requires i < |src|
    ensures j == Close(src, i + 1, '\'')
  {
    j := i + 1;
    while j < |src|
      invariant i < j && Close(src, j, '\'') == Close(src, i + 1, '\'')
    {
      if src[j] == '\\' {
        j := j + 2;
        continue;
      }
      if src[j] == '\'' { break; }
      j := j + 1;
    }
  }

  /** To the end of the line; the first character is not a line feed. */
  method ScanLine(src: string, i: nat) returns (j: nat)
    requires i < |src| && src[i] != '\n'
    ensures j == LineEnd(src, i + 1)
  {
    j := i;
    while j < |src| && src[j] != '\n'
      invariant i <= j <= |src| && LineEnd(src, j) == LineEnd(src, i + 1)
    {
      j := j + 1;
    }
  }

  /** The token of `src` at `i`. */
  function TokenAt(src: string, i: nat): Token
    requires i < |src|
  {
    Token(KindOf(src[i..]), src[i..][..Length(src[i..])])
  }

  /** One turn of the main loop: the text to append, where to go on, and whether a literal was translated. */
  method NextPiece(src: string, d: Dictionary, i: nat) returns (piece: string, next: nat, translated: bool)
    requires i < |src|
    ensures piece == Rewrite(d, TokenAt(src, i)).text && Min(next, |src|) == i + |TokenAt(src, i).text|
    ensures translated <==> Replaces(d, TokenAt(src, i))
  {
    hide Rewrite, Replaces, Inner;
    ghost var t := TokenAt(src, i);
    var ch := src[i];
    translated := false;
    if ch == '"' {
      piece, next, translated := LiteralPiece(src, d, i);
    } else {
      NotLiteral(d, t);
      hide TokenAt;
      Whole(src, i);
      if ch == '\'' {
        var j := ScanChar(src, i);
        CloseShift(src, i, 1, '\'');
        next := j + 1;
        piece := Slice(src, i, next);
      } else if ch == '/' && i + 1 < |src| && src[i + 1] == '/' {
        next := ScanLine(src, i);
        LineShift(src, i, 1);
        piece := Slice(src, i, next);
      } else if ch == '/' && i + 1 < |src| && src[i + 1] == '*' {
        next := BlockEnd(src, i + 2);
        BlockShift(src, i, 2);
        piece := Slice(src, i, next);
      } else if ch == '#' {
        next := ScanLine(src, i);
        LineShift(src, i, 1);
        piece := Slice(src, i, next);
      } else {
        next := i + 1;
        piece := [ch];
      }
    }
  }

  lemma Whole(src: string, i: nat)
    requires i < |src|
    ensures
      var t := TokenAt(src, i);
      t.kind == KindOf(src[i..]) && |t.text| == Length(src[i..]) && t.text == Slice(src, i, i + |t.text|)
  {
    hide KindOf, Length;
  }

  lemma NotLiteral(d: Dictionary, t: Token)
    requires t.kind != StringLiteral
    ensures Rewrite(d, t) == t && !Replaces(d, t)
  {
  }

  method LiteralPiece(src: string, d: Dictionary, i: nat) returns (piece: string, next: nat, translated: bool)
    requires i < |src| && src[i] == '"'
    ensures piece == Rewrite(d, TokenAt(src, i)).text && Min(next, |src|) == i + |TokenAt(src, i).text|
    ensures translated <==> Replaces(d, TokenAt(src, i))
  {
    ghost var t := TokenAt(src, i);
    var inner, close := ScanLiteral(src, i);
    CloseShift(src, i, 1, '"');
    InnerAt(src, i, close);
    hide Inner, Close, Length;
    translated := false;
    if inner in d.entries {
      var zh := d.entries[inner];
      if zh != [] && zh != inner && inner !in KEYWORDS && |inner| >= 2 {
        if d.specifiers(inner) == d.specifiers(zh) {
          return ['"'] + Escape(zh) + ['"'], close + 1, true;
        }
      }
    }
    piece, next := Slice(src, i, close + 1), close + 1;
  }

  lemma InnerAt(src: string, i: nat, close: nat)
    requires i < |src| && src[i] == '"' && close == Close(src, i + 1, '"')
    ensures TokenAt(src, i).kind == StringLiteral && TokenAt(src, i).text == Slice(src, i, close + 1) != []
    ensures Inner(TokenAt(src, i).text) == Slice(src, i + 1, close)
  {
    var s, t := src[i..], TokenAt(src, i).text;
    CloseShift(src, i, 1, '"');
    assert t == src[i..Min(close + 1, |src|)];
    if close < |src| {
      ClosePrefix(s, t, 1, '"');
      SubSlice(src, i, close + 1, close - i);
    } else {
      assert t == s;
      SubSlice(src, i, |src|, |t|);
    }
  }

  lemma SubSlice(s: string, i: nat, e: nat, m: nat)
    requires 1 <= m && i + m <= e <= |s|
    ensures s[i..e][1..m] == s[i + 1..i + m]
  {
    var t := s[i..e];
    forall k | 0 <= k < m - 1 ensures t[1..m][k] == s[i + 1..i + m][k] { assert t[1 + k] == s[i + (1 + k)]; }
  }

  lemma Regroup(a: string, b: string, c: string)
    ensures a + (b + c) == a + b + c
  {
  }

  /** `apply_c_file` on the text of a file: the new text and the number of replacements. */
  method ApplyCFile(src: string, d: Dictionary) returns (newSrc: string, count: nat)
    ensures newSrc == Render(RewriteAll(d, Lex(src))) && count == Replaced(d, Lex(src))
    ensures Obeys(d, src, newSrc, count)
  {
    hide Rewrite, Replaces, KindOf, Length;
    var result: seq<string> := [];
    var i := 0;
    count := 0;
    assert src[0..] == src;
    while i < |src|
      invariant Join(result) + Render(RewriteAll(d, Lex(src[Min(i, |src|)..]))) == Render(RewriteAll(d, Lex(src)))
      invariant count + Replaced(d, Lex(src[Min(i, |src|)..])) == Replaced(d, Lex(src))
      decreases |src| - i
    {
      var piece, next, translated := NextPiece(src, d, i);
      LexAt(d, src, i);
      ghost var before := result;
      result := result + [piece];
      assert result[..|before|] == before;
      Regroup(Join(before), piece, Render(RewriteAll(d, Lex(src[Min(next, |src|)..]))));
      if translated { count := count + 1; }
      i := next;
    }
    newSrc := Join(result);
    assert newSrc + [] == newSrc && Lex([]) == [];
    TokensKept(d, src);
    RewritingObeys(d, src, newSrc);
  }

  lemma LexAt(d: Dictionary, src: string, i: nat)
    requires i < |src|
    ensures
      var t := TokenAt(src, i);
      var rest := Lex(src[i + |t.text|..]);
      && Render(RewriteAll(d, Lex(src[i..]))) == Rewrite(d, t).text + Render(RewriteAll(d, rest))
      && Replaced(d, Lex(src[i..])) == (if Replaces(d, t) then 1 else 0) + Replaced(d, rest)
  {
    hide Rewrite, Replaces, KindOf, Length;
    var t := TokenAt(src, i);
    var rest := Lex(src[i + |t.text|..]);
    assert src[i..][|t.text|..] == src[i + |t.text|..];
    RewriteCons(d, t, rest);
    assert Lex(src[i..]) == [t] + rest && ([t] + rest)[1..] == rest;
  }

  /** What is left in the file: it is written only if something was replaced, which changes nothing else. */
  method Update(src: string, d: Dictionary) returns (file: string, count: nat)
    ensures Lex(file) == RewriteAll(d, Lex(src)) && count == Replaced(d, Lex(src))
    ensures Obeys(d, src, file, count)
  {
    var newSrc;
    newSrc, count := ApplyCFile(src, d);
    file := if count > 0 then newSrc else src;
    TokensKept(d, src);
    if count == 0 { NoneReplaced(d, Lex(src)); }
    RewritingObeys(d, src, file);
  }
}
