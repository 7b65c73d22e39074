/**
  The JSON walker: a recursive descent over the text that reports tokens with the path at which they stand.
 */
module Frozen {
  import opened Bits

  const INVALID := -1
  const INCOMPLETE := -2
  const END_OF_STRING := -1
  const MAX_PATH_LEN := 256

  predicate IsCode(code: int) { code == 0 || code == INVALID || code == INCOMPLETE }

  datatype Kind = String | Number | True | False | Null | ObjectStart | ObjectEnd | ArrayStart | ArrayEnd

  /** The text of a token: none for an opening bracket. */
  datatype Value = NoValue | Slice(from: nat, to: nat)

  /** One call of the callback. */
  datatype Event = Event(kind: Kind, path: seq<byte>, value: Value)

  // ---------------------------------------------------------------------------
  // Tokens
  // ---------------------------------------------------------------------------

  predicate IsAlpha(ch: int) { 'a' as int <= ch <= 'z' as int || 'A' as int <= ch <= 'Z' as int }

  predicate IsDigit(ch: int) { '0' as int <= ch <= '9' as int }

  predicate IsHexDigit(ch: int) { IsDigit(ch) || 'a' as int <= ch <= 'f' as int || 'A' as int <= ch <= 'F' as int }

  predicate IsNameChar(ch: int) { ch == '_' as int || IsAlpha(ch) || IsDigit(ch) }

  predicate IsSpace(ch: int) { ch == 0x20 || ch == 0x09 || ch == 0x0D || ch == 0x0A }

  const NULL_TEXT: seq<byte> := [0x6E, 0x75, 0x6C, 0x6C]
  const TRUE_TEXT: seq<byte> := [0x74, 0x72, 0x75, 0x65]
  const FALSE_TEXT: seq<byte> := [0x66, 0x61, 0x6C, 0x73, 0x65]

  /** `s` has the code `ch` at `i`. */
  predicate Has(s: seq<byte>, i: int, ch: int) { 0 <= i < |s| && s[i] == ch }

  /** Past white space. */
  function Skip(s: seq<byte>, i: nat): (e: nat)
    requires i <= |s|
    ensures i <= e <= |s| && (e < |s| ==> !IsSpace(s[e]))
    decreases |s| - i
  {
    if i < |s| && IsSpace(s[i]) then Skip(s, i + 1) else i
  }

  /** Past all digits. */
  function DigitsEnd(s: seq<byte>, i: nat, hex: bool): (e: nat)
    requires i <= |s|
    ensures i <= e <= |s|
    decreases |s| - i
  {
    if i < |s| && (if hex then IsHexDigit(s[i]) else IsDigit(s[i])) then DigitsEnd(s, i + 1, hex) else i
  }

  datatype End = NoEnd | EndsAt(at: nat)

  /** At least one digit, and all there are. */
  function Digits(s: seq<byte>, i: nat, hex: bool): (e: End)
    requires i <= |s|
    ensures e.EndsAt? ==> i < e.at <= |s|
  {
    if DigitsEnd(s, i, hex) == i then NoEnd else EndsAt(DigitsEnd(s, i, hex))
  }

  /** An optional dot with digits behind it. */
  function Fraction(s: seq<byte>, i: nat): (e: End)
    requires i <= |s|
    ensures e.EndsAt? ==> i <= e.at <= |s|
  {
    if Has(s, i, '.' as int) then Digits(s, i + 1, false) else EndsAt(i)
  }

  /** An optional exponent: `e` or `E`, an optional sign, digits. */
  function Exponent(s: seq<byte>, i: nat): (e: End)
    requires i <= |s|
    ensures e.EndsAt? ==> i <= e.at <= |s|
  {
    if Has(s, i, 'e' as int) || Has(s, i, 'E' as int) then
      Digits(s, if Has(s, i + 1, '+' as int) || Has(s, i + 1, '-' as int) then i + 2 else i + 1, false)
    else EndsAt(i)
  }

  /** A number: an optional `-`, then `0x` and hexadecimal digits, or digits, fraction and exponent. */
  function NumberEnd(s: seq<byte>, i: nat): (e: End)
    requires i <= |s|
    ensures e.EndsAt? ==> i < e.at <= |s|
  {
    var u := if Has(s, i, '-' as int) then i + 1 else i;
    if Has(s, u, '0' as int) && Has(s, u + 1, 'x' as int) then Digits(s, u + 2, true)
    else match Digits(s, u, false)
      case NoEnd => NoEnd
      case EndsAt(a) => match Fraction(s, a) case NoEnd => NoEnd case EndsAt(b) => Exponent(s, b)
  }

  /** An identifier: a letter and all letters, digits and underscores behind it. */
  function NameEnd(s: seq<byte>, i: nat): (e: nat)
    requires i <= |s|
    ensures i <= e <= |s|
    decreases |s| - i
  {
    if i < |s| && IsNameChar(s[i]) then NameEnd(s, i + 1) else i
  }

  /** The code at `i`; behind the end of the text the source reads whatever follows, here it is a zero. */
  function At(s: seq<byte>, i: nat): int { if i < |s| then s[i] else 0 }

  /** `json_get_escape_len`: how many characters belong to the escape that starts at `i`, or an error. */
  function EscapeLen(s: seq<byte>, i: nat, left: nat): (n: int)
    ensures n > 0 ==> n < left
    ensures n <= 0 ==> n == INVALID || n == INCOMPLETE
  {
    var ch := At(s, i);
    if ch == 'u' as int then
      if left < 6 then INCOMPLETE
      else if IsHexDigit(At(s, i + 1)) && IsHexDigit(At(s, i + 2)) && IsHexDigit(At(s, i + 3)) && IsHexDigit(At(s, i + 4))
      then 5 else INVALID
    else if ch == '"' as int || ch == '\\' as int || ch == '/' as int || ch == 'b' as int || ch == 'f' as int
            || ch == 'n' as int || ch == 'r' as int || ch == 't' as int then
      if left < 2 then INCOMPLETE else 1
    else INVALID
  }

  function Utf8Len(ch: byte): (n: nat)
    ensures 0 < n <= 4
  {
    if ch < 0x80 then 1 else if ch >= 0xF0 then 4 else if ch >= 0xE0 then 3 else 2
  }

  /** The length of the character of a string at `i`: an escape, or as its first byte says; 0 if it is none. */
  function CharLen(s: seq<byte>, i: nat): (n: nat)
    requires i < |s|
    ensures i + n <= |s|
  {
    var len, left := Utf8Len(s[i]), |s| - i;
    if s[i] < 32 || len > left then 0
    else if s[i] == '\\' as int then
      if EscapeLen(s, i + 1, left) > 0 then 1 + EscapeLen(s, i + 1, left) else 0
    else len
  }

  /** From `i` to the closing quote at `to` there are only characters of a string, none of them a quote. */
  predicate StringBody(s: seq<byte>, i: nat, to: nat)
    requires i <= |s|
    decreases |s| - i
  {
    i < |s|
    && if s[i] == '"' as int then to == i else CharLen(s, i) > 0 && StringBody(s, i + CharLen(s, i), to)
  }

  /** `s[from..to]` stands between its quotes. */
  predicate Quoted(s: seq<byte>, from: nat, to: nat) {
    0 < from <= to < |s| && s[from - 1] == '"' as int && StringBody(s, from, to)
  }

  predicate Name(s: seq<byte>, from: nat, to: nat) { from < |s| && IsAlpha(s[from]) && to == NameEnd(s, from) }

  /** `s[from..to]` is a token of the given kind. */
  predicate Token(s: seq<byte>, kind: Kind, from: nat, to: nat) {
    match kind
    case String => Quoted(s, from, to)
    case Number => from <= |s| && NumberEnd(s, from) == EndsAt(to)
    case True => from <= to <= |s| && s[from..to] == TRUE_TEXT
    case False => from <= to <= |s| && s[from..to] == FALSE_TEXT
    case Null => from <= to <= |s| && s[from..to] == NULL_TEXT
    case _ => false
  }

  // ---------------------------------------------------------------------------
  // The grammar
  // ---------------------------------------------------------------------------

  /**
    What a text says: a token; a group of items from its opening to its closing bracket; or, as an item of an object
    only, a key, quoted or not, with its value.
   */
  datatype Json =
    | Leaf(kind: Kind, from: nat, to: nat)
    | Group(isArray: bool, from: nat, to: nat, items: seq<Json>)
    | Pair(quoted: bool, from: nat, to: nat, value: Json)
  {
    function Begin(): int { if (Leaf? && kind == String) || (Pair? && quoted) then from - 1 else from }

    function End(): nat { if Pair? then value.End() else if Leaf? && kind == String then to + 1 else to }
  }

  /** Past white space and at most one comma. */
  function Comma(s: seq<byte>, i: nat): (e: nat)
    requires i <= |s|
    ensures i <= e <= |s|
  {
    if Has(s, Skip(s, i), ',' as int) then Skip(s, i) + 1 else Skip(s, i)
  }

  /** The text at `j.Begin()` is `j`. */
  predicate Stands(s: seq<byte>, j: Json)
    decreases j, 0
  {
    match j
    case Leaf(kind, from, to) => Token(s, kind, from, to)
    case Group(isArray, from, to, items) =>
      && Has(s, from, if isArray then '[' as int else '{' as int)
      && ItemsStand(s, isArray, items, from + 1)
      && to == Skip(s, After(s, items, from + 1)) + 1
      && Has(s, to - 1, if isArray then ']' as int else '}' as int)
    case Pair(quoted, from, to, value) =>
      && (if quoted then Quoted(s, from, to) else Name(s, from, to))
      && var colon := Skip(s, if quoted then to + 1 else to);
      && Has(s, colon, ':' as int) && Next(s, colon + 1, false, value)
  }

  /** A value, or a key with its value, stands behind white space from `i` on. */
  predicate Next(s: seq<byte>, i: nat, pair: bool, j: Json)
    requires i <= |s|
    decreases j, 1
  {
    j.Pair? == pair && j.Begin() == Skip(s, i) && Stands(s, j)
  }

  /** The items of a group stand one behind the other from `i` on, at most one comma behind each. */
  predicate ItemsStand(s: seq<byte>, isArray: bool, items: seq<Json>, i: nat)
    decreases items, 0
  {
    items == []
    || (i <= |s| && Next(s, i, !isArray, items[0]) && items[0].End() <= |s|
        && ItemsStand(s, isArray, items[1..], Comma(s, items[0].End())))
  }

  /** Where the items end. */
  function After(s: seq<byte>, items: seq<Json>, i: nat): (e: nat)
    requires i <= |s|
    ensures e <= |s|
  {
    if items == [] then i
    else if items[0].End() > |s| then |s|
    else After(s, items[1..], Comma(s, items[0].End()))
  }

  /** A text that stands takes at least a character, and lies in `s`. */
  lemma {:induction false} Inside(s: seq<byte>, j: Json)
    requires Stands(s, j)
    ensures 0 <= j.Begin() < j.End() <= |s|
    decreases j
  {
    hide NumberEnd, StringBody, NameEnd;
    match j
    case Leaf(_, _, _) =>
    case Group(_, from, _, items) => AfterForward(s, j.isArray, items, from + 1);
    case Pair(_, _, _, value) => Inside(s, value);
  }

  lemma {:induction false} AfterForward(s: seq<byte>, isArray: bool, items: seq<Json>, i: nat)
    requires i <= |s| && ItemsStand(s, isArray, items, i)
    ensures i <= After(s, items, i)
    decreases items
  {
    if items != [] {
      Inside(s, items[0]);
      AfterForward(s, isArray, items[1..], Comma(s, items[0].End()));
    }
  }

  // ---------------------------------------------------------------------------
  // The text says one thing only
  // ---------------------------------------------------------------------------

  lemma {:induction false} OneBody(s: seq<byte>, i: nat, a: nat, b: nat)
    requires i <= |s| && StringBody(s, i, a) && StringBody(s, i, b)
    ensures a == b
    decreases |s| - i
  {
    hide CharLen;
    if s[i] != '"' as int { OneBody(s, i + CharLen(s, i), a, b); }
  }

  lemma NumberStarts(s: seq<byte>, i: nat)
    requires i <= |s| && NumberEnd(s, i).EndsAt?
    ensures i < |s| && (s[i] == '-' as int || IsDigit(s[i]))
  {
  }

  /** The first character tells what a value is. */
  predicate First(j: Json, ch: int) {
    match j
    case Leaf(String, _, _) => ch == '"' as int
    case Leaf(Number, _, _) => ch == '-' as int || IsDigit(ch)
    case Leaf(True, _, _) => ch == 't' as int
    case Leaf(False, _, _) => ch == 'f' as int
    case Leaf(Null, _, _) => ch == 'n' as int
    case Leaf(_, _, _) => false
    case Group(isArray, _, _, _) => ch == if isArray then '[' as int else '{' as int
    case Pair(quoted, _, _, _) => if quoted then ch == '"' as int else IsAlpha(ch)
  }

  lemma FirstIs(s: seq<byte>, j: Json)
    requires Stands(s, j)
    ensures 0 <= j.Begin() < |s| && First(j, s[j.Begin()])
  {
    Inside(s, j);
    match j
    case Leaf(Number, from, _) => NumberStarts(s, from);
    case Leaf(True, from, to) => assert s[from] == s[from..to][0];
    case Leaf(False, from, to) => assert s[from] == s[from..to][0];
    case Leaf(Null, from, to) => assert s[from] == s[from..to][0];
    case _ =>
  }

  lemma OneLeaf(s: seq<byte>, v: Json, w: Json)
    requires v.Leaf? && w.Leaf? && v.Begin() == w.Begin() && Stands(s, v) && Stands(s, w)
    ensures v == w
  {
    FirstIs(s, v);
    FirstIs(s, w);
    assert v.kind == w.kind;
    hide NumberEnd, StringBody;
    match v.kind
    case String => OneBody(s, v.from, v.to, w.to);
    case True => assert |s[v.from..v.to]| == |s[w.from..w.to]|;
    case False => assert |s[v.from..v.to]| == |s[w.from..w.to]|;
    case Null => assert |s[v.from..v.to]| == |s[w.from..w.to]|;
    case _ =>
  }

  /** At most one text stands at a place. */
  lemma {:induction false} OneText(s: seq<byte>, v: Json, w: Json)
    requires v.Begin() == w.Begin() && v.Pair? == w.Pair? && Stands(s, v) && Stands(s, w)
    ensures v == w
    decreases v
  {
    FirstIs(s, v);
    FirstIs(s, w);
    hide NumberEnd, StringBody, NameEnd;
    match v
    case Leaf(_, _, _) => OneLeaf(s, v, w);
    case Group(isArray, from, _, items) =>
      assert w.Group? && w.isArray == isArray;
      OneList(s, isArray, items, w.items, from + 1);
    case Pair(quoted, from, to, value) =>
      assert quoted == w.quoted;
      if quoted { OneBody(s, from, to, w.to); }
      OneText(s, value, w.value);
  }

  /** The bracket that closes a group. */
  predicate Closes(s: seq<byte>, isArray: bool, items: seq<Json>, i: nat)
    requires i <= |s|
  {
    Has(s, Skip(s, After(s, items, i)), if isArray then ']' as int else '}' as int)
  }

  lemma NoItemCloses(s: seq<byte>, isArray: bool, i: nat, j: Json)
    requires i <= |s| && Next(s, i, !isArray, j)
    ensures !Has(s, Skip(s, i), if isArray then ']' as int else '}' as int)
  {
    FirstIs(s, j);
  }

  /** Two lists of items from the same place that are both followed by the closing bracket are the same. */
  lemma {:induction false} OneList(s: seq<byte>, isArray: bool, a: seq<Json>, b: seq<Json>, i: nat)
    requires i <= |s| && ItemsStand(s, isArray, a, i) && ItemsStand(s, isArray, b, i)
    requires Closes(s, isArray, a, i) && Closes(s, isArray, b, i)
    ensures a == b
    decreases a
  {
    hide Stands;
    if a == [] && b != [] {
      NoItemCloses(s, isArray, i, b[0]);
    } else if a != [] && b == [] {
      NoItemCloses(s, isArray, i, a[0]);
    } else if a != [] {
      OneText(s, a[0], b[0]);
      OneList(s, isArray, a[1..], b[1..], Comma(s, a[0].End()));
      assert a == [a[0]] + a[1..] && b == [b[0]] + b[1..];
    }
  }

  // ---------------------------------------------------------------------------
  // Lists of items as the loops build them
  // ---------------------------------------------------------------------------

  /** One more item. */
  lemma {:induction false} OneMoreItem(s: seq<byte>, isArray: bool, items: seq<Json>, i: nat, j: Json)
    requires i <= |s| && ItemsStand(s, isArray, items, i)
    requires Next(s, After(s, items, i), !isArray, j)
    ensures j.End() <= |s| && ItemsStand(s, isArray, items + [j], i)
    ensures After(s, items + [j], i) == Comma(s, j.End())
    decreases items
  {
    Inside(s, j);
    hide Stands;
    if items == [] {
      assert items + [j] == [j] && [j][1..] == [];
    } else {
      OneMoreItem(s, isArray, items[1..], Comma(s, items[0].End()), j);
      assert (items + [j])[1..] == items[1..] + [j];
    }
  }

  /**
    Any complete list goes on where a list built so far ends: there either the bracket closes it, or its next item
    stands.
   */
  lemma {:induction false} GoesOn(s: seq<byte>, isArray: bool, items: seq<Json>, all: seq<Json>, i: nat)
    requires i <= |s| && ItemsStand(s, isArray, items, i)
    requires ItemsStand(s, isArray, all, i) && Closes(s, isArray, all, i)
    ensures |items| <= |all|
    ensures
      var at := After(s, items, i);
      if |items| == |all| then Has(s, Skip(s, at), if isArray then ']' as int else '}' as int)
      else Next(s, at, !isArray, all[|items|])
    decreases items
  {
    hide Stands;
    if items != [] {
      if all == [] {
        NoItemCloses(s, isArray, i, items[0]);
      } else {
        OneText(s, items[0], all[0]);
        GoesOn(s, isArray, items[1..], all[1..], Comma(s, items[0].End()));
      }
    }
  }

  // ---------------------------------------------------------------------------
  // What is reported
  // ---------------------------------------------------------------------------

  /** A path holds at most 255 characters. */
  type Path = p: seq<byte> | |p| < MAX_PATH_LEN

  /** A path and as much of `str` as it has room for. */
  function Append(path: Path, str: seq<byte>): (r: Path)
    ensures path <= r
  {
    path + str[..if |path| + |str| < MAX_PATH_LEN then |str| else MAX_PATH_LEN - 1 - |path|]
  }

  /** The decimal digits of an array index. */
  function Decimal(n: nat): seq<byte> { (if n < 10 then [] else Decimal(n / 10)) + [('0' as int) + n % 10] }

  function IndexText(i: nat): seq<byte> { ['[' as int] + Decimal(i) + [']' as int] }

  /** Nothing is reported at a path that ends in a dot. */
  predicate Reported(path: seq<byte>) { path == [] || path[|path| - 1] != '.' as int }

  function Report(kind: Kind, path: seq<byte>, value: Value): seq<Event> {
    if Reported(path) then [Event(kind, path, value)] else []
  }

  /** The path of the items of a group: the group's own for an array, with a dot for an object. */
  function ItemBase(isArray: bool, path: Path): Path { if isArray then path else Append(path, ['.' as int]) }

  /** The path of item `k`: the index behind the base; a key is reported at the base itself. */
  function ItemPath(isArray: bool, base: Path, k: nat): Path { if isArray then Append(base, IndexText(k)) else base }

  /**
    The callback's calls for `j` at `path`, in order. A key is a string token at the path of the object with a dot;
    its value stands at that path with the key behind it.
   */
  function Events(s: seq<byte>, j: Json, path: Path): seq<Event>
    decreases j
  {
    match j
    case Leaf(kind, from, to) => Report(kind, path, Slice(from, to))
    case Group(isArray, from, to, items) =>
      Report(if isArray then ArrayStart else ObjectStart, path, NoValue)
      + ItemEvents(s, isArray, items, 0, ItemBase(isArray, path))
      + Report(if isArray then ArrayEnd else ObjectEnd, path, Slice(from, to))
    case Pair(_, from, to, value) =>
      Report(String, path, Slice(from, to))
      + Events(s, value, Append(path, if from <= to <= |s| then s[from..to] else []))
  }

  /** The calls for the items of a group, the first of which has number `k`. */
  function ItemEvents(s: seq<byte>, isArray: bool, items: seq<Json>, k: nat, base: Path): seq<Event>
    decreases items
  {
    if items == [] then []
    else Events(s, items[0], ItemPath(isArray, base, k)) + ItemEvents(s, isArray, items[1..], k + 1, base)
  }

  lemma {:induction false} OneMoreItemEvents(s: seq<byte>, isArray: bool, items: seq<Json>, k: nat, base: Path, j: Json)
    ensures ItemEvents(s, isArray, items + [j], k, base)
      == ItemEvents(s, isArray, items, k, base) + Events(s, j, ItemPath(isArray, base, k + |items|))
    decreases items
  {
    hide Events, ItemPath;
    if items == [] {
      assert items + [j] == [j] && [j][1..] == [];
    } else {
      OneMoreItemEvents(s, isArray, items[1..], k + 1, base, j);
      assert (items + [j])[1..] == items[1..] + [j];
    }
  }

  /** Every path reported extends the path of the value and fits its 255 characters. */
  lemma {:induction false} PathsExtend(s: seq<byte>, j: Json, path: Path, e: Event)
    requires e in Events(s, j, path)
    ensures path <= e.path && |e.path| < MAX_PATH_LEN
    decreases j
  {
    hide Append, ItemPath;
    match j
    case Leaf(_, _, _) =>
    case Group(isArray, _, _, items) =>
      if e in ItemEvents(s, isArray, items, 0, ItemBase(isArray, path)) {
        ItemPathsExtend(s, isArray, items, 0, ItemBase(isArray, path), e);
      }
    case Pair(_, from, to, value) =>
      var inner := Append(path, if from <= to <= |s| then s[from..to] else []);
      if e in Events(s, value, inner) { PathsExtend(s, value, inner, e); }
  }

  lemma {:induction false} ItemPathsExtend(s: seq<byte>, isArray: bool, items: seq<Json>, k: nat, base: Path, e: Event)
    requires e in ItemEvents(s, isArray, items, k, base)
    ensures base <= e.path && |e.path| < MAX_PATH_LEN
    decreases items
  {
    hide Append;
    var at := ItemPath(isArray, base, k);
    if e in Events(s, items[0], at) {
      PathsExtend(s, items[0], at, e);
    } else {
      ItemPathsExtend(s, isArray, items[1..], k + 1, base, e);
    }
  }

  /**
    The keys of an object at a reported path are kept from the callback, exactly when the path has room for the dot.
   */
  lemma KeyReported(path: Path)
    requires Reported(path)
    ensures Reported(ItemBase(false, path)) <==> |path| == MAX_PATH_LEN - 1
  {
  }

  /**
    The value of a key stands under the path, a dot and the key, cut to 255 characters.  If nothing is cut it is
    reported exactly when the key is neither empty nor ends in a dot.
   */
  lemma MemberReported(path: Path, key: seq<byte>)
    ensures
      var under := path + ['.' as int] + key;
      Append(ItemBase(false, path), key) == if |under| < MAX_PATH_LEN then under else under[..MAX_PATH_LEN - 1]
    ensures |path| + 1 + |key| < MAX_PATH_LEN ==>
      (Reported(Append(ItemBase(false, path), key)) <==> key != [] && key[|key| - 1] != '.' as int)
  {
    assert key[..|key|] == key;
  }

  /** The number that decimal digits stand for. */
  function DecimalValue(digits: seq<byte>): int {
    if digits == [] then 0 else 10 * DecimalValue(digits[..|digits| - 1]) + digits[|digits| - 1] - '0' as int
  }

  /** The digits of an index are its decimal notation: all digits, no leading zero, and they read back as the index. */
  lemma {:induction false} DecimalBack(n: nat)
    ensures DecimalValue(Decimal(n)) == n && Decimal(n) != []
    ensures forall c | c in Decimal(n) :: '0' as int <= c <= '9' as int
    ensures n > 0 ==> Decimal(n)[0] != '0' as int
  {
    if n >= 10 {
      DecimalBack(n / 10);
      var d := Decimal(n);
      assert d[..|d| - 1] == Decimal(n / 10);
    } else {
      assert Decimal(n) == [('0' as int) + n];
      assert Decimal(n)[..0] == [];
    }
  }

  /** Element `k` stands under the path of the array and its index in brackets, if nothing is cut. */
  lemma ElementPath(path: Path, k: nat)
    requires |path| + |Decimal(k)| + 2 < MAX_PATH_LEN
    ensures ItemPath(true, ItemBase(true, path), k) == path + ['[' as int] + Decimal(k) + [']' as int]
  {
    assert IndexText(k)[..|IndexText(k)|] == IndexText(k);
  }

  /** Bracketed digits tell where they end. */
  lemma BracketsTell(a: seq<byte>, b: seq<byte>)
    requires (forall c | c in a :: c <= '9' as int) && forall c | c in b :: c <= '9' as int
    requires ['[' as int] + a + [']' as int] <= ['[' as int] + b + [']' as int]
    ensures a == b
  {
    var x, y := ['[' as int] + a + [']' as int], ['[' as int] + b + [']' as int];
    assert x[|a| + 1] == y[|a| + 1] == ']' as int;
    forall k | 1 <= k <= |b| ensures y[k] != ']' as int { assert y[k] == b[k - 1] && b[k - 1] in b; }
    assert a == x[1..|a| + 1] == y[1..|a| + 1] == b;
  }

  /** Only the same element stands under a path or one that extends it, if the index is not cut. */
  lemma ElementsApart(path: Path, i: nat, j: nat)
    requires |path| + |Decimal(i)| + 2 < MAX_PATH_LEN
    requires ItemPath(true, path, i) <= ItemPath(true, path, j)
    ensures i == j
  {
    DecimalBack(i);
    DecimalBack(j);
    ElementPath(path, i);
    hide Decimal, DecimalValue;
    var a, b, x, y := ItemPath(true, path, i), ItemPath(true, path, j), IndexText(i), IndexText(j);
    assert a == path + x && b <= path + y;
    assert a[|path|..] == x && (path + y)[|path|..] == y;
    assert x <= y;
    BracketsTell(Decimal(i), Decimal(j));
  }

  /** An element of a reported array is always reported; of any other, if the path has room for one character more. */
  lemma ElementReported(path: Path, k: nat)
    ensures Reported(ItemPath(true, path, k)) <==> Reported(path) || |path| < MAX_PATH_LEN - 1
  {
    NoDot(k);
    hide IndexText;
    var t := IndexText(k);
    var r := Append(path, t);
    if r != path { assert r[|r| - 1] in t; }
  }

  lemma {:induction false} NoDot(k: nat)
    ensures '.' as int !in Decimal(k) && '.' as int !in IndexText(k) && IndexText(k) != []
  {
    if k >= 10 { NoDot(k / 10); }
  }

  /**
    Reading events with a stack of open brackets: every closing event must have the path and the kind of bracket of
    the innermost open one, and none may be left.
   */
  predicate Balanced(events: seq<Event>, brackets: seq<Event>) {
    if events == [] then brackets == []
    else
      var e, rest := events[0], events[1..];
      match e.kind
      case ObjectStart | ArrayStart => Balanced(rest, [e] + brackets)
      case ObjectEnd | ArrayEnd =>
        && brackets != [] && brackets[0].path == e.path && (brackets[0].kind == ObjectStart <==> e.kind == ObjectEnd)
        && Balanced(rest, brackets[1..])
      case _ => Balanced(rest, brackets)
  }

  lemma BalancedStep(e: Event, rest: seq<Event>, brackets: seq<Event>)
    ensures Balanced([e] + rest, brackets)
      == match e.kind
         case ObjectStart | ArrayStart => Balanced(rest, [e] + brackets)
         case ObjectEnd | ArrayEnd =>
           && brackets != [] && brackets[0].path == e.path && (brackets[0].kind == ObjectStart <==> e.kind == ObjectEnd)
           && Balanced(rest, brackets[1..])
         case _ => Balanced(rest, brackets)
  {
    assert ([e] + rest)[1..] == rest;
  }

  lemma TokenBalances(s: seq<byte>, kind: Kind, path: seq<byte>, from: nat, to: nat, rest: seq<Event>, brackets: seq<Event>)
    requires Token(s, kind, from, to)
    ensures Balanced(Report(kind, path, Slice(from, to)) + rest, brackets) == Balanced(rest, brackets)
  {
    hide Quoted, NumberEnd;
    if Reported(path) {
      BalancedStep(Event(kind, path, Slice(from, to)), rest, brackets);
    } else {
      assert [] + rest == rest;
    }
  }

  /** The events of a text close every bracket they open, in the right order. */
  lemma {:induction false} EventsBalance(s: seq<byte>, j: Json, path: Path, rest: seq<Event>, brackets: seq<Event>)
    requires Stands(s, j)
    ensures Balanced(Events(s, j, path) + rest, brackets) == Balanced(rest, brackets)
    decreases j
  {
    hide Token, Balanced, Append, Report;
    match j
    case Leaf(kind, from, to) => TokenBalances(s, kind, path, from, to, rest, brackets);
    case Group(isArray, from, to, items) => GroupBalances(s, j, path, rest, brackets);
    case Pair(quoted, from, to, value) =>
      var inner := Append(path, if from <= to <= |s| then s[from..to] else []);
      var more := Events(s, value, inner) + rest;
      KeyBalances(path, from, to, more, brackets);
      EventsBalance(s, value, inner, rest, brackets);
      var key := Report(String, path, Slice(from, to));
      hide Events;
      assert key + Events(s, value, inner) + rest == key + more;
  }

  lemma KeyBalances(path: seq<byte>, from: nat, to: nat, rest: seq<Event>, brackets: seq<Event>)
    ensures Balanced(Report(String, path, Slice(from, to)) + rest, brackets) == Balanced(rest, brackets)
  {
    if Reported(path) {
      BalancedStep(Event(String, path, Slice(from, to)), rest, brackets);
    } else {
      assert [] + rest == rest;
    }
  }

  lemma {:induction false} GroupBalances(s: seq<byte>, j: Json, path: Path, rest: seq<Event>, brackets: seq<Event>)
    requires j.Group? && Stands(s, j)
    ensures Balanced(Events(s, j, path) + rest, brackets) == Balanced(rest, brackets)
    decreases j, 0
  {
    var base := ItemBase(j.isArray, path);
    var inside := ItemEvents(s, j.isArray, j.items, 0, base);
    var start := Event(if j.isArray then ArrayStart else ObjectStart, path, NoValue);
    var end := Event(if j.isArray then ArrayEnd else ObjectEnd, path, Slice(j.from, j.to));
    hide Balanced, Append, ItemBase;
    if Reported(path) {
      GroupEvents(start, inside, end, rest);
      BalancedStep(start, inside + ([end] + rest), brackets);
      ItemsBalance(s, j.isArray, j.items, j.from + 1, 0, base, [end] + rest, [start] + brackets);
      BalancedStep(end, rest, [start] + brackets);
      assert ([start] + brackets)[1..] == brackets;
    } else {
      ItemsBalance(s, j.isArray, j.items, j.from + 1, 0, base, rest, brackets);
      assert [] + inside + [] == inside;
    }
  }

  lemma GroupEvents(start: Event, inside: seq<Event>, end: Event, rest: seq<Event>)
    ensures [start] + inside + [end] + rest == [start] + (inside + ([end] + rest))
  {
  }

  lemma {:induction false} ItemsBalance(s: seq<byte>, isArray: bool, items: seq<Json>, i: nat, k: nat, base: Path,
                                        rest: seq<Event>, brackets: seq<Event>)
    requires ItemsStand(s, isArray, items, i)
    ensures Balanced(ItemEvents(s, isArray, items, k, base) + rest, brackets) == Balanced(rest, brackets)
    decreases items, 0
  {
    hide Stands, Balanced, Append;
    if items == [] {
      assert [] + rest == rest;
    } else {
      var first := Events(s, items[0], ItemPath(isArray, base, k));
      var more := ItemEvents(s, isArray, items[1..], k + 1, base);
      EventsBalance(s, items[0], ItemPath(isArray, base, k), more + rest, brackets);
      ItemsBalance(s, isArray, items[1..], Comma(s, items[0].End()), k + 1, base, rest, brackets);
      hide Events, ItemEvents;
      assert first + more + rest == first + (more + rest);
    }
  }

  // ---------------------------------------------------------------------------
  // The walker
  // ---------------------------------------------------------------------------

  /** No value, or no key with a value, stands behind white space from `i` on. */
  ghost predicate NoText(s: seq<byte>, i: nat, pair: bool)
    requires i <= |s|
  {
    forall j :: !Next(s, i, pair, j)
  }

  /** No list of items with its closing bracket stands from `i` on. */
  ghost predicate NoList(s: seq<byte>, isArray: bool, i: nat)
    requires i <= |s|
  {
    forall items :: ItemsStand(s, isArray, items, i) ==> !Closes(s, isArray, items, i)
  }

  lemma SkipTwice(s: seq<byte>, i: nat)
    requires i <= |s|
    ensures Skip(s, Skip(s, i)) == Skip(s, i)
  {
  }

  class Walker {
    const s: seq<byte>
    var cur: nat
    var path: Path
    var events: seq<Event>      // the calls of the callback so far

    ghost predicate Valid()
      reads this`cur
    {
      cur <= |s|
    }

    constructor (s: seq<byte>)
      ensures Valid() && this.s == s && cur == 0 && path == [] && events == []
    {
      this.s := s;
      cur := 0;
      path := [];
      events := [];
    }

    /** As much of `str` as the path has room for; the length before. */
    method AppendToPath(str: seq<byte>) returns (n: nat)
      modifies this`path
      ensures n == |old(path)| && path == Append(old(path), str)
    {
      n := |path|;
      var left, size := MAX_PATH_LEN - n - 1, |str|;
      if size > left { size := left; }
      path := path + str[..size];
    }

    method TruncatePath(n: nat)
      requires n <= |path|
      modifies this`path
      ensures path == old(path)[..n]
    {
      path := path[..n];
    }

    method CallBack(kind: Kind, value: Value)
      modifies this`events
      ensures events == old(events) + Report(kind, path, value)
    {
      if path == [] || path[|path| - 1] != '.' as int {
        events := events + [Event(kind, path, value)];
      } else {
        assert events + [] == events;
      }
    }

    /** `json_cur`: skips white space; the code at the cursor, or -1 at the end. */
    method Cur() returns (ch: int)
      requires Valid()
      modifies this`cur
      ensures Valid() && cur == Skip(s, old(cur)) == Skip(s, cur)
      ensures ch == if cur < |s| then s[cur] else END_OF_STRING
    {
      while cur < |s| && IsSpace(s[cur])
        invariant old(cur) <= cur <= |s| && Skip(s, cur) == Skip(s, old(cur))
      {
        cur := cur + 1;
      }
      if cur >= |s| { return END_OF_STRING; }
      return s[cur];
    }

    method TestAndSkip(expected: byte) returns (code: int)
      requires Valid()
      modifies this`cur
      ensures Valid() && IsCode(code) && old(cur) <= cur
      ensures code == 0 <==> Has(s, Skip(s, old(cur)), expected)
      ensures code == 0 ==> cur == Skip(s, old(cur)) + 1
    {
      var ch := Cur();
      if ch == expected {
        cur := cur + 1;
        return 0;
      }
      return if ch == END_OF_STRING then INCOMPLETE else INVALID;
    }

    method ParseIdentifier() returns (code: int, ghost from: nat)
      requires Valid()
      modifies this
      ensures Valid() && IsCode(code) && from == Skip(s, old(cur)) && from <= cur
      ensures code == 0 <==> from < |s| && IsAlpha(s[from])
      ensures code == 0 ==>
        from < cur && Name(s, from, cur) && path == old(path) && events == old(events) + Report(String, path, Slice(from, cur))
    {
      var ch := Cur();
      var start := cur;
      from := cur;
      if !IsAlpha(ch) { return INVALID, from; }
      var n := AppendToPath([]);
      while cur < |s| && IsNameChar(s[cur])
        invariant start <= cur <= |s| && NameEnd(s, cur) == NameEnd(s, start)
        invariant path == old(path) && events == old(events)
      {
        cur := cur + 1;
      }
      TruncatePath(n);
      CallBack(String, Slice(start, cur));
      code := 0;
    }

    /** A string that is read stands between its quotes, and any that stands is read. */
    method ParseString() returns (code: int, ghost from: nat)
      requires Valid()
      modifies this
      ensures Valid() && IsCode(code) && from == Skip(s, old(cur)) + 1 && old(cur) <= cur
      ensures code == 0 ==>
        && from < cur && Quoted(s, from, cur - 1) && path == old(path)
        && events == old(events) + Report(String, path, Slice(from, cur - 1))
      ensures code < 0 ==> forall to :: !Quoted(s, from, to)
    {
      hide EscapeLen;
      from := Skip(s, cur) + 1;
      code := TestAndSkip('"' as int);
      if code < 0 { return; }
      var start := cur;
      var n := AppendToPath([]);
      while cur < |s|
        invariant start <= cur <= |s| && path == old(path) && events == old(events)
        invariant forall to :: StringBody(s, start, to) <==> StringBody(s, cur, to)
        decreases |s| - cur
      {
        var ch := s[cur];
        var len: int := Utf8Len(ch);
        if ch < 32 { return INVALID, from; }
        if len > |s| - cur { return INCOMPLETE, from; }
        if ch == '\\' as int {
          var e := EscapeLen(s, cur + 1, |s| - cur);
          if e <= 0 { return e, from; }
          len := len + e;
        } else if ch == '"' as int {
          assert StringBody(s, cur, cur);
          BodyForward(s, start, cur);
          TruncatePath(n);
          CallBack(String, Slice(start, cur));
          cur := cur + 1;
          return 0, from;
        }
        assert CharLen(s, cur) == len;
        cur := cur + len;
      }
      return INCOMPLETE, from;
    }

    method SkipDigits(hex: bool)
      requires Valid()
      modifies this`cur
      ensures Valid() && cur == DigitsEnd(s, old(cur), hex)
    {
      while cur < |s| && (if hex then IsHexDigit(s[cur]) else IsDigit(s[cur]))
        invariant old(cur) <= cur <= |s| && DigitsEnd(s, cur, hex) == DigitsEnd(s, old(cur), hex)
      {
        cur := cur + 1;
      }
    }

    /** At least one digit. */
    method NeedDigits(hex: bool) returns (code: int)
      requires Valid()
      modifies this`cur
      ensures Valid() && IsCode(code) && old(cur) <= cur
      ensures Digits(s, old(cur), hex) == if code == 0 then EndsAt(cur) else NoEnd
    {
      if cur >= |s| { return INCOMPLETE; }
      if !(if hex then IsHexDigit(s[cur]) else IsDigit(s[cur])) { return INVALID; }
      SkipDigits(hex);
      return 0;
    }

    method FractionText() returns (code: int)
      requires Valid()
      modifies this`cur
      ensures Valid() && IsCode(code) && old(cur) <= cur
      ensures Fraction(s, old(cur)) == if code == 0 then EndsAt(cur) else NoEnd
    {
      hide DigitsEnd;
      code := 0;
      if cur < |s| && s[cur] == '.' as int {
        cur := cur + 1;
        code := NeedDigits(false);
      }
    }

    method ExponentText() returns (code: int)
      requires Valid()
      modifies this`cur
      ensures Valid() && IsCode(code) && old(cur) <= cur
      ensures Exponent(s, old(cur)) == if code == 0 then EndsAt(cur) else NoEnd
    {
      code := 0;
      if cur < |s| && (s[cur] == 'e' as int || s[cur] == 'E' as int) {
        cur := cur + 1;
        if cur >= |s| { return INCOMPLETE; }
        hide DigitsEnd;
        if s[cur] == '+' as int || s[cur] == '-' as int { cur := cur + 1; }
        code := NeedDigits(false);
      }
    }

    /** A number that is read is the number that stands there, and any that stands is read. */
    method NumberText(ch: int) returns (code: int)
      requires Valid() && ch == if cur < |s| then s[cur] else END_OF_STRING
      modifies this`cur
      ensures Valid() && IsCode(code) && old(cur) <= cur
      ensures NumberEnd(s, old(cur)) == if code == 0 then EndsAt(cur) else NoEnd
    {
      hide Fraction, Exponent, Digits;
      if ch == '-' as int { cur := cur + 1; }
      if cur >= |s| {
        NoDigits(s, cur);
        return INCOMPLETE;
      }
      if cur + 1 < |s| && s[cur] == '0' as int && s[cur + 1] == 'x' as int {
        cur := cur + 2;
        code := NeedDigits(true);
      } else {
        code := NeedDigits(false);
        if code < 0 { return; }
        code := FractionText();
        if code < 0 { return; }
        code := ExponentText();
      }
    }

    method ParseNumber() returns (code: int, ghost from: nat)
      requires Valid()
      modifies this
      ensures Valid() && IsCode(code) && from == Skip(s, old(cur)) && old(cur) <= cur
      ensures NumberEnd(s, from) == if code == 0 then EndsAt(cur) else NoEnd
      ensures code == 0 ==> path == old(path) && events == old(events) + Report(Number, path, Slice(from, cur))
    {
      hide NumberEnd;
      var ch := Cur();
      var start := cur;
      from := cur;
      var n := AppendToPath([]);
      code := NumberText(ch);
      if code < 0 { return; }
      TruncatePath(n);
      CallBack(Number, Slice(start, cur));
    }

    /** `json_expect`: a literal, read exactly if it stands at the cursor. */
    method Expect(text: seq<byte>, kind: Kind) returns (code: int)
      requires Valid()
      modifies this
      ensures Valid() && IsCode(code) && old(cur) <= cur
      ensures code == 0 <==> old(cur) + |text| <= |s| && s[old(cur)..old(cur) + |text|] == text
      ensures code == 0 ==>
        cur == old(cur) + |text| && path == old(path) && events == old(events) + Report(kind, path, Slice(old(cur), cur))
    {
      var start, left := cur, |s| - cur;
      var n := AppendToPath([]);
      for i := 0 to |text|
        invariant i <= left && s[cur..cur + i] == text[..i] && cur == start && path == old(path) && events == old(events)
      {
        if i >= left { return INCOMPLETE; }
        if s[cur + i] != text[i] {
          assert left >= |text| ==> s[cur..cur + |text|][i] == s[cur + i];
          return INVALID;
        }
        assert s[cur..cur + (i + 1)] == s[cur..cur + i] + [s[cur + i]] && text[..i + 1] == text[..i] + [text[i]];
      }
      assert text[..|text|] == text;
      cur := cur + |text|;
      TruncatePath(n);
      CallBack(kind, Slice(start, cur));
      code := 0;
    }

    /** `json_parse_value`: the value that stands at the cursor, if one does. */
    method ParseValue() returns (code: int, ghost j: Json)
      requires Valid()
      modifies this
      ensures Valid() && IsCode(code) && old(cur) <= cur
      ensures code == 0 ==>
        && Next(s, old(cur), false, j) && cur == j.End()
        && path == old(path) && events == old(events) + Events(s, j, path)
      ensures code < 0 ==> NoText(s, old(cur), false)
      decreases |s| - cur, 2
    {
      hide Next, NoText;
      var ch := Cur();
      ghost var i, b := old(cur), cur;
      if ch == '{' as int {
        code, j := ParseObject();
        SameText(s, i, b, false, j);
      } else if ch == '[' as int {
        code, j := ParseArray();
        SameText(s, i, b, false, j);
      } else {
        code, j := ParseToken(ch);
        SameText(s, i, b, false, j);
      }
    }

    /** A string, number or literal. */
    method ParseToken(ch: int) returns (code: int, ghost j: Json)
      requires Valid() && cur == Skip(s, cur) && ch == if cur < |s| then s[cur] else END_OF_STRING
      requires ch != '{' as int && ch != '[' as int
      modifies this
      ensures Valid() && IsCode(code) && old(cur) <= cur
      ensures code == 0 ==>
        && Next(s, old(cur), false, j) && cur == j.End()
        && path == old(path) && events == old(events) + Events(s, j, path)
      ensures code < 0 ==> NoText(s, old(cur), false)
    {
      hide NumberEnd, StringBody, Report, NoText, Next;
      ghost var b, from := cur, 0;
      j := Leaf(Null, 0, 0);
      if ch == '"' as int {
        code, from := ParseString();
        if code < 0 { NoLeaf(s, b, String, b + 1); return; }
        j := Leaf(String, from, cur - 1);
      } else if ch == 'n' as int {
        code := Expect(NULL_TEXT, Null);
        if code < 0 { NoLeaf(s, b, Null, b); return; }
        j := Leaf(Null, b, cur);
      } else if ch == 't' as int {
        code := Expect(TRUE_TEXT, True);
        if code < 0 { NoLeaf(s, b, True, b); return; }
        j := Leaf(True, b, cur);
      } else if ch == 'f' as int {
        code := Expect(FALSE_TEXT, False);
        if code < 0 { NoLeaf(s, b, False, b); return; }
        j := Leaf(False, b, cur);
      } else if ch == '-' as int || IsDigit(ch) {
        code, from := ParseNumber();
        if code < 0 { NoLeaf(s, b, Number, b); return; }
        j := Leaf(Number, b, cur);
      } else {
        NoStart(s, b);
        return if ch == END_OF_STRING then INCOMPLETE else INVALID, j;
      }
      LeafNext(s, b, j);
    }

    method ParseArray() returns (code: int, ghost j: Json)
      requires Valid() && Has(s, cur, '[' as int)
      modifies this
      ensures Valid() && IsCode(code) && old(cur) <= cur
      ensures code == 0 ==>
        && Next(s, old(cur), false, j) && cur == j.End()
        && path == old(path) && events == old(events) + Events(s, j, path)
      ensures code < 0 ==> NoText(s, old(cur), false)
      decreases |s| - cur, 1
    {
      hide Next, NoText, NoList, ItemsStand, ItemEvents, Report;
      ghost var b := cur;
      j := Leaf(Null, 0, 0);
      CallBack(ArrayStart, NoValue);
      code := TestAndSkip('[' as int);
      var start := cur - 1;
      var n := AppendToPath([]);
      assert path == old(path);
      ghost var items;
      code, items := Elements();
      if code < 0 {
        NoGroup(s, true, b);
        return;
      }
      code := TestAndSkip(']' as int);
      TruncatePath(n);
      CallBack(ArrayEnd, Slice(start, cur));
      j := Group(true, start, cur, items);
      GroupNext(s, j);
    }

    /** The elements of an array up to its closing bracket, if they stand there. */
    method Elements() returns (code: int, ghost items: seq<Json>)
      requires Valid()
      modifies this
      ensures Valid() && IsCode(code) && old(cur) <= cur
      ensures code == 0 ==>
        && ItemsStand(s, true, items, old(cur)) && Closes(s, true, items, old(cur))
        && cur == Skip(s, After(s, items, old(cur))) && path == old(path)
        && events == old(events) + ItemEvents(s, true, items, 0, path)
      ensures code < 0 ==> NoList(s, true, old(cur))
      decreases |s| - cur, 3
    {
      hide Next, NoText, NoList, ItemsStand, ItemEvents, Events, After, Append, IndexText;
      code, items := 0, [];
      var i := 0;
      var ch := Cur();
      NoItems(s, true, old(cur), path);
      while ch != ']' as int
        invariant code == 0 && Valid() && old(cur) <= cur && path == old(path) && i == |items|
        invariant ch == if cur < |s| then s[cur] else END_OF_STRING
        invariant ItemsStand(s, true, items, old(cur)) && cur == Skip(s, After(s, items, old(cur)))
        invariant events == old(events) + ItemEvents(s, true, items, 0, path)
        decreases |s| - cur
      {
        ghost var at, before := After(s, items, old(cur)), cur;
        var m := AppendToPath(IndexText(i));
        i := i + 1;
        ghost var j;
        code, j := ParseValue();
        SkipTwice(s, at);
        SameText(s, at, before, false, j);
        if code < 0 {
          Blocked(s, true, items, old(cur));
          return;
        }
        TruncatePath(m);
        ch := SkipComma();
        ItemAdded(s, true, items, old(cur), j, path);
        items := items + [j];
      }
    }

    /** Past a comma, if there is one, to the next code. */
    method SkipComma() returns (ch: int)
      requires Valid()
      modifies this`cur
      ensures Valid() && cur == Skip(s, Comma(s, old(cur))) && ch == if cur < |s| then s[cur] else END_OF_STRING
    {
      ch := Cur();
      if ch == ',' as int {
        cur := cur + 1;
        ch := Cur();
      }
    }

    /** A key, quoted or not; it is reported like a value. */
    method ParseKey() returns (code: int, ghost quoted: bool, ghost from: nat)
      requires Valid()
      modifies this
      ensures Valid() && IsCode(code) && old(cur) <= cur
      ensures code == 0 ==>
        && Skip(s, old(cur)) < cur && quoted == (s[Skip(s, old(cur))] == '"' as int)
        && from == Skip(s, old(cur)) + (if quoted then 1 else 0)
        && var to := if quoted then cur - 1 else cur;
        && from <= to && (if quoted then Quoted(s, from, to) else Name(s, from, to))
        && path == old(path) && events == old(events) + Report(String, path, Slice(from, to))
      ensures code < 0 ==> NoText(s, old(cur), true)
    {
      hide StringBody, NameEnd, Report, NoText;
      quoted, from := false, 0;
      var ch := Cur();
      if IsAlpha(ch) {
        code, from := ParseIdentifier();
      } else if ch == '"' as int {
        quoted := true;
        code, from := ParseString();
        if code < 0 { NoKey(s, old(cur), from); }
      } else {
        NoKey(s, old(cur), Skip(s, old(cur)) + 1);
        code := if ch == END_OF_STRING then INCOMPLETE else INVALID;
      }
    }

    /** A key, a colon and a value, if they stand at the cursor. */
    method ParsePair() returns (code: int, ghost j: Json)
      requires Valid()
      modifies this
      ensures Valid() && IsCode(code) && old(cur) <= cur
      ensures code == 0 ==>
        && Next(s, old(cur), true, j) && cur == j.End()
        && path == old(path) && events == old(events) + Events(s, j, path)
      ensures code < 0 ==> NoText(s, old(cur), true)
      decreases |s| - cur, 3
    {
      hide Next, NoText, StringBody, NameEnd, Report, Quoted, Name, Append;
      ghost var i := cur;
      j := Leaf(Null, 0, 0);
      var ch := Cur();
      var tok := cur;
      ghost var quoted, from;
      code, quoted, from := ParseKey();
      SkipTwice(s, i);
      SameText(s, i, tok, true, j);
      if code < 0 { return; }
      ghost var to := if quoted then cur - 1 else cur;
      var name := if s[tok] == '"' as int then s[tok + 1..cur - 1] else s[tok..cur];
      var m := AppendToPath(name);
      ghost var inner, end := path, cur;
      code := TestAndSkip(':' as int);
      if code < 0 {
        NoPair(s, i, quoted, from, to);
        return;
      }
      ghost var value;
      code, value := ParseValue();
      if code < 0 {
        NoPair(s, i, quoted, from, to);
        return;
      }
      TruncatePath(m);
      j := Pair(quoted, from, to, value);
      PairNext(s, i, j);
      assert path == old(path) && name == s[from..to];
      Regroup(old(events), Report(String, path, Slice(from, to)), Events(s, value, inner));
    }

    method ParseObject() returns (code: int, ghost j: Json)
      requires Valid() && Has(s, cur, '{' as int)
      modifies this
      ensures Valid() && IsCode(code) && old(cur) <= cur
      ensures code == 0 ==>
        && Next(s, old(cur), false, j) && cur == j.End()
        && path == old(path) && events == old(events) + Events(s, j, path)
      ensures code < 0 ==> NoText(s, old(cur), false)
      decreases |s| - cur, 1
    {
      hide Next, NoText, NoList, ItemsStand, ItemEvents, Report, Append;
      ghost var b := cur;
      j := Leaf(Null, 0, 0);
      CallBack(ObjectStart, NoValue);
      code := TestAndSkip('{' as int);
      var start := cur - 1;
      var n := AppendToPath(['.' as int]);
      ghost var items;
      code, items := Members();
      if code < 0 {
        NoGroup(s, false, b);
        return;
      }
      code := TestAndSkip('}' as int);
      TruncatePath(n);
      CallBack(ObjectEnd, Slice(start, cur));
      j := Group(false, start, cur, items);
      GroupNext(s, j);
    }

    /** The pairs of an object up to its closing bracket, if they stand there. */
    method Members() returns (code: int, ghost items: seq<Json>)
      requires Valid()
      modifies this
      ensures Valid() && IsCode(code) && old(cur) <= cur
      ensures code == 0 ==>
        && ItemsStand(s, false, items, old(cur)) && Closes(s, false, items, old(cur))
        && cur == Skip(s, After(s, items, old(cur))) && path == old(path)
        && events == old(events) + ItemEvents(s, false, items, 0, path)
      ensures code < 0 ==> NoList(s, false, old(cur))
      decreases |s| - cur, 4
    {
      hide Next, NoText, NoList, ItemsStand, ItemEvents, Events, After;
      code, items := 0, [];
      var ch := Cur();
      NoItems(s, false, old(cur), path);
      while ch != '}' as int
        invariant code == 0 && Valid() && old(cur) <= cur && path == old(path)
        invariant ch == if cur < |s| then s[cur] else END_OF_STRING
        invariant ItemsStand(s, false, items, old(cur)) && cur == Skip(s, After(s, items, old(cur)))
        invariant events == old(events) + ItemEvents(s, false, items, 0, path)
        decreases |s| - cur
      {
        ghost var at, before := After(s, items, old(cur)), cur;
        ghost var j;
        code, j := ParsePair();
        SkipTwice(s, at);
        SameText(s, at, before, true, j);
        if code < 0 {
          Blocked(s, false, items, old(cur));
          return;
        }
        ch := SkipComma();
        ItemAdded(s, false, items, old(cur), j, path);
        items := items + [j];
      }
    }
  }

  /** White space in front makes no difference. */
  lemma SameText(s: seq<byte>, i: nat, b: nat, pair: bool, j: Json)
    requires i <= |s| && b <= |s| && Skip(s, i) == Skip(s, b)
    ensures Next(s, i, pair, j) <==> Next(s, b, pair, j)
    ensures NoText(s, i, pair) <==> NoText(s, b, pair)
  {
    hide Stands;
    forall w ensures Next(s, i, pair, w) <==> Next(s, b, pair, w) {}
  }

  lemma LeafNext(s: seq<byte>, b: nat, j: Json)
    requires b <= |s| && Skip(s, b) == b && j.Leaf? && Token(s, j.kind, j.from, j.to)
    requires j.from == if j.kind == String then b + 1 else b
    ensures Next(s, b, false, j)
  {
    hide Token;
  }

  /** If the token its first character announces does not stand there, no value does. */
  lemma NoLeaf(s: seq<byte>, b: nat, kind: Kind, from: nat)
    requires b < |s| && Skip(s, b) == b && First(Leaf(kind, 0, 0), s[b])
    requires from == (if kind == String then b + 1 else b) && forall to :: !Token(s, kind, from, to)
    ensures NoText(s, b, false)
  {
    hide Token;
    forall j ensures !Next(s, b, false, j) {
      if Next(s, b, false, j) {
        FirstIs(s, j);
        assert j.Leaf?;
        OnlyKind(j, kind, s[b]);
      }
    }
  }

  lemma OnlyKind(j: Json, kind: Kind, ch: int)
    requires j.Leaf? && First(j, ch) && First(Leaf(kind, 0, 0), ch)
    ensures j.kind == kind
  {
  }

  lemma NoStart(s: seq<byte>, b: nat)
    requires b <= |s| && Skip(s, b) == b
    requires b < |s| ==> forall j: Json :: j.Pair? || !First(j, s[b])
    ensures NoText(s, b, false)
  {
    forall j ensures !Next(s, b, false, j) {
      if Next(s, b, false, j) { FirstIs(s, j); }
    }
  }

  lemma NoKey(s: seq<byte>, i: nat, from: nat)
    requires i <= |s| && from == Skip(s, i) + 1
    requires Skip(s, i) < |s| ==> !IsAlpha(s[Skip(s, i)])
    requires Has(s, Skip(s, i), '"' as int) ==> forall to :: !Quoted(s, from, to)
    ensures NoText(s, i, true)
  {
    hide StringBody;
    forall j ensures !Next(s, i, true, j) {
      if Next(s, i, true, j) { FirstIs(s, j); }
    }
  }

  /** Without a colon and a value behind the key there is no pair. */
  lemma NoPair(s: seq<byte>, i: nat, quoted: bool, from: nat, to: nat)
    requires i <= |s| && from == Skip(s, i) + (if quoted then 1 else 0) && from <= to <= |s|
    requires if quoted then Quoted(s, from, to) else Name(s, from, to)
    requires
      var colon := Skip(s, if quoted then to + 1 else to);
      Has(s, colon, ':' as int) ==> NoText(s, colon + 1, false)
    ensures NoText(s, i, true)
  {
    forall j ensures !Next(s, i, true, j) {
      if Next(s, i, true, j) { SameKey(s, i, quoted, from, to, j); }
    }
  }

  lemma SameKey(s: seq<byte>, i: nat, quoted: bool, from: nat, to: nat, j: Json)
    requires i <= |s| && from == Skip(s, i) + (if quoted then 1 else 0) && from <= to <= |s|
    requires if quoted then Quoted(s, from, to) else Name(s, from, to)
    requires Next(s, i, true, j)
    ensures
      var colon := Skip(s, if quoted then to + 1 else to);
      Has(s, colon, ':' as int) && Next(s, colon + 1, false, j.value)
  {
    FirstIs(s, j);
    assert j.quoted == quoted;
    if quoted { OneBody(s, from, to, j.to); }
  }

  lemma PairNext(s: seq<byte>, i: nat, j: Json)
    requires i <= |s| && j.Pair? && j.Begin() == Skip(s, i)
    requires if j.quoted then Quoted(s, j.from, j.to) else Name(s, j.from, j.to)
    requires
      var colon := Skip(s, if j.quoted then j.to + 1 else j.to);
      Has(s, colon, ':' as int) && Next(s, colon + 1, false, j.value)
    ensures Next(s, i, true, j)
  {
    hide Quoted, Name;
  }

  lemma NoGroup(s: seq<byte>, isArray: bool, b: nat)
    requires Has(s, b, if isArray then '[' as int else '{' as int) && NoList(s, isArray, b + 1)
    ensures NoText(s, b, false)
  {
    hide NoList;
    forall j ensures !Next(s, b, false, j) {
      if Next(s, b, false, j) {
        ItsItems(s, isArray, b, j);
        ListExcluded(s, isArray, j.items, b + 1);
      }
    }
  }

  lemma ItsItems(s: seq<byte>, isArray: bool, b: nat, j: Json)
    requires Has(s, b, if isArray then '[' as int else '{' as int) && Next(s, b, false, j)
    ensures j.Group? && ItemsStand(s, isArray, j.items, b + 1) && Closes(s, isArray, j.items, b + 1)
  {
    hide ItemsStand, After;
    FirstIs(s, j);
  }

  lemma ListExcluded(s: seq<byte>, isArray: bool, items: seq<Json>, i: nat)
    requires i <= |s| && ItemsStand(s, isArray, items, i) && Closes(s, isArray, items, i)
    ensures !NoList(s, isArray, i)
  {
    hide ItemsStand, Closes;
  }

  lemma GroupNext(s: seq<byte>, j: Json)
    requires j.Group? && Has(s, j.from, if j.isArray then '[' as int else '{' as int)
    requires ItemsStand(s, j.isArray, j.items, j.from + 1) && Closes(s, j.isArray, j.items, j.from + 1)
    requires j.to == Skip(s, After(s, j.items, j.from + 1)) + 1
    ensures Next(s, j.from, false, j)
  {
    hide ItemsStand, After;
  }

  lemma NoItems(s: seq<byte>, isArray: bool, i: nat, base: Path)
    requires i <= |s|
    ensures ItemsStand(s, isArray, [], i) && After(s, [], i) == i && ItemEvents(s, isArray, [], 0, base) == []
  {
  }

  /** A list that has come to something that is neither its closing bracket nor an item is none. */
  lemma Blocked(s: seq<byte>, isArray: bool, items: seq<Json>, i: nat)
    requires i <= |s| && ItemsStand(s, isArray, items, i) && NoText(s, After(s, items, i), !isArray)
    requires !Closes(s, isArray, items, i)
    ensures NoList(s, isArray, i)
  {
    hide ItemsStand, After, Next;
    forall all | ItemsStand(s, isArray, all, i) ensures !Closes(s, isArray, all, i) {
      if Closes(s, isArray, all, i) { GoesOn(s, isArray, items, all, i); }
    }
  }

  lemma ItemAdded(s: seq<byte>, isArray: bool, items: seq<Json>, i: nat, j: Json, base: Path)
    requires i <= |s| && ItemsStand(s, isArray, items, i) && Next(s, After(s, items, i), !isArray, j)
    ensures j.End() <= |s| && ItemsStand(s, isArray, items + [j], i)
    ensures After(s, items + [j], i) == Comma(s, j.End()) && Skip(s, After(s, items, i)) < j.End()
    ensures ItemEvents(s, isArray, items + [j], 0, base)
      == ItemEvents(s, isArray, items, 0, base) + Events(s, j, ItemPath(isArray, base, |items|))
  {
    hide Stands, ItemsStand, After, Events, ItemEvents, ItemPath, Comma;
    Inside(s, j);
    OneMoreItem(s, isArray, items, i, j);
    OneMoreItemEvents(s, isArray, items, 0, base, j);
  }

  /**
    `json_walk` succeeds exactly when a value stands at the start of the text, behind white space if there is any.
    That value is the only one; the walk then returns where it ends, and the events are its events at the empty path,
    with every bracket closed.
   */
  method Walk(s: seq<byte>) returns (n: int, events: seq<Event>)
    ensures n < 0 ==> n == INVALID || n == INCOMPLETE
    ensures n >= 0 <==> exists j :: Next(s, 0, false, j)
    ensures forall j | Next(s, 0, false, j) ::
      0 < n <= |s| && n == j.End() && events == Events(s, j, []) && Balanced(events, [])
  {
    hide Stands, Events, Balanced;
    if |s| == 0 {
      NoStart(s, 0);
      return INCOMPLETE, [];
    }
    var f := new Walker(s);
    ghost var j;
    var code;
    code, j := f.ParseValue();
    events := f.events;
    if code < 0 { return code, events; }
    n := f.cur;
    Inside(s, j);
    EventsBalance(s, j, [], [], []);
    assert Events(s, j, []) + [] == Events(s, j, []) && [] + Events(s, j, []) == Events(s, j, []);
    assert Balanced([], []) by { NothingOpen(); }
    forall w | Next(s, 0, false, w) ensures w == j { OneText(s, w, j); }
  }

  lemma Regroup(a: seq<Event>, b: seq<Event>, c: seq<Event>)
    ensures a + b + c == a + (b + c)
  {
  }

  lemma NothingOpen()
    ensures Balanced([], [])
  {
  }

  lemma {:induction false} BodyForward(s: seq<byte>, i: nat, to: nat)
    requires i <= |s| && StringBody(s, i, to)
    ensures i <= to < |s|
    decreases |s| - i
  {
    hide CharLen;
    if s[i] != '"' as int { BodyForward(s, i + CharLen(s, i), to); }
  }

  lemma NoDigits(s: seq<byte>, i: nat)
    requires i == |s|
    ensures Digits(s, i, false) == NoEnd
  {
  }
}
