/**
  The 45-bit EM4x50 word: four data bytes, each followed by its parity, one byte of column parities and a
  stop bit.  Words are bit sequences, most significant bit first.
 */
module Em4x50Word {
  import opened Bits

  function Xor(a: bool, b: bool): bool { a != b }

  function Parity(s: seq<bool>): bool {
    if s == [] then false else Xor(Parity(s[..|s| - 1]), s[|s| - 1])
  }

  /** Data byte `r` of a 45-bit word; row 4 holds the column parities. */
  function Row(w: seq<bool>, r: nat): seq<bool>
    requires |w| == 45 && r < 5
  {
    w[9 * r..9 * r + 8]
  }

  function DataOf(w: seq<bool>): (d: seq<bool>)
    requires |w| == 45
    ensures |d| == 32
  {
    Row(w, 0) + Row(w, 1) + Row(w, 2) + Row(w, 3)
  }

  /** Column `c` of the four data bytes. */
  function Column(d: seq<bool>, c: nat): seq<bool>
    requires |d| == 32 && c < 8
  {
    [d[c], d[8 + c], d[16 + c], d[24 + c]]
  }

  predicate RowsEven(w: seq<bool>)
    requires |w| == 45
  {
    forall r :: 0 <= r < 4 ==> Parity(Row(w, r)) == w[9 * r + 8]
  }

  predicate ColumnsEven(w: seq<bool>)
    requires |w| == 45
  {
    forall c :: 0 <= c < 8 ==> Parity(Column(DataOf(w), c)) == w[36 + c]
  }

  /** The word is consistent: every parity is right and the stop bit is 0. */
  predicate Accepts(w: seq<bool>)
    requires |w| == 45
  {
    RowsEven(w) && ColumnsEven(w) && !w[44]
  }

  function ColumnParities(d: seq<bool>): (s: seq<bool>)
    requires |d| == 32
    ensures |s| == 8
  {
    seq(8, c requires 0 <= c < 8 => Parity(Column(d, c)))
  }

  function RowBits(d: seq<bool>, r: nat): (s: seq<bool>)
    requires |d| == 32 && r < 4
    ensures |s| == 9
  {
    d[8 * r..8 * r + 8] + [Parity(d[8 * r..8 * r + 8])]
  }

  /** The word as it goes over the air. */
  function Encode(d: seq<bool>): (w: seq<bool>)
    requires |d| == 32
    ensures |w| == 45
  {
    RowBits(d, 0) + RowBits(d, 1) + RowBits(d, 2) + RowBits(d, 3) + ColumnParities(d) + [false]
  }

  lemma EncodeRows(d: seq<bool>)
    requires |d| == 32
    ensures forall r :: 0 <= r < 4 ==> Encode(d)[9 * r..9 * r + 9] == RowBits(d, r)
    ensures Encode(d)[36..44] == ColumnParities(d) && !Encode(d)[44]
  {
    hide RowBits, ColumnParities;
  }

  function Count(s: seq<bool>): nat { if s == [] then 0 else Count(s[..|s| - 1]) + Bit(s[|s| - 1]) }

  lemma {:induction false} ParityCounts(s: seq<bool>)
    ensures Parity(s) <==> Count(s) % 2 == 1
  {
    if s != [] { ParityCounts(s[..|s| - 1]); }
  }

  predicate RowIsEven(w: seq<bool>, r: nat)
    requires |w| == 45 && r < 4
  {
    Count(w[9 * r..9 * r + 9]) % 2 == 0
  }

  predicate ColumnIsEven(w: seq<bool>, c: nat)
    requires |w| == 45 && c < 8
  {
    Count([w[c], w[9 + c], w[18 + c], w[27 + c], w[36 + c]]) % 2 == 0
  }

  /** Even parity: a word is accepted if each row and each column has an even number of ones and the last bit is 0. */
  lemma EvenParities(w: seq<bool>)
    requires |w| == 45
    ensures Accepts(w)
      <==> (forall r | 0 <= r < 4 :: RowIsEven(w, r)) && (forall c | 0 <= c < 8 :: ColumnIsEven(w, c)) && !w[44]
  {
    hide Parity, RowIsEven, ColumnIsEven, DataOf, Row, Column;
    if RowsEven(w) {
      forall r | 0 <= r < 4 ensures RowIsEven(w, r) { EvenRow(w, r); }
    }
    if forall r | 0 <= r < 4 :: RowIsEven(w, r) {
      forall r | 0 <= r < 4 ensures Parity(Row(w, r)) == w[9 * r + 8] { EvenRow(w, r); }
    }
    if ColumnsEven(w) {
      forall c | 0 <= c < 8 ensures ColumnIsEven(w, c) { EvenColumn(w, c); }
    }
    if forall c | 0 <= c < 8 :: ColumnIsEven(w, c) {
      forall c | 0 <= c < 8 ensures Parity(Column(DataOf(w), c)) == w[36 + c] { EvenColumn(w, c); }
    }
  }

  lemma {:induction false} OneMore(s: seq<bool>, b: bool)
    ensures Count(s + [b]) % 2 == 0 <==> Parity(s) == b
  {
    ParityCounts(s);
    assert (s + [b])[..|s|] == s;
  }

  lemma EvenRow(w: seq<bool>, r: nat)
    requires |w| == 45 && r < 4
    ensures Parity(Row(w, r)) == w[9 * r + 8] <==> RowIsEven(w, r)
  {
    hide Parity, Ones;
    OneMore(Row(w, r), w[9 * r + 8]);
    assert w[9 * r..9 * r + 9] == Row(w, r) + [w[9 * r + 8]];
  }

  lemma EvenColumn(w: seq<bool>, c: nat)
    requires |w| == 45 && c < 8
    ensures Parity(Column(DataOf(w), c)) == w[36 + c] <==> ColumnIsEven(w, c)
  {
    hide Parity, Ones;
    var s := Column(DataOf(w), c);
    OneMore(s, w[36 + c]);
    assert s == [w[c], w[9 + c], w[18 + c], w[27 + c]];
    assert s + [w[36 + c]] == [w[c], w[9 + c], w[18 + c], w[27 + c], w[36 + c]];
  }

  /** Data bit `8 r + c` goes out as bit `9 r + c`. */
  lemma DataPlaces(d: seq<bool>, r: nat, c: nat)
    requires |d| == 32 && r < 4 && c < 8
    ensures Encode(d)[9 * r + c] == d[8 * r + c] && DataOf(Encode(d))[8 * r + c] == d[8 * r + c]
  {
    EncodeData(d);
    EncodeRows(d);
    hide Encode, ColumnParities, Parity, DataOf;
    assert Encode(d)[9 * r..9 * r + 9][c] == RowBits(d, r)[c];
  }

  lemma EncodeData(d: seq<bool>)
    requires |d| == 32
    ensures DataOf(Encode(d)) == d
  {
    hide ColumnParities, Encode;
    EncodeRows(d);
    forall r | 0 <= r < 4 ensures Row(Encode(d), r) == d[8 * r..8 * r + 8] {
      assert Encode(d)[9 * r..9 * r + 9] == RowBits(d, r);
      assert Row(Encode(d), r) == Encode(d)[9 * r..9 * r + 9][..8];
    }
    assert d == d[0..8] + d[8..16] + d[16..24] + d[24..32];
  }

  /** The accepted words are exactly the encodings. */
  lemma AcceptsEncodings(w: seq<bool>, d: seq<bool>)
    requires |w| == 45 && |d| == 32
    ensures Accepts(Encode(d)) && DataOf(Encode(d)) == d
    ensures Accepts(w) <==> w == Encode(DataOf(w))
  {
    EncodedAccepted(d);
    EncodedAccepted(DataOf(w));
    EncodeData(d);
    if Accepts(w) { AcceptedEncoded(w); }
  }

  lemma EncodedAccepted(d: seq<bool>)
    requires |d| == 32
    ensures Accepts(Encode(d))
  {
    hide Encode, Parity, DataOf;
    var w := Encode(d);
    EncodeRows(d);
    EncodeData(d);
    forall r | 0 <= r < 4 ensures Parity(Row(w, r)) == w[9 * r + 8] {
      assert w[9 * r..9 * r + 9] == RowBits(d, r);
      assert Row(w, r) == RowBits(d, r)[..8] && w[9 * r + 8] == RowBits(d, r)[8];
      assert RowBits(d, r)[..8] == d[8 * r..8 * r + 8];
    }
    forall c | 0 <= c < 8 ensures Parity(Column(DataOf(w), c)) == w[36 + c] {
      assert w[36 + c] == w[36..44][c];
    }
  }

  lemma DataRow(w: seq<bool>, r: nat)
    requires |w| == 45 && r < 4
    ensures DataOf(w)[8 * r..8 * r + 8] == Row(w, r)
  {
  }

  lemma AcceptedEncoded(w: seq<bool>)
    requires |w| == 45 && Accepts(w)
    ensures w == Encode(DataOf(w))
  {
    hide Encode, Parity, DataOf;
    var d := DataOf(w);
    EncodeRows(d);
    forall r | 0 <= r < 4 ensures w[9 * r..9 * r + 9] == RowBits(d, r) {
      DataRow(w, r);
      assert w[9 * r..9 * r + 9] == Row(w, r) + [w[9 * r + 8]];
    }
    assert w[36..44] == ColumnParities(d);
    var e := Encode(d);
    forall r | 0 <= r < 4 ensures w[9 * r..9 * r + 9] == e[9 * r..9 * r + 9] {
      assert e[9 * r..9 * r + 9] == RowBits(d, r);
    }
    FivePieces(w);
    FivePieces(e);
  }

  lemma FivePieces(w: seq<bool>)
    requires |w| == 45
    ensures w == w[9 * 0..9 * 0 + 9] + w[9 * 1..9 * 1 + 9] + w[9 * 2..9 * 2 + 9] + w[9 * 3..9 * 3 + 9] + w[36..44] + [w[44]]
  {
  }

  // ---------------------------------------------------------------------------
  // Errors are caught
  // ---------------------------------------------------------------------------

  lemma {:induction false} ParityDiffers(s: seq<bool>, t: seq<bool>, i: nat)
    requires |s| == |t| && i < |s| && s[i] != t[i]
    requires forall j :: 0 <= j < |s| && j != i ==> s[j] == t[j]
    ensures Parity(s) != Parity(t)
  {
    var n := |s| - 1;
    if i == n {
      assert s[..n] == t[..n];
    } else {
      ParityDiffers(s[..n], t[..n], i);
    }
  }

  /** Two words that differ in a data bit, both with even rows, differ again in that row. */
  lemma SecondInRow(a: seq<bool>, b: seq<bool>, r: nat, c: nat) returns (k: nat)
    requires |a| == |b| == 45 && RowsEven(a) && RowsEven(b)
    requires r < 4 && c < 8 && a[9 * r + c] != b[9 * r + c]
    ensures 9 * r <= k < 9 * r + 9 && k != 9 * r + c && a[k] != b[k]
  {
    var s, t := Row(a, r), Row(b, r);
    if j: nat :| j < 8 && j != c && s[j] != t[j] {
      k := 9 * r + j;
    } else {
      ParityDiffers(s, t, c);
      k := 9 * r + 8;
    }
  }

  /** Likewise for columns. */
  lemma SecondInColumn(a: seq<bool>, b: seq<bool>, r: nat, c: nat) returns (k: nat)
    requires |a| == |b| == 45 && ColumnsEven(a) && ColumnsEven(b)
    requires r < 4 && c < 8 && a[9 * r + c] != b[9 * r + c]
    ensures k < 44 && k % 9 == c && k != 9 * r + c && a[k] != b[k]
  {
    var s, t := Column(DataOf(a), c), Column(DataOf(b), c);
    ColumnOf(a, c);
    ColumnOf(b, c);
    if j: nat :| j < 4 && j != r && s[j] != t[j] {
      k := 9 * j + c;
    } else {
      ParityDiffers(s, t, r);
      k := 36 + c;
    }
  }

  lemma ColumnOf(w: seq<bool>, c: nat)
    requires |w| == 45 && c < 8
    ensures Column(DataOf(w), c) == [w[c], w[9 + c], w[18 + c], w[27 + c]]
  {
  }

  /** Equal data means equal words, so different accepted words differ in their data. */
  lemma DataDiffers(a: seq<bool>, b: seq<bool>) returns (r: nat, c: nat)
    requires |a| == |b| == 45 && Accepts(a) && Accepts(b) && a != b
    ensures r < 4 && c < 8 && a[9 * r + c] != b[9 * r + c]
  {
    hide Accepts, Encode, DataOf;
    AcceptsEncodings(a, DataOf(a));
    AcceptsEncodings(b, DataOf(b));
    var s, t := DataOf(a), DataOf(b);
    assert s != t;
    var i: nat :| i < 32 && s[i] != t[i];
    r, c := i / 8, i % 8;
    DataRow(a, r);
    DataRow(b, r);
    assert s[8 * r..8 * r + 8][c] == s[i] && t[8 * r..8 * r + 8][c] == t[i];
  }

  /** Any two different accepted words differ in at least three places. */
  lemma DistanceThree(a: seq<bool>, b: seq<bool>) returns (i: nat, j: nat, k: nat)
    requires |a| == |b| == 45 && Accepts(a) && Accepts(b) && a != b
    ensures i < 45 && j < 45 && k < 45 && i != j && j != k && i != k
    ensures a[i] != b[i] && a[j] != b[j] && a[k] != b[k]
  {
    var r, c := DataDiffers(a, b);
    i := 9 * r + c;
    j := SecondInRow(a, b, r, c);
    k := SecondInColumn(a, b, r, c);
  }

  /** So every corruption of one or two bits is rejected. */
  lemma TwoBitErrorsRejected(d: seq<bool>, i: nat, j: nat)
    requires |d| == 32 && i < 45 && j < 45
    ensures
      var w := Encode(d);
      var bad := w[i := !w[i]];
      !Accepts(bad) && (i != j ==> !Accepts(bad[j := !bad[j]]))
  {
    hide Encode, Accepts;
    var w := Encode(d);
    AcceptsEncodings(w, d);
    var bad := w[i := !w[i]];
    assert bad != w;
    if Accepts(bad) { var x, y, z := DistanceThree(w, bad); }
    var worse := bad[j := !bad[j]];
    if i != j {
      assert worse[i] != w[i];
      if Accepts(worse) { var x, y, z := DistanceThree(w, worse); }
    }
  }

  // ---------------------------------------------------------------------------
  // extract_parities
  // ---------------------------------------------------------------------------

  const WORD32: nat := 0x1_0000_0000

  /** `x ^= b` on the lowest bit. */
  function XorLow(x: nat, b: nat): nat { if b == 0 then x else if x % 2 == 0 then x + 1 else x - 1 }

  lemma XorLowValue(high: nat, p: bool, b: nat)
    requires b < 2
    ensures XorLow(2 * high + Bit(p), b) == 2 * high + Bit(Xor(p, b == 1))
  {
  }

  lemma ParityStep(s: seq<bool>, j: nat)
    requires j < |s|
    ensures Parity(s[..j + 1]) == Xor(Parity(s[..j]), s[j])
  {
    assert s[..j + 1][..j] == s[..j];
  }

  lemma ValueAppend(s: seq<bool>, i: nat)
    requires i < |s| <= 8
    ensures Value(s[..i + 1]) == 2 * Value(s[..i]) + Bit(s[i]) && Value(s[..i]) < 128
  {
    assert s[..i + 1][..i] == s[..i];
    ValueBound(s[..i]);
    PowMonotone(i, 7);
    assert Pow2(7) == 128;
  }

  lemma {:induction false} PowMonotone(i: nat, n: nat)
    requires i <= n
    ensures Pow2(i) <= Pow2(n)
    decreases n
  {
    if i < n { PowMonotone(i, n - 1); }
  }

  function RowParities(d: seq<bool>): (s: seq<bool>)
    requires |d| == 32
    ensures |s| == 4
  {
    seq(4, r requires 0 <= r < 4 => Parity(d[8 * r..8 * r + 8]))
  }

  lemma DataBit(data: nat, d: seq<bool>, k: nat)
    requires |d| == 32 && data == Value(d) && k < 32
    ensures d[31 - k] == (Shr(data, k) % 2 == 1)
  {
    BitsOfValue(d);
    BitTest(data, 32, k);
  }

  method CalculateRows(data: nat, ghost d: seq<bool>) returns (p: nat)
    requires |d| == 32 && data == Value(d)
    ensures p == Value(RowParities(d))
  {
    hide Value, Parity, Shr;
    ghost var rows := RowParities(d);
    p := 0;
    assert Value(rows[..0]) == 0 by { EmptyValue(); }
    for i := 0 to 4
      invariant p == Value(rows[..i])
    {
      ValueAppend(rows, i);
      ghost var row, high := d[8 * i..8 * i + 8], p;
      p := 2 * p % 256;
      assert Parity(row[..0]) == false by { EmptyParity(); }
      for j := 0 to 8
        invariant p == 2 * high + Bit(Parity(row[..j]))
      {
        DataBit(data, d, (3 - i) * 8 + (7 - j));
        ParityStep(row, j);
        XorLowValue(high, Parity(row[..j]), Shr(data, (3 - i) * 8 + (7 - j)) % 2);
        p := XorLow(p, Shr(data, (3 - i) * 8 + (7 - j)) % 2);
      }
      assert row[..8] == row;
    }
    assert rows[..4] == rows;
  }

  method CalculateColumns(data: nat, ghost d: seq<bool>) returns (p: nat)
    requires |d| == 32 && data == Value(d)
    ensures p == Value(ColumnParities(d))
  {
    hide Value, Parity, Shr;
    ghost var cols := ColumnParities(d);
    p := 0;
    assert Value(cols[..0]) == 0 by { EmptyValue(); }
    for i := 0 to 8
      invariant p == Value(cols[..i])
    {
      ValueAppend(cols, i);
      ghost var col, high := Column(d, i), p;
      p := 2 * p % 256;
      assert Parity(col[..0]) == false by { EmptyParity(); }
      for j := 0 to 4
        invariant p == 2 * high + Bit(Parity(col[..j]))
      {
        DataBit(data, d, (3 - j) * 8 + (7 - i));
        ParityStep(col, j);
        XorLowValue(high, Parity(col[..j]), Shr(data, (3 - j) * 8 + (7 - i)) % 2);
        p := XorLow(p, Shr(data, (3 - j) * 8 + (7 - i)) % 2);
      }
      assert col[..4] == col;
    }
    assert cols[..8] == cols;
  }

  lemma EmptyValue()
    ensures Value([]) == 0
  {
  }

  lemma EmptyParity()
    ensures !Parity([])
  {
  }

  /** Bits `8 .. 44` in steps of nine: the four row parities and the stop bit. */
  function SentParities(w: seq<bool>): (s: seq<bool>)
    requires |w| == 45
    ensures |s| == 5
  {
    [w[8], w[17], w[26], w[35], w[44]]
  }

  lemma DataStep(w: seq<bool>, i: nat)
    requires |w| == 45 && i < 4
    ensures DataOf(w)[..8 * i + 8] == DataOf(w)[..8 * i] + Row(w, i)
    ensures Value(DataOf(w)[..8 * i + 8]) == Value(DataOf(w)[..8 * i]) * 256 + Value(Row(w, i))
    ensures Value(DataOf(w)[..8 * i]) < 0x100_0000 && Value(Row(w, i)) < 256
  {
    hide DataOf, Row;
    DataRow(w, i);
    var a, b := DataOf(w)[..8 * i], Row(w, i);
    assert DataOf(w)[..8 * i + 8] == a + b;
    ValueJoins(a, b);
    ValueBound(a);
    ValueBound(b);
    PowMonotone(8 * i, 24);
    assert Pow2(8) == 256;
    PowByte(8);
    PowByte(16);
  }

  lemma Field(word: nat, k: nat, m: nat)
    requires k + m <= 45
    ensures Value(BitsOf(word, 45)[45 - k - m..45 - k]) == Shr(word, k) % Pow2(m)
  {
    hide BitsOf, Shr;
    FieldBits(word, 45, k, m);
    ValueOfBits(Shr(word, k) % Pow2(m), m);
  }

  lemma OneBitField(word: nat, k: nat)
    requires k < 45
    ensures BitsOf(word, 45)[44 - k] == (Shr(word, k) % 2 == 1)
  {
    BitTest(word, 45, k);
  }

  /** The plain data of the 45 lowest bits of `word`, and whether all the parities are right. */
  method ExtractParities(word: nat) returns (ok: bool, data: nat)
    ensures data == Value(DataOf(BitsOf(word, 45)))
    ensures ok == Accepts(BitsOf(word, 45))
  {
    hide BitsOf, Value, Shr, DataOf;
    ghost var w := BitsOf(word, 45);
    data := 0;
    assert Value(DataOf(w)[..0]) == 0 by { EmptyValue(); }
    assert Pow2(8) == 256;
    for i := 0 to 4
      invariant data == Value(DataOf(w)[..8 * i])
    {
      DataStep(w, i);
      Field(word, (4 - i) * 9 + 1, 8);
      data := data * 256 % WORD32 + Shr(word, (4 - i) * 9 + 1) % 256;
    }
    assert DataOf(w)[..32] == DataOf(w);
    var rowParities := ReadRowParities(word);
    var colParities := Shr(word, 1) % 256;
    Field(word, 1, 8);
    var rowsCalculated := CalculateRows(data, DataOf(w));
    rowsCalculated := 2 * rowsCalculated % 256;
    var colsCalculated := CalculateColumns(data, DataOf(w));
    AllAgree(w);
    ok := rowParities == rowsCalculated && colParities == colsCalculated;
  }

  method ReadRowParities(word: nat) returns (p: nat)
    ensures p == Value(SentParities(BitsOf(word, 45)))
  {
    hide BitsOf, Value, Shr;
    ghost var s := SentParities(BitsOf(word, 45));
    p := 0;
    assert Value(s[..0]) == 0 by { EmptyValue(); }
    for i := 0 to 5
      invariant p == Value(s[..i])
    {
      ValueAppend(s, i);
      OneBitField(word, (4 - i) * 9);
      p := 2 * p % 256 + Shr(word, (4 - i) * 9) % 2;
    }
    assert s[..5] == s;
  }

  /** Comparing the two parity numbers is comparing every parity. */
  lemma AllAgree(w: seq<bool>)
    requires |w| == 45
    ensures
      var d := DataOf(w);
      && 2 * Value(RowParities(d)) % 256 == 2 * Value(RowParities(d))
      && (Accepts(w) <==>
          Value(SentParities(w)) == 2 * Value(RowParities(d)) && Value(w[36..44]) == Value(ColumnParities(d)))
  {
    hide Value, Parity;
    var d := DataOf(w);
    var calculated := RowParities(d) + [false];
    assert Value(calculated) == 2 * Value(RowParities(d)) by { ValueZero(RowParities(d)); }
    ValueBound(calculated);
    assert Pow2(5) == 32;
    ValueInjective(SentParities(w), calculated);
    ValueInjective(w[36..44], ColumnParities(d));
    RowsAgree(w);
    ColumnsAgree(w);
  }

  lemma ValueZero(s: seq<bool>)
    ensures Value(s + [false]) == 2 * Value(s)
  {
    assert (s + [false])[..|s|] == s;
  }

  lemma RowsAgree(w: seq<bool>)
    requires |w| == 45
    ensures SentParities(w) == RowParities(DataOf(w)) + [false] <==> RowsEven(w) && !w[44]
  {
    hide Parity, DataOf;
    var d := DataOf(w);
    forall r | 0 <= r < 4 ensures RowParities(d)[r] == Parity(Row(w, r)) { DataRow(w, r); }
    assert forall r :: 0 <= r < 4 ==> SentParities(w)[r] == w[9 * r + 8];
    if SentParities(w) == RowParities(d) + [false] {
      assert SentParities(w)[4] == (RowParities(d) + [false])[4];
      forall r | 0 <= r < 4 ensures Parity(Row(w, r)) == w[9 * r + 8] {
        assert SentParities(w)[r] == (RowParities(d) + [false])[r];
      }
    }
  }

  lemma ColumnsAgree(w: seq<bool>)
    requires |w| == 45
    ensures w[36..44] == ColumnParities(DataOf(w)) <==> ColumnsEven(w)
  {
    hide Parity, DataOf, Column;
    if w[36..44] == ColumnParities(DataOf(w)) {
      forall c | 0 <= c < 8 ensures Parity(Column(DataOf(w), c)) == w[36 + c] {
        assert w[36..44][c] == ColumnParities(DataOf(w))[c];
      }
    }
  }

  // ---------------------------------------------------------------------------
  // Reader to simulator
  // ---------------------------------------------------------------------------

  /** The bits the reader puts on the air. */
  class Air {
    var sent: seq<bool>

    constructor ()
      ensures sent == []
    {
      sent := [];
    }

    method SendByte(b: byte)
      modifies this
      ensures sent == old(sent) + MsbFirst(b)
    {
      hide BitsOf, Shr;
      ghost var s := MsbFirst(b);
      for i := 0 to 8
        invariant sent == old(sent) + s[..i]
      {
        BitTest(b, 8, 7 - i);
        sent := sent + [Shr(b, 7 - i) % 2 == 1];
        assert s[..i + 1] == s[..i] + [s[i]];
      }
      assert s[..8] == s;
    }

    method SendByteWithParity(b: byte)
      modifies this
      ensures sent == old(sent) + MsbFirst(b) + [Parity(MsbFirst(b))]
    {
      hide BitsOf, Shr, Parity;
      ghost var s := MsbFirst(b);
      var parity := 0;
      assert Parity(s[..0]) == false by { EmptyParity(); }
      for i := 0 to 8
        invariant sent == old(sent) + s[..i] && parity == Bit(Parity(s[..i]))
      {
        BitTest(b, 8, 7 - i);
        var bit := Shr(b, 7 - i) % 2;
        sent := sent + [bit == 1];
        ParityStep(s, i);
        assert s[..i + 1] == s[..i] + [s[i]];
        parity := XorLow(parity, bit);
      }
      assert s[..8] == s;
      sent := sent + [parity == 1];
    }

    /** Sends a 32-bit word, given by its bits, as four bytes, their column parities and a stop bit. */
    method SendWord(word: nat)
      requires word < WORD32
      modifies this
      ensures sent == old(sent) + Encode(BitsOf(word, 32))
    {
      hide BitsOf, Shr, Parity, MsbFirst, ByteOf;
      ghost var d := BitsOf(word, 32);
      var bytes: seq<byte> := [];
      ghost var rows := [];
      for i := 0 to 4
        invariant |bytes| == i && sent == old(sent) + rows
        invariant rows == RowsUpTo(d, i)
        invariant forall k :: 0 <= k < i ==> MsbFirst(bytes[k]) == d[8 * k..8 * k + 8]
      {
        WordByte(word, i);
        var b: byte := Shr(word, 24 - 8 * i) % 256;
        bytes := bytes + [b];
        rows := rows + RowBits(d, i);
        SendByteWithParity(b);
        assert MsbFirst(b) + [Parity(MsbFirst(b))] == RowBits(d, i);
      }
      SendByte(XorBytes(bytes[0], bytes[1], bytes[2], bytes[3]));
      XorBytesColumns(bytes, d);
      sent := sent + [false];
      EncodeParts(d);
      assert sent == old(sent) + RowsUpTo(d, 4) + ColumnParities(d) + [false];
    }
  }

  function RowsUpTo(d: seq<bool>, i: nat): seq<bool>
    requires |d| == 32 && i <= 4
  {
    if i == 0 then [] else RowsUpTo(d, i - 1) + RowBits(d, i - 1)
  }

  lemma {:induction false} EncodeParts(d: seq<bool>)
    requires |d| == 32
    ensures Encode(d) == RowsUpTo(d, 4) + ColumnParities(d) + [false]
  {
    hide RowBits, ColumnParities;
    assert RowsUpTo(d, 1) == RowBits(d, 0);
    assert RowsUpTo(d, 2) == RowBits(d, 0) + RowBits(d, 1);
    assert RowsUpTo(d, 3) == RowBits(d, 0) + RowBits(d, 1) + RowBits(d, 2);
    assert RowsUpTo(d, 4) == RowBits(d, 0) + RowBits(d, 1) + RowBits(d, 2) + RowBits(d, 3);
  }

  lemma WordByte(word: nat, i: nat)
    requires i < 4
    ensures MsbFirst(Shr(word, 24 - 8 * i) % 256) == BitsOf(word, 32)[8 * i..8 * i + 8]
  {
    hide BitsOf;
    assert Pow2(8) == 256;
    FieldBits(word, 32, 24 - 8 * i, 8);
  }

  /** `a ^ b ^ c ^ d`. */
  function XorBytes(a: byte, b: byte, c: byte, d: byte): byte {
    var (x, y, z, w) := (MsbFirst(a), MsbFirst(b), MsbFirst(c), MsbFirst(d));
    ByteOf(seq(8, i requires 0 <= i < 8 => Xor(Xor(x[i], y[i]), Xor(z[i], w[i]))))
  }

  lemma XorBytesColumns(bytes: seq<byte>, d: seq<bool>)
    requires |bytes| == 4 && |d| == 32
    requires forall k :: 0 <= k < 4 ==> MsbFirst(bytes[k]) == d[8 * k..8 * k + 8]
    ensures MsbFirst(XorBytes(bytes[0], bytes[1], bytes[2], bytes[3])) == ColumnParities(d)
  {
    hide MsbFirst, ByteOf, Parity;
    var (x, y, z, w) := (MsbFirst(bytes[0]), MsbFirst(bytes[1]), MsbFirst(bytes[2]), MsbFirst(bytes[3]));
    var s := seq(8, i requires 0 <= i < 8 => Xor(Xor(x[i], y[i]), Xor(z[i], w[i])));
    ByteOfBits(s, 0);
    forall c | 0 <= c < 8 ensures s[c] == ColumnParities(d)[c] {
      assert x[c] == d[c] && y[c] == d[8 + c] && z[c] == d[16 + c] && w[c] == d[24 + c];
      FourParity(Column(d, c));
    }
    assert s == ColumnParities(d);
  }

  lemma FourParity(s: seq<bool>)
    requires |s| == 4
    ensures Parity(s) == Xor(Xor(s[0], s[1]), Xor(s[2], s[3]))
  {
    ParityStep(s, 3);
    ParityStep(s, 2);
    ParityStep(s, 1);
    ParityStep(s, 0);
    assert s[..4] == s;
  }

  /** Eight bits from the air, first one highest, and if asked for their parity, which is compared. */
  method SimReadByte(air: seq<bool>, pos: nat, parityCheck: bool) returns (ok: bool, b: byte, next: nat)
    requires pos + 8 <= |air| && (parityCheck ==> pos + 9 <= |air|)
    ensures b == Value(air[pos..pos + 8]) && next == pos + if parityCheck then 9 else 8
    ensures ok == (parityCheck ==> air[pos + 8] == Parity(air[pos..pos + 8]))
  {
    hide Value, Parity, BitsOf, Shr;
    ghost var s := air[pos..pos + 8];
    b := 0;
    assert Value(s[..0]) == 0 by { EmptyValue(); }
    for i := 0 to 8
      invariant b == Value(s[..i])
    {
      ValueAppend(s, i);
      b := 2 * b % 256 + Bit(air[pos + i]);
    }
    assert s[..8] == s;
    ok, next := true, pos + 8;
    if parityCheck {
      var pval := Bit(air[pos + 8]);
      next := pos + 9;
      BitsOfValue(s);
      var parity := 0;
      for i := 0 to 8
        invariant parity == 0 || parity == 1
        invariant Xor(parity == 1, Parity(s[..8 - i])) == Parity(s)
      {
        BitTest(b, 8, i);
        ParityStep(s, 7 - i);
        parity := XorLow(parity, Shr(b, i) % 2);
      }
      assert Parity(s[..0]) == false by { EmptyParity(); }
      if parity != pval {
        ok := false;
      }
    }
  }

  /** The simulator has each row's parity compared, and takes no notice of the outcome. */
  method SimReadWord(air: seq<bool>) returns (ok: bool, word: nat)
    requires |air| == 45
    ensures word == Value(DataOf(air))
    ensures ok == (ColumnsEven(air) && !air[44])
  {
    hide Value, DataOf, Parity;
    var pos := 0;
    word := 0;
    assert Value(DataOf(air)[..0]) == 0 by { EmptyValue(); }
    for i := 0 to 4
      invariant pos == 9 * i && word == Value(DataOf(air)[..8 * i])
    {
      DataStep(air, i);
      var rowOk, b, next := SimReadByte(air, pos, true);
      word := word * 256 % WORD32 + b;
      pos := next;
    }
    assert DataOf(air)[..32] == DataOf(air);
    var _, parities, next := SimReadByte(air, pos, false);
    var calculated := CalculateColumns(word, DataOf(air));
    ValueInjective(air[36..44], ColumnParities(DataOf(air)));
    ColumnsAgree(air);
    ok := parities == calculated && !air[next];
  }

  /** What the reader sends the simulator reads back; but a wrong row parity also passes. */
  lemma RowParityIgnored(d: seq<bool>, r: nat)
    requires |d| == 32 && r < 4
    ensures
      var w := Encode(d);
      var bad := w[9 * r + 8 := !w[9 * r + 8]];
      && ColumnsEven(w) && !w[44]
      && ColumnsEven(bad) && !bad[44] && DataOf(bad) == d && !Accepts(bad)
  {
    hide Encode, Parity;
    var w := Encode(d);
    AcceptsEncodings(w, d);
    TwoBitErrorsRejected(d, 9 * r + 8, 9 * r + 8);
    var bad := w[9 * r + 8 := !w[9 * r + 8]];
    forall q | 0 <= q < 4 ensures Row(bad, q) == Row(w, q) {}
    assert DataOf(bad) == DataOf(w);
  }
}
