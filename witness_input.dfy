/**
 * The first step of `prove`: the JSON text handed to the witness generator.
 * Every value is written as a quoted decimal string: the 256-bit integers via
 * `to_string` and `BigUint::from_str`, field elements by reading their byte
 * representation little-endian, and the 16x3 witness matrix row by row as
 * arrays of three quoted decimals.
 *
 * Beside the builder sits a reader for exactly this layout; the round-trip
 * lemmas say that the text carries every value, under its key, in order.
 */
module WitnessInput {
  import opened Wrappers
  import opened Numerals
  import opened Text

  /** A public key's coordinates, already converted to 256-bit integers. */
  datatype PublicKey = PublicKey(x: U256, y: U256)

  /** A field element's canonical byte representation (`to_repr()`), least significant byte first. */
  type FieldRepr = seq<Byte>

  type Row = r: seq<FieldRepr> | |r| == 3 witness [[], [], []]

  const EmptyRow: Row := [[], [], []]

  /** The 16x3 witness matrix. */
  type Matrix = m: seq<Row> | |m| == 16 witness EmptyRows

  const EmptyRows: seq<Row> := seq(16, _ => EmptyRow)

  datatype WitnessInputs = WitnessInputs(
    index: U32,
    tokenAddress: U256,
    amount: U256,
    newAmount1: U256,
    newAmount2: U256,
    address1: PublicKey,
    address2: PublicKey,
    secret: FieldRepr,
    proof: Matrix)

  // ---------------------------------------------------------------------
  // Canonical encoders
  // ---------------------------------------------------------------------

  /** `BigUint::from_str(&x.to_string()).unwrap()`, printed with `{:?}`; the unwrap never fails. */
  function EncodeU256(x: U256): (s: string)
    ensures s == DecimalString(x)
    ensures ParseDecimal(s) == Some(x as nat)
  {
    DecimalRoundTrip(x);
    var big := ParseDecimal(DecimalString(x)).value;
    DecimalString(big)
  }

  /** `BigUint::from_bytes_le(f.to_repr().as_ref())`, printed in decimal. */
  function EncodeField(repr: FieldRepr): (s: string)
    ensures IsCanonicalDecimal(s)
    ensures ParseDecimal(s) == Some(FromBytesLe(repr))
  {
    DecimalRoundTrip(FromBytesLe(repr));
    DecimalString(FromBytesLe(repr))
  }

  function Quote(s: string): string {
    "\"" + s + "\""
  }

  // ---------------------------------------------------------------------
  // The witness matrix
  // ---------------------------------------------------------------------

  function QuotedCells(row: seq<FieldRepr>): (cells: seq<string>)
    ensures |cells| == |row|
  {
    seq(|row|, i requires 0 <= i < |row| => Quote(EncodeField(row[i])))
  }

  /**
   * One row: `[` then its quoted decimals joined by `,` then `]`. No cell
   * holds a comma, so a row of k cells holds exactly k - 1 of them.
   */
  function RenderRow(row: seq<FieldRepr>): (r: string)
    ensures |r| >= 2 && r[0] == '[' && r[|r| - 1] == ']'
    ensures |row| >= 1 ==> Count(r, ',') == |row| - 1
  {
    var cells := Join(QuotedCells(row), ',');
    CellCommas(row);
    CountAppend("[", cells, ',');
    CountAppend("[" + cells, "]", ',');
    "[" + cells + "]"
  }

  lemma CellCommas(row: seq<FieldRepr>)
    ensures |row| >= 1 ==> Count(Join(QuotedCells(row), ','), ',') == |row| - 1
  {
    if |row| >= 1 {
      QuotedCellsNoComma(row);
      JoinCount(QuotedCells(row), ',');
    }
  }

  lemma QuotedCellsNoComma(row: seq<FieldRepr>)
    ensures NoSeparator(QuotedCells(row), ',')
  {
    forall i | 0 <= i < |row| ensures ',' !in QuotedCells(row)[i] {
      var d := EncodeField(row[i]);
      assert forall k :: 0 <= k < |d| ==> IsDecimalDigit(d[k]);
      assert QuotedCells(row)[i] == ['"'] + d + ['"'];
    }
  }

  function RenderedRows(m: seq<seq<FieldRepr>>): (rows: seq<string>)
    ensures |rows| == |m|
  {
    seq(|m|, i requires 0 <= i < |m| => RenderRow(m[i]))
  }

  /** The rows joined by `,`: the text inside the `proof` array, from the first row's `[` to the last row's `]`. */
  function RenderMatrix(m: seq<seq<FieldRepr>>): (r: string)
    ensures m == [] <==> r == []
    ensures m != [] ==> r[0] == '[' && r[|r| - 1] == ']'
  {
    var rows := RenderedRows(m);
    if m == [] then Join(rows, ',')
    else
      JoinEnds(rows, ',');
      Join(rows, ',')
  }

  /** A join of nonempty pieces starts with the first piece's first character and ends with the last piece's last. */
  lemma {:induction false} JoinEnds(pieces: seq<string>, sep: char)
    requires pieces != [] && forall i :: 0 <= i < |pieces| ==> pieces[i] != []
    ensures var s := Join(pieces, sep);
      |s| > 0 && s[0] == pieces[0][0] && s[|s| - 1] == pieces[|pieces| - 1][|pieces[|pieces| - 1]| - 1]
    decreases |pieces|
  {
    if |pieces| > 1 {
      JoinEnds(pieces[1..], sep);
    }
  }

  /** The integers the matrix stands for, row by row. */
  function MatrixValues(m: seq<seq<FieldRepr>>): (v: seq<seq<nat>>)
    ensures |v| == |m|
    ensures forall i :: 0 <= i < |m| ==> |v[i]| == |m[i]|
  {
    seq(|m|, i requires 0 <= i < |m| => RowValues(m[i]))
  }

  function RowValues(row: seq<FieldRepr>): (v: seq<nat>)
    ensures |v| == |row|
  {
    seq(|row|, j requires 0 <= j < |row| => FromBytesLe(row[j]))
  }

  // ---------------------------------------------------------------------
  // The document
  // ---------------------------------------------------------------------

  /** The keys before `proof`, in the order the witness generator's schema lists them. */
  const ScalarKeys: seq<string> := [
    "index", "token_address", "amount", "new_amount1", "new_amount2",
    "pk_ax1", "pk_ay1", "pk_ax2", "pk_ay2", "secret"]

  /** What follows each scalar member: a comma, a space, a line break and eight spaces. */
  const MemberSeparator: string := ", \n        "

  /** `"key": "value"`. */
  function Member(key: string, value: string): string {
    Quote(key) + ": " + Quote(value)
  }

  function Members(keys: seq<string>, values: seq<string>): string
    requires |keys| == |values|
  {
    if keys == [] then "" else Member(keys[0], values[0]) + MemberSeparator + Members(keys[1..], values[1..])
  }

  /** The scalar values' decimal texts, in key order. */
  function ScalarTexts(w: WitnessInputs): (texts: seq<string>)
    ensures |texts| == |ScalarKeys|
  {
    [ DecimalString(w.index),
      EncodeU256(w.tokenAddress),
      EncodeU256(w.amount),
      EncodeU256(w.newAmount1),
      EncodeU256(w.newAmount2),
      EncodeU256(w.address1.x),
      EncodeU256(w.address1.y),
      EncodeU256(w.address2.x),
      EncodeU256(w.address2.y),
      EncodeField(w.secret) ]
  }

  /** The integers the scalar members stand for, in key order. */
  function ScalarValues(w: WitnessInputs): seq<nat> {
    [ w.index, w.tokenAddress, w.amount, w.newAmount1, w.newAmount2,
      w.address1.x, w.address1.y, w.address2.x, w.address2.y,
      FromBytesLe(w.secret) ]
  }

  const ProofOpening: string := "\"proof\": ["
  const DocumentClosing: string := "] }"

  /**
   * A document: `{ `, the members, then the `proof` array holding the rows,
   * then the closing ` }`. It opens on its first key and ends on the array.
   */
  function Document(keys: seq<string>, texts: seq<string>, m: seq<seq<FieldRepr>>): (s: string)
    requires |keys| == |texts|
    ensures keys != [] ==> "{ " + Quote(keys[0]) + ": " <= s
    ensures EndsWith(s, DocumentClosing)
  {
    var front := "{ " + Members(keys, texts);
    var withOpening := front + ProofOpening;
    var withMatrix := withOpening + RenderMatrix(m);
    if keys != [] then
      MembersOpenWithFirstKey(keys, texts);
      PrefixInContext("{ ", Quote(keys[0]) + ": ", Members(keys, texts), []);
      assert "{ " + Quote(keys[0]) + ": " == "{ " + (Quote(keys[0]) + ": ");
      assert Members(keys, texts) + [] == Members(keys, texts);
      PrefixExtend("{ " + Quote(keys[0]) + ": ", front, ProofOpening);
      PrefixExtend("{ " + Quote(keys[0]) + ": ", withOpening, RenderMatrix(m));
      PrefixExtend("{ " + Quote(keys[0]) + ": ", withMatrix, DocumentClosing);
      EndsWithAppend(withMatrix, DocumentClosing);
      withMatrix + DocumentClosing
    else
      EndsWithAppend(withMatrix, DocumentClosing);
      withMatrix + DocumentClosing
  }

  lemma PrefixExtend(a: string, b: string, c: string)
    requires a <= b
    ensures a <= b + c
  {
    assert (b + c)[..|a|] == b[..|a|];
  }

  lemma EndsWithAppend(a: string, b: string)
    ensures EndsWith(a + b, b)
  {
    assert (a + b)[|a + b| - |b|..] == b;
  }

  predicate EndsWith(s: string, suffix: string) {
    |suffix| <= |s| && s[|s| - |suffix|..] == suffix
  }

  /** Taking apart a concatenation of three texts. */
  lemma Split3(a: string, b: string, c: string)
    ensures a + (b + c) == a + b + c
    ensures (a + b + c)[|a|..] == b + c
    ensures (a + b + c)[|a + b|..] == c
  {
  }

  lemma MembersOpenWithFirstKey(keys: seq<string>, texts: seq<string>)
    requires |keys| == |texts| && keys != []
    ensures Quote(keys[0]) + ": " <= Members(keys, texts)
  {
    var head := Quote(keys[0]) + ": ";
    var rest := Quote(texts[0]) + MemberSeparator + Members(keys[1..], texts[1..]);
    assert Members(keys, texts) == head + rest;
    assert (head + rest)[..|head|] == head;
  }

  lemma PrefixInContext(c: string, a: string, b: string, d: string)
    requires a <= b
    ensures c + a <= c + b + d
  {
    assert (c + b + d)[..|c + a|] == c + a;
  }

  /**
   * The JSON text written to the witness generator's input file: an object
   * opening on the `index` member and closing on the `proof` array.
   */
  function WitnessInputJson(w: WitnessInputs): (s: string)
    ensures "{ " + Quote(ScalarKeys[0]) + ": " <= s
    ensures EndsWith(s, DocumentClosing)
  {
    Document(ScalarKeys, ScalarTexts(w), w.proof)
  }

  // ---------------------------------------------------------------------
  // A reader for the layout
  // ---------------------------------------------------------------------

  /** The length of the run of decimal digits at the front of `s`. */
  function DigitRun(s: string): (n: nat)
    ensures n <= |s|
    ensures forall i :: 0 <= i < n ==> IsDecimalDigit(s[i])
    ensures n < |s| ==> !IsDecimalDigit(s[n])
  {
    if s == [] || !IsDecimalDigit(s[0]) then 0 else 1 + DigitRun(s[1..])
  }

  /** Reads `"digits"` at the front of `s`: the value and what follows. */
  function ReadQuoted(s: string): (r: Option<(nat, string)>)
    ensures r.Some? ==> |r.value.1| < |s|
  {
    if |s| == 0 || s[0] != '"' then None
    else
      var n := DigitRun(s[1..]);
      if n == 0 || n + 1 >= |s| || s[n + 1] != '"' then None
      else
        var digits := s[1..n + 1];
        assert forall i :: 0 <= i < |digits| ==> IsDecimalDigit(digits[i]);
        Some((ParseDecimal(digits).value, s[n + 2..]))
  }

  /** Reads quoted decimals separated by `,`. */
  function ReadCells(s: string): (r: Option<(seq<nat>, string)>)
    ensures r.Some? ==> |r.value.1| < |s|
    decreases |s|
  {
    match ReadQuoted(s)
    case None => None
    case Some((v, rest)) =>
      if |rest| > 0 && rest[0] == ',' then
        match ReadCells(rest[1..])
        case None => None
        case Some((vs, rest')) => Some(([v] + vs, rest'))
      else Some(([v], rest))
  }

  /** Reads one bracketed row of quoted decimals. */
  function ReadRow(s: string): (r: Option<(seq<nat>, string)>)
    ensures r.Some? ==> |r.value.1| < |s|
  {
    if |s| == 0 || s[0] != '[' then None
    else match ReadCells(s[1..])
      case None => None
      case Some((vs, rest)) => if |rest| > 0 && rest[0] == ']' then Some((vs, rest[1..])) else None
  }

  /** Reads bracketed rows separated by `,`. */
  function ReadRows(s: string): (r: Option<(seq<seq<nat>>, string)>)
    ensures r.Some? ==> |r.value.1| < |s|
    decreases |s|
  {
    match ReadRow(s)
    case None => None
    case Some((row, rest)) =>
      if |rest| > 0 && rest[0] == ',' then
        match ReadRows(rest[1..])
        case None => None
        case Some((rows, rest')) => Some(([row] + rows, rest'))
      else Some(([row], rest))
  }

  /** Reads `"key": "digits"` followed by the member separator, for each key in turn. */
  function ReadMembers(keys: seq<string>, s: string): Option<(seq<nat>, string)> {
    if keys == [] then Some(([], s))
    else
      var head := Quote(keys[0]) + ": ";
      if !(head <= s) then None
      else match ReadQuoted(s[|head|..])
        case None => None
        case Some((v, rest)) =>
          if !(MemberSeparator <= rest) then None
          else match ReadMembers(keys[1..], rest[|MemberSeparator|..])
            case None => None
            case Some((vs, rest')) => Some(([v] + vs, rest'))
  }

  /** Reads a document: the values of the given keys in order, then the rows of the `proof` array. */
  function ReadDocument(keys: seq<string>, s: string): Option<(seq<nat>, seq<seq<nat>>)> {
    if !("{ " <= s) then None
    else match ReadMembers(keys, s[2..])
      case None => None
      case Some((scalars, rest)) =>
        if !(ProofOpening <= rest) then None
        else match ReadRows(rest[|ProofOpening|..])
          case None => None
          case Some((rows, rest')) => if rest' == DocumentClosing then Some((scalars, rows)) else None
  }

  /** Reads the witness generator's input: the scalar values in key order, then the matrix rows. */
  function ReadWitnessInputs(s: string): Option<(seq<nat>, seq<seq<nat>>)> {
    ReadDocument(ScalarKeys, s)
  }

  // ---------------------------------------------------------------------
  // Round trips
  // ---------------------------------------------------------------------

  lemma {:induction false} DigitRunOfDigits(d: string, t: string)
    requires forall i :: 0 <= i < |d| ==> IsDecimalDigit(d[i])
    requires t == [] || !IsDecimalDigit(t[0])
    ensures DigitRun(d + t) == |d|
    decreases |d|
  {
    if d == [] {
      assert d + t == t;
    } else {
      assert (d + t)[1..] == d[1..] + t;
      DigitRunOfDigits(d[1..], t);
    }
  }

  /** A quoted decimal reads back as its value, leaving what follows it. */
  lemma ReadQuotedDecimal(n: nat, t: string)
    ensures ReadQuoted(Quote(DecimalString(n)) + t) == Some((n, t))
  {
    var d := DecimalString(n);
    Enclosed('"', d, '"', t);
    DigitRunOfDigits(d, "\"" + t);
    DecimalRoundTrip(n);
  }

  lemma ReadQuotedCell(repr: FieldRepr, t: string)
    ensures ReadQuoted(Quote(EncodeField(repr)) + t) == Some((FromBytesLe(repr), t))
  {
    ReadQuotedDecimal(FromBytesLe(repr), t);
  }

  lemma QuotedCellsCons(row: seq<FieldRepr>)
    requires |row| >= 1
    ensures QuotedCells(row)[0] == Quote(EncodeField(row[0]))
    ensures QuotedCells(row)[1..] == QuotedCells(row[1..])
    ensures RowValues(row) == [FromBytesLe(row[0])] + RowValues(row[1..])
  {
    var cells, rest := QuotedCells(row), QuotedCells(row[1..]);
    assert forall i :: 0 <= i < |rest| ==> cells[i + 1] == rest[i];
    var vals, restVals := RowValues(row), RowValues(row[1..]);
    assert forall i :: 0 <= i < |restVals| ==> vals[i + 1] == restVals[i];
  }

  lemma JoinCons(pieces: seq<string>, t: string)
    requires |pieces| >= 2
    ensures Join(pieces, ',') + t == pieces[0] + ([','] + (Join(pieces[1..], ',') + t))
  {
    var tail := Join(pieces[1..], ',');
    assert Join(pieces, ',') == pieces[0] + [','] + tail;
    Assoc4(pieces[0], [','], tail, t);
  }

  lemma DropPrefix(a: string, b: string)
    ensures (a + b)[|a|..] == b
  {
  }

  lemma Assoc3(a: string, b: string, c: string)
    ensures a + b + c == a + (b + c)
  {
  }

  lemma Assoc4(a: string, b: string, c: string, d: string)
    ensures a + b + c + d == a + (b + (c + d))
  {
  }

  /** The quoted cells of a row read back as the row's values. */
  lemma {:induction false} ReadCellsRoundTrip(row: seq<FieldRepr>, t: string)
    requires |row| >= 1
    requires t == [] || t[0] != ','
    ensures ReadCells(Join(QuotedCells(row), ',') + t) == Some((RowValues(row), t))
    decreases |row|
  {
    var cells := QuotedCells(row);
    QuotedCellsCons(row);
    if |row| == 1 {
      assert Join(cells, ',') + t == cells[0] + t;
      ReadQuotedCell(row[0], t);
      assert RowValues(row[1..]) == [];
      assert RowValues(row) == [FromBytesLe(row[0])];
    } else {
      var tail := Join(QuotedCells(row[1..]), ',') + t;
      JoinCons(cells, t);
      ReadQuotedCell(row[0], [','] + tail);
      assert ([','] + tail)[1..] == tail;
      ReadCellsRoundTrip(row[1..], t);
    }
  }

  /** A rendered row reads back as the row's values. */
  lemma ReadRowRoundTrip(row: seq<FieldRepr>, t: string)
    requires |row| >= 1
    ensures ReadRow(RenderRow(row) + t) == Some((RowValues(row), t))
  {
    var inner := Join(QuotedCells(row), ',');
    assert RenderRow(row) == "[" + inner + "]";
    Enclosed('[', inner, ']', t);
    ReadCellsRoundTrip(row, "]" + t);
  }

  /** Taking apart `open + inner + close + t`. */
  lemma Enclosed(open: char, inner: string, close: char, t: string)
    ensures var s := [open] + inner + [close] + t;
      && s[0] == open && s[1..] == inner + ([close] + t)
      && s[1..|inner| + 1] == inner && s[|inner| + 2..] == t
      && ([close] + t)[0] == close && ([close] + t)[1..] == t
  {
  }

  lemma RenderedRowsCons(m: seq<seq<FieldRepr>>)
    requires |m| >= 1
    ensures RenderedRows(m)[0] == RenderRow(m[0])
    ensures RenderedRows(m)[1..] == RenderedRows(m[1..])
    ensures MatrixValues(m) == [RowValues(m[0])] + MatrixValues(m[1..])
  {
    var rows, rest := RenderedRows(m), RenderedRows(m[1..]);
    assert forall i :: 0 <= i < |rest| ==> rows[i + 1] == rest[i];
    var vals, restVals := MatrixValues(m), MatrixValues(m[1..]);
    assert forall i :: 0 <= i < |restVals| ==> vals[i + 1] == restVals[i];
  }

  /** The rendered matrix reads back as its values: the same rows, in order, each with its cells in order. */
  lemma {:induction false} ReadRowsRoundTrip(m: seq<seq<FieldRepr>>, t: string)
    requires |m| >= 1
    requires forall i :: 0 <= i < |m| ==> |m[i]| >= 1
    requires t == [] || t[0] != ','
    ensures ReadRows(RenderMatrix(m) + t) == Some((MatrixValues(m), t))
    decreases |m|
  {
    var rows := RenderedRows(m);
    RenderedRowsCons(m);
    if |m| == 1 {
      assert RenderMatrix(m) + t == rows[0] + t;
      ReadRowRoundTrip(m[0], t);
      assert MatrixValues(m[1..]) == [];
      assert MatrixValues(m) == [RowValues(m[0])];
    } else {
      var tail := RenderMatrix(m[1..]) + t;
      JoinCons(rows, t);
      ReadRowRoundTrip(m[0], [','] + tail);
      assert ([','] + tail)[1..] == tail;
      ReadRowsRoundTrip(m[1..], t);
    }
  }

  lemma ReadOneMember(key: string, n: nat, t: string)
    ensures Quote(key) + ": " <= Member(key, DecimalString(n)) + t
    ensures ReadQuoted((Member(key, DecimalString(n)) + t)[|Quote(key) + ": "|..]) == Some((n, t))
  {
    var head := Quote(key) + ": ";
    var s := Member(key, DecimalString(n)) + t;
    assert s == head + (Quote(DecimalString(n)) + t);
    assert s[|head|..] == Quote(DecimalString(n)) + t;
    ReadQuotedDecimal(n, t);
  }

  lemma ReadMembersCons(keys: seq<string>, s: string, v: nat, rest: string, vs: seq<nat>, rest': string)
    requires keys != []
    requires Quote(keys[0]) + ": " <= s
    requires ReadQuoted(s[|Quote(keys[0]) + ": "|..]) == Some((v, rest))
    requires MemberSeparator <= rest
    requires ReadMembers(keys[1..], rest[|MemberSeparator|..]) == Some((vs, rest'))
    ensures ReadMembers(keys, s) == Some(([v] + vs, rest'))
  {
  }

  /** The scalar members read back as their values, key by key. */
  lemma {:induction false} ReadMembersRoundTrip(keys: seq<string>, texts: seq<string>, values: seq<nat>, t: string)
    requires |keys| == |texts| == |values|
    requires forall i :: 0 <= i < |texts| ==> texts[i] == DecimalString(values[i])
    ensures ReadMembers(keys, Members(keys, texts) + t) == Some((values, t))
    decreases |keys|
  {
    if keys == [] {
      assert Members(keys, texts) + t == t;
    } else {
      var later := Members(keys[1..], texts[1..]) + t;
      var rest := MemberSeparator + later;
      assert Members(keys, texts) == Member(keys[0], texts[0]) + MemberSeparator + Members(keys[1..], texts[1..]);
      Assoc4(Member(keys[0], texts[0]), MemberSeparator, Members(keys[1..], texts[1..]), t);
      ReadOneMember(keys[0], values[0], rest);
      DropPrefix(MemberSeparator, later);
      ReadMembersRoundTrip(keys[1..], texts[1..], values[1..], t);
      ReadMembersCons(keys, Members(keys, texts) + t, values[0], rest, values[1..], t);
      assert values == [values[0]] + values[1..];
    }
  }

  /** A document reads back as its members' values in key order and its matrix's rows in order. */
  lemma DocumentRoundTrip(keys: seq<string>, texts: seq<string>, values: seq<nat>, m: seq<seq<FieldRepr>>)
    requires |keys| == |texts| == |values|
    requires forall i :: 0 <= i < |texts| ==> texts[i] == DecimalString(values[i])
    requires |m| >= 1 && forall i :: 0 <= i < |m| ==> |m[i]| >= 1
    ensures ReadDocument(keys, Document(keys, texts, m)) == Some((values, MatrixValues(m)))
  {
    var members := Members(keys, texts);
    var matrix := RenderMatrix(m);
    var afterMembers := ProofOpening + (matrix + DocumentClosing);
    var s := Document(keys, texts, m);
    DocumentShape(keys, texts, m);
    Split3("{ ", members, afterMembers);
    ReadMembersRoundTrip(keys, texts, values, afterMembers);
    Split3(ProofOpening, matrix, DocumentClosing);
    ReadRowsRoundTrip(m, DocumentClosing);
    ReadDocumentStep(keys, s, values, afterMembers, MatrixValues(m));
  }

  lemma DocumentShape(keys: seq<string>, texts: seq<string>, m: seq<seq<FieldRepr>>)
    requires |keys| == |texts|
    ensures Document(keys, texts, m)
         == "{ " + (Members(keys, texts) + (ProofOpening + (RenderMatrix(m) + DocumentClosing)))
  {
    var members, matrix := Members(keys, texts), RenderMatrix(m);
    calc {
      Document(keys, texts, m);
      "{ " + members + ProofOpening + matrix + DocumentClosing;
      { assert "{ " + members + ProofOpening == "{ " + (members + ProofOpening); }
      "{ " + (members + ProofOpening) + matrix + DocumentClosing;
      { Assoc4("{ ", members + ProofOpening, matrix, DocumentClosing); }
      "{ " + (members + ProofOpening + (matrix + DocumentClosing));
      { Assoc3(members, ProofOpening, matrix + DocumentClosing); }
      "{ " + (members + (ProofOpening + (matrix + DocumentClosing)));
    }
  }

  lemma ReadDocumentStep(keys: seq<string>, s: string, scalars: seq<nat>, rest: string, rows: seq<seq<nat>>)
    requires "{ " <= s
    requires ReadMembers(keys, s[2..]) == Some((scalars, rest))
    requires ProofOpening <= rest
    requires ReadRows(rest[|ProofOpening|..]) == Some((rows, DocumentClosing))
    ensures ReadDocument(keys, s) == Some((scalars, rows))
  {
  }

  /**
   * The witness generator's input carries every value: reading the document
   * gives the ten scalar values under their keys in schema order, and the
   * witness matrix as its rows of values in row-major order.
   */
  lemma WitnessInputRoundTrip(w: WitnessInputs)
    ensures ReadWitnessInputs(WitnessInputJson(w)) == Some((ScalarValues(w), MatrixValues(w.proof)))
  {
    ScalarTextsAreDecimal(w);
    DocumentRoundTrip(ScalarKeys, ScalarTexts(w), ScalarValues(w), w.proof);
  }

  lemma ScalarTextsAreDecimal(w: WitnessInputs)
    ensures |ScalarTexts(w)| == |ScalarValues(w)|
    ensures forall i :: 0 <= i < |ScalarTexts(w)| ==> ScalarTexts(w)[i] == DecimalString(ScalarValues(w)[i])
  {
  }

  /**
   * The `proof` array holds exactly 16 rows of exactly 3 values, each the little-endian
   * value of its cell.  Together with `WitnessInputRoundTrip`, which reads `MatrixValues(w.proof)`
   * back from the document, this is what lets that round trip be read as "the document carries
   * 16 rows of 3 values, in row-major order of the source matrix".
   */
  lemma MatrixShape(m: Matrix)
    ensures |MatrixValues(m)| == 16
    ensures forall i :: 0 <= i < 16 ==> |MatrixValues(m)[i]| == 3
    ensures forall i, j :: 0 <= i < 16 && 0 <= j < 3 ==> MatrixValues(m)[i][j] == FromBytesLe(m[i][j])
  {
  }
}
