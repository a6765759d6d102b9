/** The reply encoding of the sdbd protocol (sdbd.c) and its byte-by-byte decoder (sdbd_driver.c). */
module Wire {
  import opened CStrings
  import opened Decimal

  /** A row as the database gives it; None is a NULL value. */
  type DbRow = seq<Option<string>>

  type Row = seq<string>

  /** The end marker, `writedata(sock, "0", 2)`: the digit and its terminating NUL. */
  const END := "0\0"

  /** The client's column buffer has room for this many characters and a NUL. */
  const MAX_COLUMN := 4095

  function Shown(v: Option<string>): string {
    match v case None => "" case Some(s) => s
  }

  function ShownRow(row: DbRow): (r: Row)
    ensures |r| == |row| && forall i | 0 <= i < |r| :: r[i] == Shown(row[i])
  {
    seq(|row|, i requires 0 <= i < |row| => Shown(row[i]))
  }

  function EncodeColumn(v: string): string {
    Dec(|v|) + " " + v
  }

  function EncodeColumns(cols: Row): string {
    if cols == [] then "" else EncodeColumn(cols[0]) + EncodeColumns(cols[1..])
  }

  /** What db_callback sends for one row; nothing for a row without columns. */
  function EncodeRow(row: DbRow): string {
    if row == [] then "" else Dec(|row|) + " " + EncodeColumns(ShownRow(row))
  }

  function EncodeRows(rows: seq<DbRow>): string {
    if rows == [] then "" else EncodeRow(rows[0]) + EncodeRows(rows[1..])
  }

  /** What arrives: rows without columns are dropped and NULL values become empty. */
  function Received(rows: seq<DbRow>): seq<Row> {
    if rows == [] then [] else
    (if rows[0] == [] then [] else [ShownRow(rows[0])]) + Received(rows[1..])
  }

  // ---- The decoder as a machine that takes one byte at a time ----

  /**
    Count and Size accumulate a number; Data still needs `need` bytes of a column; `left`
    columns of the current row are missing, the one being read included.
   */
  datatype Decoder =
    | Count(no: nat, rows: seq<Row>)
    | Size(no: nat, left: nat, cols: Row, rows: seq<Row>)
    | Data(need: nat, acc: string, left: nat, cols: Row, rows: seq<Row>)
    | Done(rows: seq<Row>)
    | Overrun

  const START := Count(0, [])

  /** The text that strcpy takes out of the column buffer. */
  function CText(s: string): string {
    s[..IndexOf(s, '\0')]
  }

  function EndColumn(v: string, left: nat, cols: Row, rows: seq<Row>): Decoder {
    if left <= 1 then Count(0, rows + [cols + [CText(v)]]) else Size(0, left - 1, cols + [CText(v)], rows)
  }

  function BeginColumn(size: nat, left: nat, cols: Row, rows: seq<Row>): Decoder {
    if size > MAX_COLUMN then Overrun
    else if size == 0 then EndColumn("", left, cols, rows)
    else Data(size, "", left, cols, rows)
  }

  function Step(d: Decoder, c: char): Decoder {
    match d
    case Count(no, rows) =>
      if IsDigit(c) then Count(10 * no + DigitValue(c), rows)
      else if no > 0 then Size(0, no, [], rows)
      else Done(rows)
    case Size(no, left, cols, rows) =>
      if IsDigit(c) then Size(10 * no + DigitValue(c), left, cols, rows) else BeginColumn(no, left, cols, rows)
    case Data(need, acc, left, cols, rows) =>
      if need <= 1 then EndColumn(acc + [c], left, cols, rows) else Data(need - 1, acc + [c], left, cols, rows)
    case Done(_) => d
    case Overrun => d
  }

  /** Feeding bytes until the reply is complete; also gives the bytes that were not taken. */
  function Decode(d: Decoder, s: string): (Decoder, string)
    decreases |s|
  {
    if d.Done? || d.Overrun? || s == "" then (d, s) else Decode(Step(d, s[0]), s[1..])
  }

  // ---- Decoding number by number and column by column ----

  lemma {:induction false} DecodeCountDigits(no: nat, ds: string, s: string, rows: seq<Row>)
    requires AllDigits(ds)
    ensures Decode(Count(no, rows), ds + s) == Decode(Count(Accumulated(no, ds), rows), s)
    decreases |ds|
  {
    if ds == "" {
      assert ds + s == s;
    } else {
      assert (ds + s)[1..] == ds[1..] + s && (ds + s)[0] == ds[0] && ds[0] in ds;
      AccumulatedFront(no, ds);
      DecodeCountDigits(10 * no + DigitValue(ds[0]), ds[1..], s, rows);
    }
  }

  lemma {:induction false} DecodeSizeDigits(no: nat, ds: string, s: string, left: nat, cols: Row, rows: seq<Row>)
    requires AllDigits(ds)
    ensures Decode(Size(no, left, cols, rows), ds + s) == Decode(Size(Accumulated(no, ds), left, cols, rows), s)
    decreases |ds|
  {
    if ds == "" {
      assert ds + s == s;
    } else {
      assert (ds + s)[1..] == ds[1..] + s && (ds + s)[0] == ds[0] && ds[0] in ds;
      AccumulatedFront(no, ds);
      DecodeSizeDigits(10 * no + DigitValue(ds[0]), ds[1..], s, left, cols, rows);
    }
  }

  /** The number read when the accumulator starts at `no`. */
  function Accumulated(no: nat, ds: string): nat
    requires AllDigits(ds)
  {
    if ds == "" then no else 10 * Accumulated(no, ds[..|ds| - 1]) + DigitValue(ds[|ds| - 1])
  }

  lemma {:induction false} AccumulatedFront(no: nat, ds: string)
    requires ds != "" && AllDigits(ds)
    ensures Accumulated(no, ds) == Accumulated(10 * no + DigitValue(ds[0]), ds[1..])
    decreases |ds|
  {
    var k := |ds| - 1;
    if k > 0 {
      AccumulatedFront(no, ds[..k]);
      assert ds[..k][1..] == ds[1..][..k - 1];
    } else {
      assert ds[..0] == "" && ds[1..] == "";
    }
  }

  lemma {:induction false} AccumulatedValue(ds: string)
    requires AllDigits(ds)
    ensures Accumulated(0, ds) == Value(ds)
  {
    if ds != "" { AccumulatedValue(ds[..|ds| - 1]); }
  }

  /** A row count and the byte that ends it. */
  lemma DecodeCount(ds: string, c: char, s: string, rows: seq<Row>)
    requires AllDigits(ds) && !IsDigit(c)
    ensures Decode(Count(0, rows), ds + [c] + s) ==
      if Value(ds) > 0 then Decode(Size(0, Value(ds), [], rows), s) else (Done(rows), s)
  {
    assert ds + [c] + s == ds + ([c] + s);
    DecodeCountDigits(0, ds, [c] + s, rows);
    AccumulatedValue(ds);
    assert ([c] + s)[1..] == s;
  }

  /** A column size and the byte that ends it. */
  lemma DecodeSize(ds: string, c: char, s: string, left: nat, cols: Row, rows: seq<Row>)
    requires AllDigits(ds) && !IsDigit(c)
    ensures Decode(Size(0, left, cols, rows), ds + [c] + s) == Decode(BeginColumn(Value(ds), left, cols, rows), s)
  {
    assert ds + [c] + s == ds + ([c] + s);
    DecodeSizeDigits(0, ds, [c] + s, left, cols, rows);
    AccumulatedValue(ds);
    assert ([c] + s)[1..] == s;
  }

  lemma {:induction false} DecodeData(
    need: nat, acc: string, v: string, s: string, left: nat, cols: Row, rows: seq<Row>)
    requires need == |v| > 0
    ensures Decode(Data(need, acc, left, cols, rows), v + s) == Decode(EndColumn(acc + v, left, cols, rows), s)
    decreases |v|
  {
    assert (v + s)[0] == v[0] && (v + s)[1..] == v[1..] + s;
    assert acc + v == acc + [v[0]] + v[1..];
    if need == 1 {
      assert v[1..] == "" && v == [v[0]];
      assert v[1..] + s == s;
    } else {
      DecodeData(need - 1, acc + [v[0]], v[1..], s, left, cols, rows);
    }
  }

  /** A column of any content, the empty one included. */
  lemma DecodeColumn(v: string, s: string, left: nat, cols: Row, rows: seq<Row>)
    requires |v| <= MAX_COLUMN
    ensures Decode(BeginColumn(|v|, left, cols, rows), v + s) == Decode(EndColumn(v, left, cols, rows), s)
  {
    if v == "" {
      assert v + s == s;
    } else {
      DecodeData(|v|, "", v, s, left, cols, rows);
      assert "" + v == v;
    }
  }

  // ---- Round trip ----

  /** Values that fit the client's buffer and hold no NUL. */
  predicate Sendable(row: DbRow) {
    forall v | v in row && v.Some? :: |v.value| <= 4095 && NulFree(v.value)
  }

  // ---- What the caller gets for what the database gave ----

  /** Column for column the values of the row, with the empty text for a NULL value. */
  predicate ShowsRow(row: DbRow, cells: Row) {
    |cells| == |row| && forall k | 0 <= k < |row| :: cells[k] == if row[k].None? then "" else row[k].value
  }

  /** Row for row in the same order, the rows without columns left out. */
  predicate Shows(rows: seq<DbRow>, got: seq<Row>) {
    if rows == [] then got == []
    else if rows[0] == [] then Shows(rows[1..], got)
    else got != [] && ShowsRow(rows[0], got[0]) && Shows(rows[1..], got[1..])
  }

  lemma {:induction false} ReceivedShows(rows: seq<DbRow>)
    ensures Shows(rows, Received(rows))
  {
    if rows != [] {
      ReceivedShows(rows[1..]);
      assert [] + Received(rows[1..]) == Received(rows[1..]);
      assert rows[0] != [] ==> Received(rows)[1..] == Received(rows[1..]);
    }
  }

  /** There is only one way to show the rows. */
  lemma {:induction false} ShowsIsReceived(rows: seq<DbRow>, got: seq<Row>)
    requires Shows(rows, got)
    ensures got == Received(rows)
  {
    if rows != [] {
      if rows[0] == [] {
        ShowsIsReceived(rows[1..], got);
      } else {
        ShowsIsReceived(rows[1..], got[1..]);
        assert got[0] == ShownRow(rows[0]);
        assert got == [got[0]] + got[1..];
      }
    }
  }

  lemma CTextNulFree(v: string)
    requires NulFree(v)
    ensures CText(v) == v
  {
    IndexOfIs(v, '\0', |v|);
  }

  lemma ColumnRoundTrip(v: string, tail: string, left: nat, cols: Row, rows: seq<Row>)
    requires |v| <= MAX_COLUMN && NulFree(v)
    ensures Decode(Size(0, left, cols, rows), EncodeColumn(v) + tail) == Decode(EndColumn(v, left, cols, rows), tail)
    ensures CText(v) == v
  {
    hide Decode, CText, Dec, Value;
    assert EncodeColumn(v) + tail == Dec(|v|) + [' '] + (v + tail);
    DecodeSize(Dec(|v|), ' ', v + tail, left, cols, rows);
    ValueOfDec(|v|);
    DecodeColumn(v, tail, left, cols, rows);
    CTextNulFree(v);
  }

  lemma {:induction false} ColumnsRoundTrip(vs: Row, s: string, cols: Row, rows: seq<Row>)
    requires vs != [] && forall v | v in vs :: |v| <= MAX_COLUMN && NulFree(v)
    ensures Decode(Size(0, |vs|, cols, rows), EncodeColumns(vs) + s) == Decode(Count(0, rows + [cols + vs]), s)
    decreases |vs|
  {
    hide Decode, CText, EncodeColumn;
    var v := vs[0];
    assert v in vs;
    var tail := EncodeColumns(vs[1..]) + s;
    assert EncodeColumns(vs) + s == EncodeColumn(v) + tail;
    ColumnRoundTrip(v, tail, |vs|, cols, rows);
    if |vs| == 1 {
      assert vs == [v] && EncodeColumns(vs[1..]) == "" && tail == s;
    } else {
      ColumnsRoundTrip(vs[1..], s, cols + [v], rows);
      assert cols + [v] + vs[1..] == cols + vs;
    }
  }

  lemma RowRoundTrip(row: DbRow, s: string, rows: seq<Row>)
    requires Sendable(row)
    ensures Decode(Count(0, rows), EncodeRow(row) + s)
      == Decode(Count(0, rows + if row == [] then [] else [ShownRow(row)]), s)
  {
    hide Decode;
    if row == [] {
      assert rows + [] == rows && EncodeRow(row) + s == s;
    } else {
      var vs := ShownRow(row);
      var tail := EncodeColumns(vs) + s;
      assert EncodeRow(row) + s == Dec(|row|) + [' '] + tail;
      DecodeCount(Dec(|row|), ' ', tail, rows);
      ValueOfDec(|row|);
      forall v | v in vs ensures |v| <= MAX_COLUMN && NulFree(v) {
        var i :| 0 <= i < |vs| && vs[i] == v;
        assert row[i] in row;
      }
      ColumnsRoundTrip(vs, s, [], rows);
      assert [] + vs == vs;
    }
  }

  lemma {:induction false} RowsRoundTrip(sent: seq<DbRow>, s: string, rows: seq<Row>)
    requires forall row | row in sent :: Sendable(row)
    ensures Decode(Count(0, rows), EncodeRows(sent) + s) == Decode(Count(0, rows + Received(sent)), s)
    decreases |sent|
  {
    hide Decode, EncodeRow, Sendable;
    if sent == [] {
      assert rows + [] == rows && EncodeRows(sent) + s == s;
    } else {
      var tail := EncodeRows(sent[1..]) + s;
      assert EncodeRows(sent) + s == EncodeRow(sent[0]) + tail;
      RowRoundTrip(sent[0], tail, rows);
      var first := if sent[0] == [] then [] else [ShownRow(sent[0])];
      RowsRoundTrip(sent[1..], s, rows + first);
      assert rows + first + Received(sent[1..]) == rows + Received(sent);
    }
  }

  /** What the server sends for a whole reply. */
  function Reply(rows: seq<DbRow>): string {
    EncodeRows(rows) + END
  }

  /**
    Wire round trip: whatever follows a reply on the channel, decoding gives the rows that were
    sent, NULL as the empty string and rows without columns dropped, and takes exactly the reply.
   */
  lemma ReplyRoundTrip(sent: seq<DbRow>, rest: string)
    requires forall row | row in sent :: Sendable(row)
    ensures Decode(START, Reply(sent) + rest) == (Done(Received(sent)), rest)
    ensures Shows(sent, Received(sent))
    ensures forall got | Shows(sent, got) :: got == Received(sent)
  {
    hide Decode, EncodeRows, Sendable, Shows;
    ReceivedShows(sent);
    forall got | Shows(sent, got) ensures got == Received(sent) { ShowsIsReceived(sent, got); }
    assert Reply(sent) + rest == EncodeRows(sent) + (END + rest);
    RowsRoundTrip(sent, END + rest, []);
    assert [] + Received(sent) == Received(sent);
    assert END + rest == "0" + ['\0'] + rest;
    DecodeCount("0", '\0', rest, Received(sent));
    assert "0"[..0] == "" && Value("0") == 0;
  }

  /** Rows that have columns arrive one by one, cell by cell. */
  lemma CellsArrive(sent: seq<DbRow>, cells: seq<Row>, rest: string)
    requires forall row | row in sent :: row != [] && Sendable(row)
    requires |cells| == |sent| && forall i | 0 <= i < |sent| :: |cells[i]| == |sent[i]|
    requires forall i, k | 0 <= i < |sent| && 0 <= k < |sent[i]| ::
      cells[i][k] == if sent[i][k].None? then "" else sent[i][k].value
    ensures Decode(START, Reply(sent) + rest) == (Done(cells), rest)
  {
    hide Decode, Reply, Sendable;
    ReplyRoundTrip(sent, rest);
    CellsShow(sent, cells);
  }

  lemma {:induction false} CellsShow(sent: seq<DbRow>, cells: seq<Row>)
    requires forall row | row in sent :: row != []
    requires |cells| == |sent| && forall i | 0 <= i < |sent| :: ShowsRow(sent[i], cells[i])
    ensures Shows(sent, cells)
  {
    hide ShowsRow;
    if sent != [] {
      assert forall row | row in sent[1..] :: row in sent;
      assert sent[0] in sent && ShowsRow(sent[0], cells[0]);
      CellsShow(sent[1..], cells[1..]);
    }
  }

  /** A reply as it stands on the wire: count, sizes and values of one row, and the end. */
  lemma ReplyLooks(a: string)
    requires |a| < 10
    ensures Reply([]) == "0\0"
    ensures Reply([[Some(a), None]]) == "2 " + ["0123456789"[|a|]] + " " + a + "0 " + "0\0"
  {
    var row := [Some(a), None];
    DecIsWritten(2);
    DecIsWritten(0);
    DecIsWritten(|a|);
    var cols := ShownRow(row);
    assert cols == [a, ""] && cols[1..] == [""] && [""][1..] == [];
    assert EncodeColumn("") == "0 ";
    assert EncodeColumns([""]) == "0 ";
    assert EncodeColumns(cols) == EncodeColumn(a) + "0 ";
    assert [row][1..] == [];
    assert EncodeRows([row]) == EncodeRow(row);
  }

  lemma {:induction false} DecodeSplit(d: Decoder, a: string, b: string)
    ensures var (d1, rest) := Decode(d, a);
      Decode(d, a + b) == if rest == "" then Decode(d1, b) else (d1, rest + b)
    decreases |a|
  {
    if a == "" {
      assert a + b == b;
    } else if !d.Done? && !d.Overrun? {
      assert (a + b)[0] == a[0] && (a + b)[1..] == a[1..] + b;
      DecodeSplit(Step(d, a[0]), a[1..], b);
    }
  }

  /** No proper beginning of a reply is already a whole reply, so the client never stops early. */
  lemma ReplyIsPrefixFree(sent: seq<DbRow>, n: nat)
    requires n < |Reply(sent)| && forall row | row in sent :: Sendable(row)
    ensures var (d, rest) := Decode(START, Reply(sent)[..n]); !d.Done? && !d.Overrun? && rest == ""
  {
    hide Decode, EncodeRows, Sendable;
    var s := Reply(sent);
    ReplyRoundTrip(sent, "");
    assert s + "" == s && s == s[..n] + s[n..];
    DecodeSplit(START, s[..n], s[n..]);
    var (d, rest) := Decode(START, s[..n]);
    DecodeTakesAll(START, s[..n]);
    if d.Done? || d.Overrun? {
      DecodeStopped(d, s[n..]);
    }
  }

  lemma DecodeStopped(d: Decoder, s: string)
    requires d.Done? || d.Overrun?
    ensures Decode(d, s) == (d, s)
  {
  }

  lemma {:induction false} DecodeTakesAll(d: Decoder, s: string)
    ensures var (d1, rest) := Decode(d, s); d1.Done? || d1.Overrun? || rest == ""
    decreases |s|
  {
    if !d.Done? && !d.Overrun? && s != "" { DecodeTakesAll(Step(d, s[0]), s[1..]); }
  }

  lemma {:induction false} EncodeColumnsAppend(cols: Row, v: string)
    ensures EncodeColumns(cols + [v]) == EncodeColumns(cols) + EncodeColumn(v)
  {
    if cols == [] {
      assert [v][1..] == [];
    } else {
      assert (cols + [v])[1..] == cols[1..] + [v];
      EncodeColumnsAppend(cols[1..], v);
    }
  }

  lemma {:induction false} EncodeRowsAppend(rows: seq<DbRow>, row: DbRow)
    ensures EncodeRows(rows + [row]) == EncodeRows(rows) + EncodeRow(row)
    ensures Received(rows + [row]) == Received(rows) + if row == [] then [] else [ShownRow(row)]
  {
    hide EncodeRow, ShownRow;
    if rows == [] {
      assert [row][1..] == [] && rows + [row] == [row];
      assert Received([row]) == if row == [] then [] else [ShownRow(row)];
    } else {
      var both := rows + [row];
      assert both[1..] == rows[1..] + [row] && both[0] == rows[0];
      EncodeRowsAppend(rows[1..], row);
      assert EncodeRows(both) == EncodeRow(rows[0]) + EncodeRows(both[1..]);
    }
  }
}
