/**
  The socket loops of sdbd.c and sdbd_driver.c.  A channel holds the bytes under way; each
  `read` and `write` moves as many of them as the transport likes, but at least one.
 */
module Channels {
  import opened CStrings
  import opened Decimal
  import opened Wire

  class Channel {
    var data: string

    constructor ()
      ensures data == ""
    {
      data := "";
    }

    /** `read(fd, b + at, n)` on a channel that is not empty (it blocks on an empty one). */
    method Read(b: array<char>, at: nat, n: nat) returns (j: nat)
      requires at + n <= b.Length && n > 0 && data != ""
      modifies this, b
      ensures 1 <= j <= n && j <= |old(data)| && data == old(data)[j..]
      ensures forall k | 0 <= k < b.Length :: b[k] == if at <= k < at + j then old(data)[k - at] else old(b[k])
    {
      j :| 1 <= j <= n && j <= |data|;
      forall k | 0 <= k < j {
        b[at + k] := data[k];
      }
      data := data[j..];
    }

    /** `write(fd, s, |s|)`. */
    method Write(s: string) returns (j: nat)
      requires s != ""
      modifies this
      ensures 1 <= j <= |s| && data == old(data) + s[..j]
    {
      j :| 1 <= j <= |s|;
      data := data + s[..j];
    }
  }

  /** readdata: exactly the next `n` bytes, however the transport cuts them. */
  method ReadData(ch: Channel, b: array<char>, n: nat)
    requires n <= b.Length && n <= |ch.data|
    modifies ch, b
    ensures ch.data == old(ch.data)[n..]
    ensures forall k | 0 <= k < b.Length :: b[k] == if k < n then old(ch.data)[k] else old(b[k])
  {
    var i := 0;
    ghost var all := ch.data;
    while i < n
      invariant i <= n && ch.data == all[i..]
      invariant forall k | 0 <= k < b.Length :: b[k] == if k < i then all[k] else old(b[k])
    {
      var j := ch.Read(b, i, n - i);
      assert all[i..][j..] == all[i + j..];
      i := i + j;
    }
  }

  /** writedata: exactly the first `n` bytes of `b` are appended, however the transport cuts them. */
  method WriteData(ch: Channel, b: string, n: nat)
    requires n <= |b|
    modifies ch
    ensures ch.data == old(ch.data) + b[..n]
  {
    var i := 0;
    while i < n
      invariant i <= n && ch.data == old(ch.data) + b[..i]
    {
      var j := ch.Write(b[i..n]);
      WrittenSoFar(old(ch.data), b, i, j, n);
      i := i + j;
    }
  }

  lemma WrittenSoFar(before: string, b: string, i: nat, j: nat, n: nat)
    requires i + j <= n <= |b|
    ensures before + b[..i] + b[i..n][..j] == before + b[..i + j]
  {
    assert b[..i] + b[i..n][..j] == b[..i + j];
  }

  method WriteString(ch: Channel, b: string)
    modifies ch
    ensures ch.data == old(ch.data) + b
  {
    WriteData(ch, b, |b|);
  }

  method ReadChar(ch: Channel) returns (c: char)
    requires ch.data != ""
    modifies ch
    ensures c == old(ch.data)[0] && ch.data == old(ch.data)[1..]
  {
    var b := new char[1];
    ReadData(ch, b, 1);
    c := b[0];
  }

  /** readno: the digits up to the first other byte, which is taken as well. */
  method ReadNo(ch: Channel) returns (no: nat)
    requires DigitCount(ch.data) < |ch.data|
    modifies ch
    ensures var k := DigitCount(old(ch.data));
      no == Value(old(ch.data)[..k]) && ch.data == old(ch.data)[k + 1..]
  {
    hide DigitCount;
    no := 0;
    ghost var all := ch.data;
    ghost var k := DigitCount(all);
    ghost var i := 0;
    DigitCountSays(all);
    while true
      invariant i <= k && ch.data == all[i..] && AllDigits(all[..i]) && no == Value(all[..i])
      decreases |ch.data|
    {
      var c := ReadChar(ch);
      if !IsDigit(c) { break; }
      ValueStep(all, i, k);
      no := 10 * no + DigitValue(c);
      i := i + 1;
    }
    assert i == k;
  }

  lemma DigitCountSays(s: string)
    ensures var k := DigitCount(s);
      AllDigits(s[..k]) && (forall i | 0 <= i < k :: IsDigit(s[i])) && (k < |s| ==> !IsDigit(s[k]))
  {
    var k := DigitCount(s);
    assert forall i | 0 <= i < k :: s[i] == s[..k][i];
  }

  lemma ValueStep(s: string, i: nat, k: nat)
    requires i < |s| && AllDigits(s[..i]) && IsDigit(s[i])
    ensures AllDigits(s[..i + 1]) && Value(s[..i + 1]) == 10 * Value(s[..i]) + DigitValue(s[i])
  {
    assert s[..i + 1][..i] == s[..i];
    assert s[..i + 1] == s[..i] + [s[i]];
  }

  /** A decoder that will finish finds a byte that ends the number it is reading. */
  lemma NumberEnds(d: Decoder, s: string)
    requires Decode(d, s).0.Done? && (d.Count? || d.Size?)
    ensures DigitCount(s) < |s|
    decreases |s|
  {
    if IsDigit(s[0]) {
      NumberEnds(Step(d, s[0]), s[1..]);
      DigitCountSays(s[1..]);
      var k := DigitCount(s[1..]) + 1;
      assert forall i | 0 <= i < k :: IsDigit(s[i]) by {
        assert forall i | 1 <= i < k :: s[i] == s[1..][i - 1];
      }
      assert s[k] == s[1..][k - 1];
      DigitCountIs(s, k);
    } else {
      DigitCountIs(s, 0);
    }
  }

  lemma SplitNumber(s: string)
    requires DigitCount(s) < |s|
    ensures var k := DigitCount(s);
      AllDigits(s[..k]) && !IsDigit(s[k]) && s == s[..k] + [s[k]] + s[k + 1..]
  {
    hide DigitCount, AllDigits;
    CutOut(s, DigitCount(s));
  }

  /** Taking a row count off the channel is what the decoder does. */
  lemma CountTaken(s: string, rows: seq<Row>)
    requires Decode(Count(0, rows), s).0.Done?
    ensures DigitCount(s) < |s|
    ensures var k := DigitCount(s); var no := Value(s[..k]);
      Decode(Count(0, rows), s) ==
        if no > 0 then Decode(Size(0, no, [], rows), s[k + 1..]) else (Done(rows), s[k + 1..])
  {
    hide Decode, DigitCount, Value;
    NumberEnds(Count(0, rows), s);
    SplitNumber(s);
    var k := DigitCount(s);
    DecodeCount(s[..k], s[k], s[k + 1..], rows);
  }

  lemma SizeTaken(s: string, left: nat, cols: Row, rows: seq<Row>)
    requires Decode(Size(0, left, cols, rows), s).0.Done?
    ensures DigitCount(s) < |s|
    ensures var k := DigitCount(s); var no := Value(s[..k]);
      no <= MAX_COLUMN && no <= |s[k + 1..]|
      && Decode(Size(0, left, cols, rows), s)
         == Decode(EndColumn(s[k + 1..][..no], left, cols, rows), s[k + 1..][no..])
  {
    hide Decode, DigitCount, Value;
    NumberEnds(Size(0, left, cols, rows), s);
    SplitNumber(s);
    var k := DigitCount(s);
    var no := Value(s[..k]);
    var rest := s[k + 1..];
    DecodeSize(s[..k], s[k], rest, left, cols, rows);
    ColumnBytesThere(no, rest, left, cols, rows);
    assert rest[..no] + rest[no..] == rest;
    DecodeColumn(rest[..no], rest[no..], left, cols, rows);
  }

  lemma ColumnBytesThere(no: nat, s: string, left: nat, cols: Row, rows: seq<Row>)
    requires Decode(BeginColumn(no, left, cols, rows), s).0.Done?
    ensures no <= MAX_COLUMN && no <= |s|
  {
    if no > MAX_COLUMN {
      DecodeStopped(Overrun, s);
    } else if no > 0 {
      DataBytesThere(Data(no, "", left, cols, rows), s);
    }
  }

  lemma {:induction false} DataBytesThere(d: Decoder, s: string)
    requires d.Data? && Decode(d, s).0.Done?
    ensures d.need <= |s|
    decreases |s|
  {
    if d.need > 1 { DataBytesThere(Step(d, s[0]), s[1..]); }
  }

  /**
    The decoding loop of sdbd_driver: on a channel from which the decoder can take a whole
    reply, the rows handed to the callback, their number and the bytes left over are the decoder's.
   */
  method DecodeReply(ch: Channel) returns (nrow: nat, out: seq<Row>)
    requires Decode(START, ch.data).0.Done?
    modifies ch
    ensures (Done(out), ch.data) == Decode(START, old(ch.data)) && nrow == |out|
  {
    hide Decode, DigitCount, Value, CText;
    ghost var whole := Decode(START, ch.data);
    nrow := 0;
    out := [];
    CountTaken(ch.data, out);
    var ncol := ReadNo(ch);
    while ncol > 0
      invariant nrow == |out|
      invariant whole == if ncol > 0 then Decode(Size(0, ncol, [], out), ch.data) else (Done(out), ch.data)
      decreases |ch.data| + if ncol > 0 then 1 else 0
    {
      ghost var before := |ch.data|;
      var coldata := ReadColumns(ch, ncol, out);
      out := out + [coldata];
      nrow := nrow + 1;
      CountTaken(ch.data, out);
      ncol := ReadNo(ch);
    }
  }

  /** The inner loop of sdbd_driver over the columns of one row. */
  method ReadColumns(ch: Channel, ncol: nat, ghost out: seq<Row>) returns (coldata: Row)
    requires ncol > 0 && Decode(Size(0, ncol, [], out), ch.data).0.Done?
    modifies ch
    ensures Decode(Size(0, ncol, [], out), old(ch.data)) == Decode(Count(0, out + [coldata]), ch.data)
    ensures |ch.data| < |old(ch.data)|
  {
    hide Decode, DigitCount, Value, CText;
    ghost var whole := Decode(Size(0, ncol, [], out), ch.data);
    coldata := [];
    var b := new char[4096];
    var i := 0;
    while i < ncol
      invariant i <= ncol
      invariant i < ncol ==> whole == Decode(Size(0, ncol - i, coldata, out), ch.data)
      invariant i == ncol ==> whole == Decode(Count(0, out + [coldata]), ch.data)
      invariant |ch.data| + i <= |old(ch.data)|
    {
      SizeTaken(ch.data, ncol - i, coldata, out);
      var colsize := ReadNo(ch);
      ghost var value := ch.data[..colsize];
      Clear(b);
      ReadData(ch, b, colsize);
      BufferText(b[..], value);
      coldata := coldata + [CText(b[..])];
      i := i + 1;
    }
  }

  /** `memset(b, 0, sizeof b)`. */
  method Clear(b: array<char>)
    modifies b
    ensures forall k | 0 <= k < b.Length :: b[k] == '\0'
  {
    forall k | 0 <= k < b.Length { b[k] := '\0'; }
  }

  lemma BufferText(b: string, value: string)
    requires |value| < |b| && b[|value|] == '\0' && forall k | 0 <= k < |value| :: b[k] == value[k]
    ensures CText(b) == CText(value)
  {
    hide IndexOf;
    IndexOfFirst(value, '\0');
    var n := IndexOf(value, '\0');
    IndexOfIs(b, '\0', n);
  }

  // ---- The server's side ----

  /** db_callback sends one row. */
  method DbCallback(ch: Channel, row: DbRow)
    modifies ch
    ensures ch.data == old(ch.data) + EncodeRow(row)
  {
    hide EncodeColumn, Dec;
    ghost var before := ch.data;
    if |row| == 0 {
      assert before + EncodeRow(row) == before;
      return;
    }
    ghost var vs := ShownRow(row);
    var i := 0;
    WriteString(ch, Dec(|row|) + " ");
    ghost var head := ch.data;
    assert vs[..0] == [] && head + EncodeColumns(vs[..0]) == head;
    while i < |row|
      invariant i <= |row| && ch.data == head + EncodeColumns(vs[..i])
    {
      var q := Shown(row[i]);
      WriteString(ch, Dec(|q|) + " ");
      WriteString(ch, q);
      CallbackStep(head, vs, i);
      i := i + 1;
    }
    assert vs[..i] == vs;
    assert ch.data == before + EncodeRow(row);
  }

  lemma CallbackStep(head: string, vs: Row, i: nat)
    requires i < |vs|
    ensures head + EncodeColumns(vs[..i]) + (Dec(|vs[i]|) + " ") + vs[i] == head + EncodeColumns(vs[..i + 1])
  {
    EncodeColumnsAppend(vs[..i], vs[i]);
    assert vs[..i + 1] == vs[..i] + [vs[i]];
    assert EncodeColumns(vs[..i]) + (Dec(|vs[i]|) + " ") + vs[i] == EncodeColumns(vs[..i]) + EncodeColumn(vs[i]);
  }

  /** doquery: the rows of the query and the end marker, whatever the return code. */
  method SendReply(ch: Channel, rows: seq<DbRow>)
    modifies ch
    ensures ch.data == old(ch.data) + Reply(rows)
  {
    hide EncodeRow, EncodeRows;
    ghost var before := ch.data;
    var i := 0;
    EncodeRowsNothing(before);
    assert rows[..0] == [];
    while i < |rows|
      invariant i <= |rows| && ch.data == before + EncodeRows(rows[..i])
    {
      DbCallback(ch, rows[i]);
      EncodeRowsAppend(rows[..i], rows[i]);
      assert rows[..i + 1] == rows[..i] + [rows[i]];
      i := i + 1;
    }
    assert rows[..i] == rows;
    WriteData(ch, "0\0", 2);
    assert "0\0"[..2] == END;
  }

  lemma EncodeRowsNothing(before: string)
    ensures before + EncodeRows([]) == before
  {
  }

  /** chomp cuts the text in the buffer at the first carriage return or newline. */
  method Chomp(p: array<char>)
    requires exists k :: 0 <= k < p.Length && p[k] == '\0'
    modifies p
    ensures CText(p[..]) == ChompText(CText(old(p[..]))) && exists k :: 0 <= k < p.Length && p[k] == '\0'
  {
    hide ChompText, CText;
    ghost var before := p[..];
    ghost var z :| 0 <= z < p.Length && p[z] == '\0';
    var i := 0;
    while p[i] != '\0'
      invariant i <= z && p[..] == before
      invariant forall k | 0 <= k < i :: p[k] != '\0' && p[k] != '\r' && p[k] != '\n'
      decreases p.Length - i
    {
      if p[i] == '\r' || p[i] == '\n' {
        p[i] := '\0';
        ChompedHere(before, p[..], i);
        return;
      }
      i := i + 1;
    }
    NothingToChomp(p[..], i);
  }

  function ChompText(s: string): string {
    if s == "" || s[0] == '\r' || s[0] == '\n' then "" else [s[0]] + ChompText(s[1..])
  }

  lemma {:induction false} ChompTextIs(s: string, i: nat)
    requires i <= |s| && (i < |s| ==> s[i] == '\r' || s[i] == '\n')
    requires forall k | 0 <= k < i :: s[k] != '\r' && s[k] != '\n'
    ensures ChompText(s) == s[..i]
  {
    if i > 0 {
      ChompTextIs(s[1..], i - 1);
      assert s[..i] == [s[0]] + s[1..][..i - 1];
    }
  }

  lemma ChompedHere(before: string, after: string, i: nat)
    requires i < |before| && after == before[i := '\0'] && (before[i] == '\r' || before[i] == '\n')
    requires forall k | 0 <= k < i :: before[k] != '\0' && before[k] != '\r' && before[k] != '\n'
    ensures CText(after) == ChompText(CText(before))
  {
    hide IndexOf, ChompText;
    IndexOfIs(after, '\0', i);
    IndexOfFirst(before, '\0');
    var t := CText(before);
    assert before[i] != '\0' && i < |t|;
    ChompTextIs(t, i);
    assert after[..i] == before[..i] == t[..i];
  }

  lemma NothingToChomp(s: string, i: nat)
    requires i < |s| && s[i] == '\0'
    requires forall k | 0 <= k < i :: s[k] != '\0' && s[k] != '\r' && s[k] != '\n'
    ensures ChompText(CText(s)) == CText(s)
  {
    hide IndexOf, ChompText;
    IndexOfIs(s, '\0', i);
    ChompTextIs(s[..i], i);
  }
}
