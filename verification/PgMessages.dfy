/** What a server writes: encoders for the messages of a query response, and how they are read back. */
module PgMessages {
  import opened Options
  import opened Octets
  import opened PgWire
  import opened PgParser

  // ---- integers and strings ----------------------------------------------

  predicate IsInt2(v: int) { -0x8000 <= v < 0x8000 }

  predicate IsInt4(v: int) { -0x8000_0000 <= v < 0x8000_0000 }

  function Unsigned(v: int, limit: int): int { if v < 0 then v + 2 * limit else v }

  function Two(u: int): Bytes
    requires 0 <= u < 0x1_0000
  {
    [(u / 0x100) as char, (u % 0x100) as char]
  }

  function Int2(v: int): Bytes
    requires IsInt2(v)
  {
    Two(Unsigned(v, 0x8000))
  }

  function Int4(v: int): Bytes
    requires IsInt4(v)
  {
    var u := Unsigned(v, 0x8000_0000);
    Two(u / 0x1_0000) + Two(u % 0x1_0000)
  }

  function Text(s: Bytes): Bytes { s + [NUL] }

  lemma ReadTwo(pre: Bytes, u: int, post: Bytes)
    requires 0 <= u < 0x1_0000
    ensures ReadInt2(pre + Two(u) + post, |pre|) == Got(u, |pre| + 2)
  {
  }

  lemma ReadFour(pre: Bytes, v: int, post: Bytes)
    requires IsInt4(v)
    ensures ReadInt4(pre + Int4(v) + post, |pre|) == Got(v, |pre| + 4)
  {
    var u := Unsigned(v, 0x8000_0000);
    var b := pre + Int4(v) + post;
    var hi, lo := u / 0x1_0000, u % 0x1_0000;
    assert b[|pre|] as int == hi / 0x100 && b[|pre| + 1] as int == hi % 0x100;
    assert b[|pre| + 2] as int == lo / 0x100 && b[|pre| + 3] as int == lo % 0x100;
    assert (hi / 0x100 * 0x100 + hi % 0x100) == hi && (lo / 0x100) * 0x100 + lo % 0x100 == lo;
    assert ((b[|pre|] as int * 0x100 + b[|pre| + 1] as int) * 0x100 + b[|pre| + 2] as int) * 0x100 + b[|pre| + 3] as int
        == hi * 0x1_0000 + lo;
  }

  lemma {:induction false} ReadText(pre: Bytes, s: Bytes, post: Bytes)
    requires NUL !in s
    ensures ReadString(pre + Text(s) + post, |pre|) == Got(s, |pre| + |s| + 1)
    decreases |s|
  {
    var b := pre + Text(s) + post;
    if s == [] {
      assert b[|pre|] == NUL;
    } else {
      assert b == (pre + [s[0]]) + Text(s[1..]) + post;
      ReadText(pre + [s[0]], s[1..], post);
      assert s == [s[0]] + s[1..];
    }
  }

  lemma Regroup(a: Bytes, b: Bytes, c: Bytes, d: Bytes)
    ensures a + (b + c) + d == a + b + (c + d) == (a + b) + c + d
  {
  }

  lemma Middle(a: Bytes, b: Bytes, c: Bytes)
    ensures (a + b + c)[|a|..|a| + |b|] == b
  {
  }

  // ---- columns and rows ---------------------------------------------------

  predicate ValidColumn(c: Column) {
    && NUL !in c.name && IsInt4(c.tableId) && IsInt2(c.columnId) && IsInt4(c.typeId)
    && IsInt2(c.typeLen) && IsInt4(c.typeMod) && IsInt2(c.format)
  }

  function Numbers(c: Column): (b: Bytes)
    requires ValidColumn(c)
    ensures |b| == 18
  {
    Int4(c.tableId) + Int2(c.columnId) + Int4(c.typeId) + Int2(c.typeLen) + Int4(c.typeMod) + Int2(c.format)
  }

  function ColumnBytes(c: Column): Bytes
    requires ValidColumn(c)
  {
    Text(c.name) + Numbers(c)
  }

  lemma ReadSigned2(pre: Bytes, v: int, post: Bytes)
    requires IsInt2(v)
    ensures ReadInt2(pre + Int2(v) + post, |pre|).Got?
    ensures Signed(ReadInt2(pre + Int2(v) + post, |pre|).value, 0x8000) == v
  {
    ReadTwo(pre, Unsigned(v, 0x8000), post);
  }

  lemma ReadNumbers(pre: Bytes, c: Column, post: Bytes)
    requires ValidColumn(c)
    ensures var b, p := pre + Numbers(c) + post, |pre|;
            && ReadInt4(b, p) == Got(c.tableId, p + 4)
            && ReadInt2(b, p + 4).Got? && Signed(ReadInt2(b, p + 4).value, 0x8000) == c.columnId
            && ReadInt4(b, p + 6) == Got(c.typeId, p + 10)
            && ReadInt2(b, p + 10).Got? && Signed(ReadInt2(b, p + 10).value, 0x8000) == c.typeLen
            && ReadInt4(b, p + 12) == Got(c.typeMod, p + 16)
            && ReadInt2(b, p + 16).Got? && Signed(ReadInt2(b, p + 16).value, 0x8000) == c.format
  {
    hide Int4, Int2, ReadInt4, ReadInt2, Signed;
    var b := pre + Numbers(c) + post;
    IntSizes(c);
    var n1 := pre + Int4(c.tableId);
    var n2 := n1 + Int2(c.columnId);
    var n3 := n2 + Int4(c.typeId);
    var n4 := n3 + Int2(c.typeLen);
    var n5 := n4 + Int4(c.typeMod);
    var n6 := n5 + Int2(c.format);
    assert b == n6 + post;
    ReadSigned2(n5, c.format, post);
    assert b == n5 + (Int2(c.format) + post);
    ReadFour(n4, c.typeMod, Int2(c.format) + post);
    var r4 := Int4(c.typeMod) + (Int2(c.format) + post);
    assert b == n4 + r4;
    ReadSigned2(n3, c.typeLen, r4);
    var r3 := Int2(c.typeLen) + r4;
    assert b == n3 + r3;
    ReadFour(n2, c.typeId, r3);
    var r2 := Int4(c.typeId) + r3;
    assert b == n2 + r2;
    ReadSigned2(n1, c.columnId, r2);
    var r1 := Int2(c.columnId) + r2;
    assert b == n1 + r1;
    ReadFour(pre, c.tableId, r1);
  }

  lemma IntSizes(c: Column)
    requires ValidColumn(c)
    ensures |Int4(c.tableId)| == |Int4(c.typeId)| == |Int4(c.typeMod)| == 4
    ensures |Int2(c.columnId)| == |Int2(c.typeLen)| == |Int2(c.format)| == 2
  {
  }

  lemma ReadColumnBytes(pre: Bytes, c: Column, post: Bytes)
    requires ValidColumn(c)
    ensures ReadColumn(pre + ColumnBytes(c) + post, |pre|) == Got(c, |pre| + |ColumnBytes(c)|)
  {
    hide Numbers, ReadInt2, ReadInt4, Signed, ReadString;
    var b := pre + ColumnBytes(c) + post;
    assert b == pre + Text(c.name) + (Numbers(c) + post);
    ReadText(pre, c.name, Numbers(c) + post);
    assert b == (pre + Text(c.name)) + Numbers(c) + post;
    ReadNumbers(pre + Text(c.name), c, post);
  }

  ghost predicate ValidColumns(cs: seq<Column>) { forall c :: c in cs ==> ValidColumn(c) }

  function ColumnsBytes(cs: seq<Column>): Bytes
    requires ValidColumns(cs)
  {
    if cs == [] then [] else ColumnBytes(cs[0]) + ColumnsBytes(cs[1..])
  }

  lemma {:induction false} ReadColumnsBytes(pre: Bytes, cs: seq<Column>, post: Bytes)
    requires ValidColumns(cs)
    ensures ReadColumns(pre + ColumnsBytes(cs) + post, |pre|, |cs|) == Got(cs, |pre| + |ColumnsBytes(cs)|)
    decreases |cs|
  {
    hide ReadColumn, ColumnBytes, ValidColumn;
    if cs != [] {
      var rest := ColumnsBytes(cs[1..]);
      Regroup(pre, ColumnBytes(cs[0]), rest, post);
      ReadColumnBytes(pre, cs[0], rest + post);
      ReadColumnsBytes(pre + ColumnBytes(cs[0]), cs[1..], post);
      assert [cs[0]] + cs[1..] == cs;
    }
  }

  lemma FourBytes(v: int)
    requires IsInt4(v)
    ensures |Int4(v)| == 4
  {
  }

  predicate ValidValue(v: Option<Bytes>) { v.Some? ==> |v.value| < 0x8000_0000 }

  function ValueBytes(v: Option<Bytes>): Bytes
    requires ValidValue(v)
  {
    if v.None? then Int4(-1) else Int4(|v.value|) + v.value
  }

  lemma ReadValueBytes(pre: Bytes, v: Option<Bytes>, post: Bytes)
    requires ValidValue(v)
    ensures ReadValue(pre + ValueBytes(v) + post, |pre|) == Got(v, |pre| + |ValueBytes(v)|)
  {
    hide ReadInt4, Int4;
    if v.None? {
      ReadFour(pre, -1, post);
      FourBytes(-1);
    } else {
      var n := |v.value|;
      FourBytes(n);
      Regroup(pre, Int4(n), v.value, post);
      ReadFour(pre, n, v.value + post);
      Middle(pre + Int4(n), v.value, post);
    }
  }

  ghost predicate ValidRow(row: seq<Option<Bytes>>) { forall v :: v in row ==> ValidValue(v) }

  function ValuesBytes(row: seq<Option<Bytes>>): Bytes
    requires ValidRow(row)
  {
    if row == [] then [] else ValueBytes(row[0]) + ValuesBytes(row[1..])
  }

  lemma {:induction false} ReadValuesBytes(pre: Bytes, row: seq<Option<Bytes>>, post: Bytes)
    requires ValidRow(row)
    ensures ReadValues(pre + ValuesBytes(row) + post, |pre|, |row|) == Got(row, |pre| + |ValuesBytes(row)|)
    decreases |row|
  {
    hide ReadValue, ValueBytes, ValidValue;
    if row != [] {
      var rest := ValuesBytes(row[1..]);
      Regroup(pre, ValueBytes(row[0]), rest, post);
      ReadValueBytes(pre, row[0], rest + post);
      ReadValuesBytes(pre + ValueBytes(row[0]), row[1..], post);
      assert [row[0]] + row[1..] == row;
    }
  }

  // ---- whole messages -----------------------------------------------------

  predicate Fits(id: Byte, body: Bytes) { |body| + 4 < 0x8000_0000 && (LongMessage(id) || |body| + 4 <= 30000) }

  function Frame(id: Byte, body: Bytes): (f: Bytes)
    requires Fits(id, body)
    ensures |f| == 5 + |body|
  {
    [id] + Int4(|body| + 4) + body
  }

  lemma HeadOfFrame(pre: Bytes, id: Byte, body: Bytes, post: Bytes)
    requires Fits(id, body)
    ensures HeadAt(pre + Frame(id, body) + post, |pre|) == Head(id, |pre| + 5 + |body|)
  {
    hide Int4, ReadInt4;
    var b := pre + Frame(id, body) + post;
    assert b == (pre + [id]) + Int4(|body| + 4) + (body + post);
    ReadFour(pre + [id], |body| + 4, body + post);
    assert b[|pre|] == id;
  }

  /** The message as its handler sees it. */
  function Ahead(pre: Bytes, id: Byte, body: Bytes): Bytes
    requires Fits(id, body)
  {
    pre + [id] + Int4(|body| + 4)
  }

  lemma FrameAhead(pre: Bytes, id: Byte, body: Bytes, post: Bytes)
    requires Fits(id, body)
    ensures pre + Frame(id, body) + post == Ahead(pre, id, body) + body + post
    ensures |Ahead(pre, id, body)| == |pre| + 5
  {
  }

  function DescriptionBody(cs: seq<Column>): Bytes
    requires ValidColumns(cs) && |cs| < 0x1_0000
  {
    Two(|cs|) + ColumnsBytes(cs)
  }

  function RowBody(row: seq<Option<Bytes>>): Bytes
    requires ValidRow(row) && |row| < 0x1_0000
  {
    Two(|row|) + ValuesBytes(row)
  }

  lemma ReadDescriptionBody(pre: Bytes, cs: seq<Column>, post: Bytes)
    requires ValidColumns(cs) && |cs| < 0x1_0000
    ensures ReadRowDescription(pre + DescriptionBody(cs) + post, |pre|) == Got(cs, |pre| + |DescriptionBody(cs)|)
  {
    hide ReadInt2, ReadColumns, ColumnsBytes;
    var b := pre + DescriptionBody(cs) + post;
    assert b == pre + Two(|cs|) + (ColumnsBytes(cs) + post);
    ReadTwo(pre, |cs|, ColumnsBytes(cs) + post);
    assert b == (pre + Two(|cs|)) + ColumnsBytes(cs) + post;
    ReadColumnsBytes(pre + Two(|cs|), cs, post);
  }

  lemma ReadRowBody(pre: Bytes, row: seq<Option<Bytes>>, post: Bytes)
    requires ValidRow(row) && |row| < 0x1_0000
    ensures var b := pre + RowBody(row) + post;
            && ReadInt2(b, |pre|) == Got(|row|, |pre| + 2)
            && ReadValues(b, |pre| + 2, |row|) == Got(row, |pre| + |RowBody(row)|)
            && ReadRow(b, |pre|) == Got(row, |pre| + |RowBody(row)|)
  {
    hide ReadInt2, ReadValues, ValuesBytes;
    var b := pre + RowBody(row) + post;
    assert b == pre + Two(|row|) + (ValuesBytes(row) + post);
    ReadTwo(pre, |row|, ValuesBytes(row) + post);
    assert b == (pre + Two(|row|)) + ValuesBytes(row) + post;
    ReadValuesBytes(pre + Two(|row|), row, post);
  }

  // ---- the parser on each message ----------------------------------------

  lemma TurnDescription(st: State, pre: Bytes, cs: seq<Column>, post: Bytes, description: Option<seq<Column>>)
    requires ValidColumns(cs) && |cs| < 0x1_0000 && Fits('T', DescriptionBody(cs))
    requires st.async == Busy && st.result.None? && st.queryClass != Describe
    ensures var f := Frame('T', DescriptionBody(cs));
            TurnAt(st, pre + f + post, |pre|, description)
            == Advance(st.(result := Some(Empty(TuplesOk).(columns := cs))), |pre + f|)
  {
    hide DescriptionBody, Frame, HeadAt, ReadRowDescription, Ahead;
    HeadOfFrame(pre, 'T', DescriptionBody(cs), post);
    FrameAhead(pre, 'T', DescriptionBody(cs), post);
    ReadDescriptionBody(Ahead(pre, 'T', DescriptionBody(cs)), cs, post);
  }

  lemma TurnRow(st: State, pre: Bytes, row: seq<Option<Bytes>>, post: Bytes, description: Option<seq<Column>>)
    requires ValidRow(row) && |row| < 0x1_0000 && Fits('D', RowBody(row))
    requires st.async == Busy && st.result.Some? && st.result.value.status == TuplesOk
    requires |st.result.value.columns| == |row|
    ensures var f := Frame('D', RowBody(row));
            TurnAt(st, pre + f + post, |pre|, description)
            == Advance(WithRows(st, [row]), |pre + f|)
  {
    hide RowBody, Frame, HeadAt, ReadInt2, ReadValues, ReadRow, Ahead;
    HeadOfFrame(pre, 'D', RowBody(row), post);
    FrameAhead(pre, 'D', RowBody(row), post);
    ReadRowBody(Ahead(pre, 'D', RowBody(row)), row, post);
  }

  function WithRows(st: State, rows: seq<seq<Option<Bytes>>>): State
    requires st.result.Some?
  {
    st.(result := Some(st.result.value.(rows := st.result.value.rows + rows)))
  }

  lemma TurnCommand(st: State, pre: Bytes, tag: Bytes, post: Bytes, description: Option<seq<Column>>)
    requires NUL !in tag && Fits('C', Text(tag)) && st.async == Busy && st.result.Some?
    ensures var f := Frame('C', Text(tag));
            TurnAt(st, pre + f + post, |pre|, description)
            == Advance(st.(result := Some(st.result.value.(commandTag := Truncate(tag))), async := Ready), |pre + f|)
  {
    hide Frame, HeadAt, ReadString, Ahead, Truncate;
    HeadOfFrame(pre, 'C', Text(tag), post);
    FrameAhead(pre, 'C', Text(tag), post);
    ReadText(Ahead(pre, 'C', Text(tag)), tag, post);
  }

  lemma TurnReadyForQuery(st: State, pre: Bytes, x: Byte, post: Bytes, description: Option<seq<Column>>)
    requires st.async == Busy
    ensures var f := Frame('Z', [x]);
            TurnAt(st, pre + f + post, |pre|, description) == Advance(st.(xact := XactOf(x), async := Idle), |pre + f|)
  {
    hide Frame, HeadAt, XactOf, Ahead;
    HeadOfFrame(pre, 'Z', [x], post);
    FrameAhead(pre, 'Z', [x], post);
    assert (Ahead(pre, 'Z', [x]) + [x] + post)[|pre| + 5] == x;
  }

  // ---- a query response ---------------------------------------------------

  ghost predicate ValidRows(rows: seq<seq<Option<Bytes>>>, width: nat) {
    forall row :: row in rows ==> ValidRow(row) && |row| == width && width < 0x1_0000 && Fits('D', RowBody(row))
  }

  function RowsBytes(rows: seq<seq<Option<Bytes>>>, width: nat): Bytes
    requires ValidRows(rows, width)
  {
    if rows == [] then [] else Frame('D', RowBody(rows[0])) + RowsBytes(rows[1..], width)
  }

  lemma {:induction false} ParseRows(st: State, pre: Bytes, rows: seq<seq<Option<Bytes>>>, post: Bytes,
                                     description: Option<seq<Column>>)
    requires st.async == Busy && st.result.Some? && st.result.value.status == TuplesOk
    requires ValidRows(rows, |st.result.value.columns|)
    ensures var b := pre + RowsBytes(rows, |st.result.value.columns|) + post;
            Parse(Conn(st, b, |pre|, true), description)
            == Parse(Conn(WithRows(st, rows), b, |b| - |post|, true), description)
    decreases |rows|
  {
    hide TurnAt, RowBody, Frame;
    var width := |st.result.value.columns|;
    var b := pre + RowsBytes(rows, width) + post;
    if rows == [] {
      assert WithRows(st, []) == st by { assert st.result.value.rows + [] == st.result.value.rows; }
      assert |b| - |post| == |pre|;
    } else {
      assert rows[0] in rows;
      var f := Frame('D', RowBody(rows[0]));
      var rest := RowsBytes(rows[1..], width);
      assert b == pre + f + (rest + post);
      TurnRow(st, pre, rows[0], rest + post, description);
      var st' := WithRows(st, [rows[0]]);
      assert b == (pre + f) + rest + post;
      ParseRows(st', pre + f, rows[1..], post, description);
      assert st.result.value.rows + [rows[0]] + rows[1..] == st.result.value.rows + rows;
      assert WithRows(st', rows[1..]) == WithRows(st, rows);
    }
  }

  /** One result set as the server sees it. */
  datatype Reply = Reply(columns: seq<Column>, rows: seq<seq<Option<Bytes>>>, tag: Bytes, xact: Byte)

  ghost predicate ValidReply(r: Reply) {
    && ValidColumns(r.columns) && |r.columns| < 0x1_0000 && Fits('T', DescriptionBody(r.columns))
    && ValidRows(r.rows, |r.columns|)
    && NUL !in r.tag && Fits('C', Text(r.tag))
  }

  function Tail(r: Reply): Bytes
    requires ValidReply(r)
  {
    Frame('C', Text(r.tag)) + Frame('Z', [r.xact])
  }

  function ReplyBytes(r: Reply): Bytes
    requires ValidReply(r)
  {
    Frame('T', DescriptionBody(r.columns)) + (RowsBytes(r.rows, |r.columns|) + Tail(r))
  }

  /** The result that the application should collect. */
  function ReplyResult(r: Reply): Result {
    Empty(TuplesOk).(columns := r.columns, rows := r.rows, commandTag := Truncate(r.tag))
  }

  lemma ExactFrame(pre: Bytes, id: Byte, body: Bytes, post: Bytes)
    requires Fits(id, body) && id !in ASIDE
    requires BodyContained(id, pre + Frame(id, body), |pre| + 5)
    requires StreamExact(pre + Frame(id, body) + post, |pre| + 5 + |body|)
    ensures StreamExact(pre + Frame(id, body) + post, |pre|)
  {
    hide BodyContained, Frame, HeadAt;
    HeadOfFrame(pre, id, body, post);
    var b := pre + Frame(id, body) + post;
    assert b[..|pre| + 5 + |body|] == pre + Frame(id, body);
  }

  lemma ContainedFrames(pre: Bytes, r: Reply)
    requires ValidReply(r)
    ensures BodyContained('T', pre + Frame('T', DescriptionBody(r.columns)), |pre| + 5)
    ensures BodyContained('C', pre + Frame('C', Text(r.tag)), |pre| + 5)
    ensures BodyContained('Z', pre + Frame('Z', [r.xact]), |pre| + 5)
  {
    hide DescriptionBody, Frame, ReadRowDescription, ReadString, Ahead;
    FrameAhead(pre, 'T', DescriptionBody(r.columns), []);
    ReadDescriptionBody(Ahead(pre, 'T', DescriptionBody(r.columns)), r.columns, []);
    assert pre + Frame('T', DescriptionBody(r.columns)) + [] == pre + Frame('T', DescriptionBody(r.columns));
    FrameAhead(pre, 'C', Text(r.tag), []);
    ReadText(Ahead(pre, 'C', Text(r.tag)), r.tag, []);
    assert pre + Frame('C', Text(r.tag)) + [] == pre + Frame('C', Text(r.tag));
  }

  lemma ContainedRow(pre: Bytes, row: seq<Option<Bytes>>)
    requires ValidRow(row) && |row| < 0x1_0000 && Fits('D', RowBody(row))
    ensures BodyContained('D', pre + Frame('D', RowBody(row)), |pre| + 5)
  {
    hide RowBody, Frame, ReadRow, Ahead;
    FrameAhead(pre, 'D', RowBody(row), []);
    ReadRowBody(Ahead(pre, 'D', RowBody(row)), row, []);
    assert pre + Frame('D', RowBody(row)) + [] == pre + Frame('D', RowBody(row));
  }

  lemma {:induction false} ExactRows(pre: Bytes, rows: seq<seq<Option<Bytes>>>, width: nat, post: Bytes)
    requires ValidRows(rows, width)
    requires StreamExact(pre + RowsBytes(rows, width) + post, |pre + RowsBytes(rows, width)|)
    ensures StreamExact(pre + RowsBytes(rows, width) + post, |pre|)
    decreases |rows|
  {
    hide BodyContained, RowBody, Frame, StreamExact;
    if rows != [] {
      assert rows[0] in rows;
      var f, rest := Frame('D', RowBody(rows[0])), RowsBytes(rows[1..], width);
      var b := pre + RowsBytes(rows, width) + post;
      assert b == (pre + f) + rest + post && b == pre + f + (rest + post);
      ExactRows(pre + f, rows[1..], width, post);
      ContainedRow(pre, rows[0]);
      ExactFrame(pre, 'D', RowBody(rows[0]), rest + post);
    }
  }

  lemma ExactReply(pre: Bytes, r: Reply)
    requires ValidReply(r)
    ensures StreamExact(pre + ReplyBytes(r), |pre|)
  {
    hide BodyContained, RowBody, Frame, StreamExact, DescriptionBody, RowsBytes, ValidRows, ValidColumns;
    var t, d := Frame('T', DescriptionBody(r.columns)), RowsBytes(r.rows, |r.columns|);
    var c, z := Frame('C', Text(r.tag)), Frame('Z', [r.xact]);
    var b := pre + ReplyBytes(r);
    StreamEnds(b);
    var p3 := pre + t + d + c;
    assert b == p3 + z + [];
    ContainedFrames(p3, r);
    ExactFrame(p3, 'Z', [r.xact], []);
    var p2 := pre + t + d;
    assert b == p2 + c + z;
    ContainedFrames(p2, r);
    ExactFrame(p2, 'C', Text(r.tag), z);
    assert b == (pre + t) + d + Tail(r);
    ExactRows(pre + t, r.rows, |r.columns|, Tail(r));
    assert b == pre + t + (d + Tail(r));
    ContainedFrames(pre, r);
    ExactFrame(pre, 'T', DescriptionBody(r.columns), d + Tail(r));
  }

  lemma StreamEnds(b: Bytes)
    ensures StreamExact(b, |b|)
  {
  }

  /** Up to the command tag, everything a reply says is in the result that becomes ready. */
  lemma ParseReply(c: Conn, r: Reply, description: Option<seq<Column>>)
    requires ValidReply(r) && c.alive && c.inStart == |c.buffer|
    requires c.st.async == Busy && c.st.result.None? && c.st.queryClass != Describe
    ensures var b := c.buffer + ReplyBytes(r);
            Parse(Receive(c, ReplyBytes(r)), description)
            == Conn(c.st.(result := Some(ReplyResult(r)), async := Ready), b, |b| - |Frame('Z', [r.xact])|, true)
  {
    hide RowBody, Frame, DescriptionBody, RowsBytes, ValidRows, ValidColumns, TurnAt, Truncate;
    var t, d := Frame('T', DescriptionBody(r.columns)), RowsBytes(r.rows, |r.columns|);
    var cc, z := Frame('C', Text(r.tag)), Frame('Z', [r.xact]);
    var pre := c.buffer;
    var b := pre + ReplyBytes(r);
    assert b == pre + t + (d + Tail(r));
    TurnDescription(c.st, pre, r.columns, d + Tail(r), description);
    var st1 := c.st.(result := Some(Empty(TuplesOk).(columns := r.columns)));
    assert b == (pre + t) + d + Tail(r);
    ParseRows(st1, pre + t, r.rows, Tail(r), description);
    var st2 := WithRows(st1, r.rows);
    assert [] + r.rows == r.rows;
    assert b == (pre + t + d) + cc + z;
    TurnCommand(st2, pre + t + d, r.tag, z, description);
    var st3 := c.st.(result := Some(ReplyResult(r)), async := Ready);
    assert b == (pre + t + d + cc) + z + [];
    ReadyAtZ(st3, pre + t + d + cc, r.xact, description);
  }

  lemma ReadyAtZ(st: State, pre: Bytes, x: Byte, description: Option<seq<Column>>)
    requires st.async == Ready
    ensures TurnAt(st, pre + Frame('Z', [x]) + [], |pre|, description) == Stop(st)
  {
    hide Frame, HeadAt;
    HeadOfFrame(pre, 'Z', [x], []);
  }

  /** A reply is collected as one result that holds its columns, rows and tag, and leaves the session idle. */
  lemma ReplyIsCollected(c: Conn, r: Reply, description: Option<seq<Column>>)
    requires ValidReply(r) && c.alive && c.inStart == |c.buffer|
    requires c.st.async == Busy && c.st.result.None? && c.st.queryClass != Describe
    ensures StreamExact(c.buffer + ReplyBytes(r), c.inStart)
    ensures var b := c.buffer + ReplyBytes(r);
            Pump(Receive(c, ReplyBytes(r)), description)
            == Pumped(Conn(c.st.(xact := XactOf(r.xact), async := Idle), b, |b|, true), [ReplyResult(r)])
  {
    hide RowBody, Frame, DescriptionBody, RowsBytes, ValidRows, ValidColumns, TurnAt, ReplyBytes, ValidReply;
    hide StreamExact, Tail;
    var b := c.buffer + ReplyBytes(r);
    var z := Frame('Z', [r.xact]);
    ExactReply(c.buffer, r);
    ParseReply(c, r, description);
    var p := Parse(Receive(c, ReplyBytes(r)), description);
    var st := Collect(p).st;
    var pre := b[..|b| - |z|];
    assert b == pre + z + [] by { LastFrame(c.buffer, r); }
    TurnReadyForQuery(st, pre, r.xact, [], description);
    var st' := st.(xact := XactOf(r.xact), async := Idle);
    AtTheEnd(st', b, description);
    assert Parse(Collect(p), description) == Conn(st', b, |b|, true);
  }

  lemma LastFrame(pre: Bytes, r: Reply)
    requires ValidReply(r)
    ensures var b, z := pre + ReplyBytes(r), Frame('Z', [r.xact]);
            |z| <= |b| && b == b[..|b| - |z|] + z + []
  {
    hide RowBody, Frame, DescriptionBody, RowsBytes, ValidRows, ValidColumns;
    var t, d := Frame('T', DescriptionBody(r.columns)), RowsBytes(r.rows, |r.columns|);
    assert pre + ReplyBytes(r) == pre + t + d + Frame('C', Text(r.tag)) + Frame('Z', [r.xact]);
  }

  lemma AtTheEnd(st: State, b: Bytes, description: Option<seq<Column>>)
    ensures TurnAt(st, b, |b|, description) == Stop(st)
  {
  }

  /** The same holds however the network cuts the reply into reads. */
  lemma ReplyInAnyReads(c: Conn, r: Reply, chunks: seq<Bytes>, description: Option<seq<Column>>)
    requires ValidReply(r) && c.alive && c.inStart == |c.buffer|
    requires c.st.async == Busy && c.st.result.None? && c.st.queryClass != Describe
    requires chunks != [] && Concat(chunks) == ReplyBytes(r)
    ensures StreamExact(c.buffer + Concat(chunks), c.inStart)
    ensures PumpReads(c, chunks, description).results == [ReplyResult(r)]
    ensures PumpReads(c, chunks, description).conn.st == c.st.(xact := XactOf(r.xact), async := Idle)
  {
    hide ReplyBytes, ValidReply, StreamExact, Pump, PumpReads, Concat, ReplyResult;
    ReplyIsCollected(c, r, description);
    ResultsOfAnySplit(c, chunks, description);
  }

  // ---- why messages must hold their own fields ---------------------------

  /** A row description that announces a column and does not describe it. */
  const CUT: Bytes := Frame('T', Two(1))

  const PADDING: Bytes := seq(30, _ => NUL)

  const NEXT: Bytes := Frame('d', PADDING)

  /**
    * With such a message the outcome does depend on the reads: alone it is an error and parsing goes
    * on; with the next message behind it the column is read from there, and parsing halts.
    */
  lemma CutDescription(st: State, description: Option<seq<Column>>)
    requires st.async == Busy && st.result.None? && st.queryClass == Simple
    ensures var c := Conn(st, CUT, 0, true);
            && Parse(Receive(Parse(c, description), NEXT), description).st.async == Busy
            && Parse(Receive(c, NEXT), description).st.async == Ready
  {
    hide Handle;
    var c := Conn(st, CUT, 0, true);
    CutAlone(st, description);
    var p := Parse(c, description);
    HeadOfFrame(CUT, 'd', PADDING, []);
    assert CUT + NEXT + [] == CUT + NEXT;
    CopyDataDropped(p.st, CUT + NEXT, |CUT| + 5, |CUT + NEXT|, description);
    AtTheEnd(p.st, CUT + NEXT, description);
    CutFollowed(st, description);
  }

  lemma CopyDataDropped(st: State, b: Bytes, pos: nat, end: nat, description: Option<seq<Column>>)
    requires st.async == Busy || st.async == Ready
    ensures Handle(st, b, pos, end, 'd', description) == if st.async == Busy then Done(st, end) else Suspend(st)
  {
  }

  lemma CutAlone(st: State, description: Option<seq<Column>>)
    requires st.async == Busy && st.result.None? && st.queryClass == Simple
    ensures Parse(Conn(st, CUT, 0, true), description)
            == Conn(ReplaceByError(st, InsufficientData('T')), CUT, |CUT|, true)
  {
    hide HeadAt;
    HeadOfFrame([], 'T', Two(1), []);
    assert [] + CUT + [] == CUT;
    var pre := Ahead([], 'T', Two(1));
    FrameAhead([], 'T', Two(1), []);
    ReadTwo(pre, 1, []);
    assert ReadString(CUT, 7).NoData?;
    assert ReadRowDescription(CUT, 5).NoData?;
    assert TurnAt(st, CUT, 0, description) == Advance(ReplaceByError(st, InsufficientData('T')), 7);
    AtTheEnd(ReplaceByError(st, InsufficientData('T')), CUT, description);
  }

  lemma CutFollowed(st: State, description: Option<seq<Column>>)
    requires st.async == Busy && st.result.None? && st.queryClass == Simple
    ensures Parse(Conn(st, CUT + NEXT, 0, true), description).st.async == Ready
  {
    hide HeadAt, ReadRowDescription, WhenIdle, ReadFields, ReadNotification;
    var b := CUT + NEXT;
    CutReadsOn();
    HeadOfFrame([], 'T', Two(1), NEXT);
    assert [] + CUT + NEXT == b;
    var t := TurnAt(st, b, 0, description);
    assert t.Advance? && t.st.async == Ready && t.start == 7;
    HeadOfFrame(CUT, 'd', PADDING, []);
    assert CUT + NEXT + [] == b;
    CopyDataDropped(t.st, b, 12, |b|, description);
    assert TurnAt(t.st, b, 7, description) == Stop(t.st);
  }

  lemma CutReadsOn()
    ensures ReadRowDescription(CUT + NEXT, 5).Got? && ReadRowDescription(CUT + NEXT, 5).next == 27
  {
    var b := CUT + NEXT;
    FrameAhead([], 'T', Two(1), NEXT);
    assert [] + CUT + NEXT == b;
    ReadTwo(Ahead([], 'T', Two(1)), 1, NEXT);
    assert b[7] == 'd' && b[8] == NUL;
    assert ReadString(b, 8) == Got([], 9);
    assert ReadString(b, 7).Got? && ReadString(b, 7).next == 9;
    assert ReadColumn(b, 7).Got?;
    assert ReadColumns(b, ReadColumn(b, 7).next, 0).Got?;
    assert ReadColumns(b, 7, 1).Got? && ReadColumns(b, 7, 1).next == 27;
  }
}
