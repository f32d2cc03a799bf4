/**
  * What each answer of a server means to the application, by value: the messages of the answer are
  * written as a server writes them, and the result that is handed over is written out in full.
  */
module PgReplies {
  import opened Options
  import opened Octets
  import opened PgWire
  import opened PgParser
  import opened PgMessages

  // ---- fields, parameter types, copy formats -----------------------------

  predicate ValidField(f: Field) { f.code != NUL && NUL !in f.text }

  ghost predicate ValidFields(fs: seq<Field>) { forall f :: f in fs ==> ValidField(f) }

  function FieldsBytes(fs: seq<Field>): Bytes {
    if fs == [] then [NUL] else [fs[0].code] + Text(fs[0].text) + FieldsBytes(fs[1..])
  }

  lemma {:induction false} ReadFieldsBytes(pre: Bytes, fs: seq<Field>, post: Bytes)
    requires ValidFields(fs)
    ensures ReadFields(pre + FieldsBytes(fs) + post, |pre|) == Got(fs, |pre| + |FieldsBytes(fs)|)
    decreases |fs|
  {
    hide ReadString;
    var b := pre + FieldsBytes(fs) + post;
    if fs == [] {
      assert b[|pre|] == NUL;
    } else {
      var f, rest := fs[0], FieldsBytes(fs[1..]);
      assert ValidField(f);
      assert b[|pre|] == f.code;
      assert b == (pre + [f.code]) + Text(f.text) + (rest + post);
      ReadText(pre + [f.code], f.text, rest + post);
      var head := pre + [f.code] + Text(f.text);
      assert b == head + rest + post;
      ReadFieldsBytes(head, fs[1..], post);
      assert [f] + fs[1..] == fs;
    }
  }

  ghost predicate ValidInts(vs: seq<int>) { forall v :: v in vs ==> IsInt4(v) }

  function Int4s(vs: seq<int>): Bytes
    requires ValidInts(vs)
  {
    if vs == [] then [] else Int4(vs[0]) + Int4s(vs[1..])
  }

  lemma {:induction false} ReadInt4sBytes(pre: Bytes, vs: seq<int>, post: Bytes)
    requires ValidInts(vs)
    ensures ReadInt4s(pre + Int4s(vs) + post, |pre|, |vs|) == Got(vs, |pre| + |Int4s(vs)|)
    decreases |vs|
  {
    hide ReadInt4, Int4;
    if vs != [] {
      var rest := Int4s(vs[1..]);
      FourBytes(vs[0]);
      Regroup(pre, Int4(vs[0]), rest, post);
      ReadFour(pre, vs[0], rest + post);
      ReadInt4sBytes(pre + Int4(vs[0]), vs[1..], post);
      assert [vs[0]] + vs[1..] == vs;
    }
  }

  ghost predicate ValidFormats(vs: seq<int>) { forall v :: v in vs ==> IsInt2(v) }

  function Int2s(vs: seq<int>): Bytes
    requires ValidFormats(vs)
  {
    if vs == [] then [] else Int2(vs[0]) + Int2s(vs[1..])
  }

  lemma {:induction false} ReadFormatsBytes(pre: Bytes, vs: seq<int>, post: Bytes)
    requires ValidFormats(vs)
    ensures ReadFormats(pre + Int2s(vs) + post, |pre|, |vs|) == Got(vs, |pre| + |Int2s(vs)|)
    decreases |vs|
  {
    if vs != [] {
      var rest := Int2s(vs[1..]);
      Regroup(pre, Int2(vs[0]), rest, post);
      ReadSigned2(pre, vs[0], rest + post);
      ReadFormatsBytes(pre + Int2(vs[0]), vs[1..], post);
      assert [vs[0]] + vs[1..] == vs;
    }
  }

  function TypesBody(types: seq<int>): Bytes
    requires ValidInts(types) && |types| < 0x1_0000
  {
    Two(|types|) + Int4s(types)
  }

  lemma ReadTypesBody(pre: Bytes, types: seq<int>, post: Bytes)
    requires ValidInts(types) && |types| < 0x1_0000
    ensures ReadParameters(pre + TypesBody(types) + post, |pre|) == Got(types, |pre| + |TypesBody(types)|)
  {
    hide ReadInt2, ReadInt4s, Int4s;
    var b := pre + TypesBody(types) + post;
    assert b == pre + Two(|types|) + (Int4s(types) + post);
    ReadTwo(pre, |types|, Int4s(types) + post);
    assert b == (pre + Two(|types|)) + Int4s(types) + post;
    ReadInt4sBytes(pre + Two(|types|), types, post);
  }

  function CopyBody(f: CopyFormat): Bytes
    requires ValidFormats(f.formats) && |f.formats| < 0x1_0000
  {
    [f.binary] + (Two(|f.formats|) + Int2s(f.formats))
  }

  lemma ReadCopyBody(pre: Bytes, f: CopyFormat, post: Bytes)
    requires ValidFormats(f.formats) && |f.formats| < 0x1_0000
    ensures ReadCopyFormat(pre + CopyBody(f) + post, |pre|) == Got(f, |pre| + |CopyBody(f)|)
  {
    hide ReadInt2, ReadFormats, Int2s;
    var n := Two(|f.formats|);
    var b := pre + CopyBody(f) + post;
    var p1 := pre + [f.binary];
    assert b[|pre|] == f.binary;
    assert b == p1 + n + (Int2s(f.formats) + post);
    ReadTwo(p1, |f.formats|, Int2s(f.formats) + post);
    assert b == (p1 + n) + Int2s(f.formats) + post;
    ReadFormatsBytes(p1 + n, f.formats, post);
  }

  // ---- one result, then ready for query ----------------------------------

  /** The first 63 bytes of a command tag. */
  function Kept(tag: Bytes): (t: Bytes)
    ensures |t| <= 63 && t <= tag && (|tag| <= 63 ==> t == tag) && (|tag| > 63 ==> |t| == 63)
  {
    if |tag| <= 63 then tag else tag[..63]
  }

  /** The transaction status that the last message of an answer reports. */
  ghost predicate Reports(x: Byte, xact: Xact) {
    && (x == 'I' ==> xact == XactIdle)
    && (x == 'T' ==> xact == InTransaction)
    && (x == 'E' ==> xact == InError)
    && (x !in {'I', 'T', 'E'} ==> xact == Unknown)
  }

  lemma ExactHead(pre: Bytes, id: Byte, body: Bytes, x: Byte)
    requires Fits(id, body) && id !in ASIDE && BodyContained(id, pre + Frame(id, body), |pre| + 5)
    ensures StreamExact(pre + (Frame(id, body) + Frame('Z', [x])), |pre|)
  {
    hide BodyContained, Frame, StreamExact;
    var f, z := Frame(id, body), Frame('Z', [x]);
    var b := pre + (f + z);
    StreamEnds(b);
    assert b == (pre + f) + z + [] && b == pre + f + z;
    ContainedReady(pre + f, x);
    ExactFrame(pre + f, 'Z', [x], []);
    ExactFrame(pre, id, body, z);
  }

  lemma ContainedReady(pre: Bytes, x: Byte)
    ensures BodyContained('Z', pre + Frame('Z', [x]), |pre| + 5)
  {
  }

  /** Once the messages in `head` have made a result ready, it is collected and the session is idle. */
  lemma OneResult(c: Conn, head: Bytes, st: State, x: Byte, description: Option<seq<Column>>)
    requires c.alive && c.inStart == |c.buffer| && st.async == Ready && st.result.Some?
    requires StreamExact(c.buffer + (head + Frame('Z', [x])), |c.buffer|)
    requires var b := c.buffer + (head + Frame('Z', [x]));
             Parse(Conn(c.st, b, |c.buffer|, true), description)
             == Parse(Conn(st, b, |c.buffer + head|, true), description)
    ensures var b := c.buffer + (head + Frame('Z', [x]));
            Pump(Receive(c, head + Frame('Z', [x])), description)
            == Pumped(Conn(st.(result := None, xact := XactOf(x), async := Idle), b, |b|, true), [st.result.value])
  {
    hide Frame, TurnAt, StreamExact, XactOf;
    var z := Frame('Z', [x]);
    var b := c.buffer + (head + z);
    var pre := c.buffer + head;
    assert b == pre + z + [];
    ReadyAtZ(st, pre, x, description);
    var p := Conn(st, b, |pre|, true);
    assert Parse(p, description) == p;
    TurnReadyForQuery(Collect(p).st, pre, x, [], description);
    var idle := st.(result := None, xact := XactOf(x), async := Idle);
    AtTheEnd(idle, b, description);
    assert Parse(Collect(p), description) == Conn(idle, b, |b|, true);
  }

  // ---- the answers --------------------------------------------------------

  /** The answers without rows, and the rows of a portal whose description the application has already. */
  datatype Answer =
    | Command(tag: Bytes)
    | Failure(fields: seq<Field>)
    | NoQuery
    | Prepared
    | Described(types: seq<int>, columns: Option<seq<Column>>)
    | Fetched(rows: seq<seq<Option<Bytes>>>, ending: Option<Bytes>)

  ghost predicate ValidAnswer(a: Answer, st: State, description: Option<seq<Column>>) {
    match a
    case Command(tag) => NUL !in tag && Fits('C', Text(tag))
    case Failure(fields) => ValidFields(fields) && Fits('E', FieldsBytes(fields))
    case NoQuery => true
    case Prepared => st.queryClass == Prepare
    case Described(types, columns) =>
      && st.queryClass == Describe
      && ValidInts(types) && |types| < 0x1_0000 && Fits('t', TypesBody(types))
      && (columns.Some? ==>
            && ValidColumns(columns.value) && |columns.value| < 0x1_0000
            && Fits('T', DescriptionBody(columns.value)))
    case Fetched(rows, tag) =>
      && description.Some? && rows != [] && ValidRows(rows, |description.value|)
      && (tag.Some? ==> NUL !in tag.value && Fits('C', Text(tag.value)))
  }

  /** The messages before the one that says "ready for query". */
  ghost function Opening(a: Answer, st: State, description: Option<seq<Column>>): Bytes
    requires ValidAnswer(a, st, description)
  {
    match a
    case Command(tag) => Frame('C', Text(tag))
    case Failure(fields) => Frame('E', FieldsBytes(fields))
    case NoQuery => Frame('I', [])
    case Prepared => Frame('1', [])
    case Described(types, columns) =>
      Frame('t', TypesBody(types))
      + (if columns.Some? then Frame('T', DescriptionBody(columns.value)) else Frame('n', []))
    case Fetched(rows, tag) =>
      RowsBytes(rows, |description.value|) + (if tag.Some? then Frame('C', Text(tag.value)) else Frame('s', []))
  }

  ghost function AnswerBytes(a: Answer, x: Byte, st: State, description: Option<seq<Column>>): Bytes
    requires ValidAnswer(a, st, description)
  {
    Opening(a, st, description) + Frame('Z', [x])
  }

  /** What the application gets, field by field. */
  function Meaning(a: Answer, description: Option<seq<Column>>): Result {
    match a
    case Command(tag) =>
      Result(CommandOk, if description.Some? then description.value else [], [], [], [], '\0', Kept(tag), [])
    case Failure(fields) => Result(FatalError, [], [], [], [], '\0', [], [Server(fields)])
    case NoQuery => Result(EmptyQuery, [], [], [], [], '\0', [], [])
    case Prepared => Result(CommandOk, [], [], [], [], '\0', [], [])
    case Described(types, columns) =>
      Result(CommandOk, if columns.Some? then columns.value else [], types, [], [], '\0', [], [])
    case Fetched(rows, tag) =>
      Result(TuplesOk, if description.Some? then description.value else [], [], rows, [], '\0',
             if tag.Some? then Kept(tag.value) else [], [])
  }

  // ---- message by message -------------------------------------------------

  lemma TurnTag(st: State, pre: Bytes, tag: Bytes, post: Bytes, description: Option<seq<Column>>)
    requires NUL !in tag && Fits('C', Text(tag)) && st.async == Busy && st.result.None?
    ensures var f := Frame('C', Text(tag));
            && BodyContained('C', pre + f, |pre| + 5)
            && TurnAt(st, pre + f + post, |pre|, description)
               == Advance(st.(result := Some(Meaning(Command(tag), description)), async := Ready), |pre + f|)
  {
    hide Frame, HeadAt, ReadString, Ahead;
    var f := Frame('C', Text(tag));
    HeadOfFrame(pre, 'C', Text(tag), post);
    FrameAhead(pre, 'C', Text(tag), post);
    FrameAhead(pre, 'C', Text(tag), []);
    assert pre + f + [] == pre + f;
    ReadText(Ahead(pre, 'C', Text(tag)), tag, post);
    ReadText(Ahead(pre, 'C', Text(tag)), tag, []);
  }

  lemma TurnFailure(st: State, pre: Bytes, fields: seq<Field>, post: Bytes, description: Option<seq<Column>>)
    requires ValidFields(fields) && Fits('E', FieldsBytes(fields)) && st.async == Busy
    ensures var f := Frame('E', FieldsBytes(fields));
            && BodyContained('E', pre + f, |pre| + 5)
            && TurnAt(st, pre + f + post, |pre|, description)
               == Advance(st.(result := Some(Meaning(Failure(fields), description)), async := Ready), |pre + f|)
  {
    hide Frame, HeadAt, ReadFields, FieldsBytes, Ahead;
    var body := FieldsBytes(fields);
    var f := Frame('E', body);
    HeadOfFrame(pre, 'E', body, post);
    FrameAhead(pre, 'E', body, post);
    FrameAhead(pre, 'E', body, []);
    assert pre + f + [] == pre + f;
    ReadFieldsBytes(Ahead(pre, 'E', body), fields, post);
    ReadFieldsBytes(Ahead(pre, 'E', body), fields, []);
  }

  /** Messages without a body; `with` is the result that stands afterwards. */
  lemma TurnBare(st: State, pre: Bytes, id: Byte, post: Bytes, description: Option<seq<Column>>)
    requires st.async == Busy && id in {'I', '1', 'n', 's', '2', '3', 'c'}
    ensures BodyContained(id, pre + Frame(id, []), |pre| + 5)
    ensures var t := TurnAt(st, pre + Frame(id, []) + post, |pre|, description);
            && t.Advance? && t.start == |pre + Frame(id, [])|
            && (id == 'I' ==>
                  t.st == st.(async := Ready, result := Some(if st.result.Some? then st.result.value
                                                             else Meaning(NoQuery, None))))
            && (id == '1' ==>
                  t.st == if st.queryClass == Prepare
                          then st.(async := Ready, result := Some(if st.result.Some? then st.result.value
                                                                  else Meaning(Prepared, None)))
                          else st)
            && (id == 'n' ==>
                  t.st == if st.queryClass == Describe
                          then st.(async := Ready, result := Some(if st.result.Some? then st.result.value
                                                                  else Meaning(Described([], None), None)))
                          else st)
            && (id == 's' ==> t.st == st.(async := Ready))
            && (id == '2' ==> t.st == if st.queryClass == Bind then st.(async := Idle) else st)
            && (id == '3' || id == 'c' ==> t.st == st)
  {
    hide Frame, HeadAt;
    HeadOfFrame(pre, id, [], post);
  }

  lemma TurnTypes(st: State, pre: Bytes, types: seq<int>, post: Bytes, description: Option<seq<Column>>)
    requires ValidInts(types) && |types| < 0x1_0000 && Fits('t', TypesBody(types)) && st.async == Busy
    ensures var f := Frame('t', TypesBody(types));
            && BodyContained('t', pre + f, |pre| + 5)
            && TurnAt(st, pre + f + post, |pre|, description)
               == Advance(st.(result := Some(Meaning(Described(types, None), None))), |pre + f|)
  {
    hide Frame, HeadAt, ReadParameters, TypesBody, Ahead;
    var body := TypesBody(types);
    var f := Frame('t', body);
    HeadOfFrame(pre, 't', body, post);
    FrameAhead(pre, 't', body, post);
    FrameAhead(pre, 't', body, []);
    assert pre + f + [] == pre + f;
    ReadTypesBody(Ahead(pre, 't', body), types, post);
    ReadTypesBody(Ahead(pre, 't', body), types, []);
  }

  /** A row description that answers a describe request completes the result with the parameter types. */
  lemma TurnDescribed(st: State, pre: Bytes, types: seq<int>, cs: seq<Column>, post: Bytes,
                      description: Option<seq<Column>>)
    requires ValidColumns(cs) && |cs| < 0x1_0000 && Fits('T', DescriptionBody(cs))
    requires st.async == Busy && st.queryClass == Describe
    requires st.result == Some(Meaning(Described(types, None), None))
    ensures var f := Frame('T', DescriptionBody(cs));
            && BodyContained('T', pre + f, |pre| + 5)
            && TurnAt(st, pre + f + post, |pre|, description)
               == Advance(st.(result := Some(Meaning(Described(types, Some(cs)), None)), async := Ready), |pre + f|)
  {
    hide Frame, HeadAt, ReadRowDescription, DescriptionBody, Ahead;
    var body := DescriptionBody(cs);
    var f := Frame('T', body);
    HeadOfFrame(pre, 'T', body, post);
    FrameAhead(pre, 'T', body, post);
    FrameAhead(pre, 'T', body, []);
    assert pre + f + [] == pre + f;
    ReadDescriptionBody(Ahead(pre, 'T', body), cs, post);
    ReadDescriptionBody(Ahead(pre, 'T', body), cs, []);
  }

  /** The first row of a portal opens a result with the known description. */
  lemma TurnFirstRow(st: State, pre: Bytes, row: seq<Option<Bytes>>, post: Bytes, cs: seq<Column>)
    requires ValidRow(row) && |row| == |cs| < 0x1_0000 && Fits('D', RowBody(row))
    requires st.async == Busy && st.result.None?
    ensures var f := Frame('D', RowBody(row));
            TurnAt(st, pre + f + post, |pre|, Some(cs))
            == Advance(st.(result := Some(Meaning(Fetched([row], None), Some(cs)))), |pre + f|)
  {
    hide RowBody, Frame, HeadAt, ReadInt2, ReadValues, ReadRow, Ahead;
    HeadOfFrame(pre, 'D', RowBody(row), post);
    FrameAhead(pre, 'D', RowBody(row), post);
    ReadRowBody(Ahead(pre, 'D', RowBody(row)), row, post);
    assert [] + [row] == [row];
  }

  // ---- each answer is collected ------------------------------------------

  /** All that an answer says is in the result that becomes ready before the last message. */
  ghost predicate MadeReady(c: Conn, head: Bytes, r: Result, x: Byte, description: Option<seq<Column>>) {
    var b := c.buffer + (head + Frame('Z', [x]));
    && StreamExact(b, |c.buffer|)
    && Parse(Conn(c.st, b, |c.buffer|, true), description)
       == Parse(Conn(c.st.(result := Some(r), async := Ready), b, |c.buffer + head|, true), description)
  }

  lemma OneMessage(c: Conn, id: Byte, body: Bytes, r: Result, x: Byte, description: Option<seq<Column>>)
    requires Fits(id, body) && id !in ASIDE && BodyContained(id, c.buffer + Frame(id, body), |c.buffer| + 5)
    requires TurnAt(c.st, c.buffer + Frame(id, body) + Frame('Z', [x]), |c.buffer|, description)
             == Advance(c.st.(result := Some(r), async := Ready), |c.buffer + Frame(id, body)|)
    ensures MadeReady(c, Frame(id, body), r, x, description)
  {
    hide BodyContained, Frame, StreamExact, TurnAt;
    ExactHead(c.buffer, id, body, x);
    assert c.buffer + (Frame(id, body) + Frame('Z', [x])) == c.buffer + Frame(id, body) + Frame('Z', [x]);
  }

  lemma OneTurn(st: State, st': State, b: Bytes, i: nat, j: nat, description: Option<seq<Column>>)
    requires TurnAt(st, b, i, description) == Advance(st', j)
    ensures Parse(Conn(st, b, i, true), description) == Parse(Conn(st', b, j, true), description)
  {
    hide TurnAt;
  }

  lemma DescribedReady(c: Conn, types: seq<int>, columns: Option<seq<Column>>, x: Byte,
                       description: Option<seq<Column>>)
    requires ValidAnswer(Described(types, columns), c.st, description) && c.st.async == Busy
    ensures var a := Described(types, columns);
            MadeReady(c, Opening(a, c.st, description), Meaning(a, description), x, description)
  {
    hide BodyContained, Frame, StreamExact, TurnAt, TypesBody, DescriptionBody, ValidColumns, ValidInts, Parse;
    var t, z := Frame('t', TypesBody(types)), Frame('Z', [x]);
    var id, body := if columns.Some? then 'T' else 'n', if columns.Some? then DescriptionBody(columns.value) else [];
    var n := Frame(id, body);
    var b := c.buffer + (t + n + z);
    assert b == c.buffer + t + (n + z) && b == (c.buffer + t) + n + z && b == (c.buffer + t) + (n + z);
    TurnTypes(c.st, c.buffer, types, n + z, description);
    var st := c.st.(result := Some(Meaning(Described(types, None), None)));
    if columns.Some? {
      TurnDescribed(st, c.buffer + t, types, columns.value, z, description);
    } else {
      TurnBare(st, c.buffer + t, 'n', z, description);
    }
    var ready := c.st.(result := Some(Meaning(Described(types, columns), description)), async := Ready);
    OneTurn(c.st, st, b, |c.buffer|, |c.buffer + t|, description);
    OneTurn(st, ready, b, |c.buffer + t|, |c.buffer + t + n|, description);
    assert Opening(Described(types, columns), c.st, description) == t + n;
    ExactHead(c.buffer + t, id, body, x);
    ExactFrame(c.buffer, 't', TypesBody(types), n + z);
  }

  lemma FetchedExact(pre: Bytes, rows: seq<seq<Option<Bytes>>>, width: nat, id: Byte, body: Bytes, x: Byte)
    requires ValidRows(rows, width) && Fits(id, body) && id !in ASIDE
    requires BodyContained(id, pre + RowsBytes(rows, width) + Frame(id, body), |pre + RowsBytes(rows, width)| + 5)
    ensures StreamExact(pre + (RowsBytes(rows, width) + Frame(id, body) + Frame('Z', [x])), |pre|)
  {
    hide BodyContained, Frame, StreamExact, RowsBytes, ValidRows;
    var d, f, z := RowsBytes(rows, width), Frame(id, body), Frame('Z', [x]);
    var b := pre + (d + f + z);
    assert b == (pre + d) + (f + z) && b == pre + d + (f + z);
    ExactHead(pre + d, id, body, x);
    ExactRows(pre, rows, width, f + z);
  }

  lemma RowsFirst(rows: seq<seq<Option<Bytes>>>, width: nat)
    requires rows != [] && ValidRows(rows, width)
    ensures ValidRow(rows[0]) && |rows[0]| == width < 0x1_0000 && Fits('D', RowBody(rows[0]))
    ensures ValidRows(rows[1..], width)
    ensures RowsBytes(rows, width) == Frame('D', RowBody(rows[0])) + RowsBytes(rows[1..], width)
  {
    hide Frame, RowBody, ValidRow;
    assert rows[0] in rows;
  }

  /** The rows of a portal, one after the other. */
  lemma FetchedRows(c: Conn, rows: seq<seq<Option<Bytes>>>, post: Bytes, cs: seq<Column>)
    requires c.st.async == Busy && c.st.result.None? && rows != [] && ValidRows(rows, |cs|)
    ensures var pre := c.buffer + RowsBytes(rows, |cs|);
            Parse(Conn(c.st, pre + post, |c.buffer|, true), Some(cs))
            == Parse(Conn(c.st.(result := Some(Meaning(Fetched(rows, None), Some(cs)))), pre + post, |pre|, true),
                     Some(cs))
  {
    hide Frame, TurnAt, RowBody, ValidRow, RowsBytes, ValidRows, Parse;
    RowsFirst(rows, |cs|);
    var first, rest := Frame('D', RowBody(rows[0])), RowsBytes(rows[1..], |cs|);
    var pre := c.buffer + RowsBytes(rows, |cs|);
    var b := pre + post;
    assert b == c.buffer + first + (rest + post) && b == (c.buffer + first) + rest + post;
    TurnFirstRow(c.st, c.buffer, rows[0], rest + post, cs);
    var st := c.st.(result := Some(Meaning(Fetched([rows[0]], None), Some(cs))));
    OneTurn(c.st, st, b, |c.buffer|, |c.buffer + first|, Some(cs));
    ParseRows(st, c.buffer + first, rows[1..], post, Some(cs));
    assert [rows[0]] + rows[1..] == rows;
  }

  lemma FetchedReady(c: Conn, rows: seq<seq<Option<Bytes>>>, tag: Option<Bytes>, x: Byte, cs: seq<Column>)
    requires ValidAnswer(Fetched(rows, tag), c.st, Some(cs)) && c.st.async == Busy && c.st.result.None?
    ensures var a := Fetched(rows, tag);
            MadeReady(c, Opening(a, c.st, Some(cs)), Meaning(a, Some(cs)), x, Some(cs))
  {
    hide BodyContained, Frame, StreamExact, TurnAt, RowsBytes, ValidRows, Parse;
    var id, body := if tag.Some? then 'C' else 's', if tag.Some? then Text(tag.value) else [];
    var f, z := Frame(id, body), Frame('Z', [x]);
    var d := RowsBytes(rows, |cs|);
    var pre := c.buffer + d;
    var b := c.buffer + (d + f + z);
    assert b == pre + (f + z) && b == pre + f + z;
    FetchedRows(c, rows, f + z, cs);
    var st := c.st.(result := Some(Meaning(Fetched(rows, None), Some(cs))));
    if tag.Some? {
      TurnCommand(st, pre, tag.value, z, Some(cs));
      ContainedTag(pre, tag.value);
    } else {
      TurnBare(st, pre, 's', z, Some(cs));
    }
    var ready := c.st.(result := Some(Meaning(Fetched(rows, tag), Some(cs))), async := Ready);
    OneTurn(st, ready, b, |pre|, |pre + f|, Some(cs));
    FetchedExact(c.buffer, rows, |cs|, id, body, x);
    assert Opening(Fetched(rows, tag), c.st, Some(cs)) == d + f;
  }

  lemma ContainedTag(pre: Bytes, tag: Bytes)
    requires NUL !in tag && Fits('C', Text(tag))
    ensures BodyContained('C', pre + Frame('C', Text(tag)), |pre| + 5)
  {
    hide Frame, ReadString, Ahead;
    FrameAhead(pre, 'C', Text(tag), []);
    ReadText(Ahead(pre, 'C', Text(tag)), tag, []);
    assert pre + Frame('C', Text(tag)) + [] == pre + Frame('C', Text(tag));
  }

  lemma AnswerReady(c: Conn, a: Answer, x: Byte, description: Option<seq<Column>>)
    requires ValidAnswer(a, c.st, description) && c.st.async == Busy && (c.st.result.None? || a.Failure?)
    ensures MadeReady(c, Opening(a, c.st, description), Meaning(a, description), x, description)
  {
    hide BodyContained, Frame, TurnAt, MadeReady, FieldsBytes, ValidRows, ValidColumns, ValidInts, ValidFields;
    var pre, z := c.buffer, Frame('Z', [x]);
    match a
    case Command(tag) =>
      TurnTag(c.st, pre, tag, z, description);
      OneMessage(c, 'C', Text(tag), Meaning(a, description), x, description);
    case Failure(fields) =>
      TurnFailure(c.st, pre, fields, z, description);
      OneMessage(c, 'E', FieldsBytes(fields), Meaning(a, description), x, description);
    case NoQuery =>
      TurnBare(c.st, pre, 'I', z, description);
      OneMessage(c, 'I', [], Meaning(a, description), x, description);
    case Prepared =>
      TurnBare(c.st, pre, '1', z, description);
      OneMessage(c, '1', [], Meaning(a, description), x, description);
    case Described(types, columns) => DescribedReady(c, types, columns, x, description);
    case Fetched(rows, tag) => FetchedReady(c, rows, tag, x, description.value);
  }

  /** Every answer is collected as the one result that it means, and leaves the session idle. */
  lemma AnswerIsCollected(c: Conn, a: Answer, x: Byte, description: Option<seq<Column>>)
    requires ValidAnswer(a, c.st, description) && c.alive && c.inStart == |c.buffer|
    requires c.st.async == Busy && (c.st.result.None? || a.Failure?)
    ensures var bytes := AnswerBytes(a, x, c.st, description);
            && StreamExact(c.buffer + bytes, c.inStart)
            && var p := Pump(Receive(c, bytes), description);
               && p.results == [Meaning(a, description)]
               && p.conn.st == c.st.(result := None, xact := p.conn.st.xact, async := Idle)
               && Reports(x, p.conn.st.xact)
               && p.conn.inStart == |p.conn.buffer| == |c.buffer + bytes|
  {
    hide Frame, StreamExact, Parse, Opening, ValidAnswer, Meaning, Pump;
    AnswerReady(c, a, x, description);
    OneResult(c, Opening(a, c.st, description), c.st.(result := Some(Meaning(a, description)), async := Ready), x,
              description);
  }

  /** The same, however the network cuts the answer into reads. */
  lemma AnswerInAnyReads(c: Conn, a: Answer, x: Byte, chunks: seq<Bytes>, description: Option<seq<Column>>)
    requires ValidAnswer(a, c.st, description) && c.alive && c.inStart == |c.buffer|
    requires c.st.async == Busy && (c.st.result.None? || a.Failure?)
    requires chunks != [] && Concat(chunks) == AnswerBytes(a, x, c.st, description)
    ensures StreamExact(c.buffer + Concat(chunks), c.inStart)
    ensures var p := PumpReads(c, chunks, description);
            && p.results == [Meaning(a, description)]
            && p.conn.st == c.st.(result := None, xact := p.conn.st.xact, async := Idle)
            && Reports(x, p.conn.st.xact)
  {
    hide StreamExact, Pump, PumpReads, Concat, Meaning, AnswerBytes, ValidAnswer, Reports;
    AnswerIsCollected(c, a, x, description);
    ResultsOfAnySplit(c, chunks, description);
  }

  // ---- the three copy starts ----------------------------------------------

  ghost predicate ValidCopy(id: Byte, f: CopyFormat) {
    id in {'G', 'H', 'W'} && ValidFormats(f.formats) && |f.formats| < 0x1_0000 && Fits(id, CopyBody(f))
  }

  function CopyMode(id: Byte): (Status, Async) {
    if id == 'G' then (CopyInResult, CopyIn)
    else if id == 'H' then (CopyOutResult, CopyOut) else (CopyBothResult, CopyBoth)
  }

  /** A copy start gives up whatever result was pending and leaves the connection in its copy state. */
  lemma CopyStarts(c: Conn, id: Byte, f: CopyFormat, chunks: seq<Bytes>, description: Option<seq<Column>>)
    requires ValidCopy(id, f) && c.alive && c.inStart == |c.buffer| && c.st.async == Busy
    requires chunks != [] && Concat(chunks) == Frame(id, CopyBody(f))
    ensures StreamExact(c.buffer + Concat(chunks), c.inStart)
    ensures var p := PumpReads(c, chunks, description);
            && p.results == [] && p.conn.alive
            && p.conn.st == c.st.(result := Some(Result(CopyMode(id).0, [], [], [], f.formats, f.binary, [], [])),
                                  async := CopyMode(id).1)
            && p.conn.inStart == |p.conn.buffer|
  {
    hide Frame, HeadAt, ReadCopyFormat, CopyBody, Ahead, PumpReads, Concat, StreamExact;
    var frame := Frame(id, CopyBody(f));
    var b := c.buffer + frame;
    assert b + [] == b && c.buffer + frame + [] == b;
    HeadOfFrame(c.buffer, id, CopyBody(f), []);
    FrameAhead(c.buffer, id, CopyBody(f), []);
    ReadCopyBody(Ahead(c.buffer, id, CopyBody(f)), f, []);
    StreamEnds(b);
    ExactFrame(c.buffer, id, CopyBody(f), []);
    var st := c.st.(result := Some(Result(CopyMode(id).0, [], [], [], f.formats, f.binary, [], [])),
                    async := CopyMode(id).1);
    assert TurnAt(c.st, b, |c.buffer|, description) == Advance(st, |b|);
    AtTheEnd(st, b, description);
    assert Parse(Conn(st, b, |b|, true), description) == Conn(st, b, |b|, true);
    assert Parse(Receive(c, frame), description) == Conn(st, b, |b|, true);
    ResultsOfAnySplit(c, chunks, description);
  }

  // ---- what arrives besides -----------------------------------------------

  lemma ReadTexts(pre: Bytes, s: Bytes, t: Bytes, post: Bytes)
    requires NUL !in s && NUL !in t
    ensures ReadStrings(pre + (Text(s) + Text(t)) + post, |pre|) == Got((s, t), |pre| + |s| + |t| + 2)
  {
    hide ReadString;
    var b := pre + (Text(s) + Text(t)) + post;
    assert b == pre + Text(s) + (Text(t) + post) && b == (pre + Text(s)) + Text(t) + post;
    ReadText(pre, s, Text(t) + post);
    ReadText(pre + Text(s), t, post);
  }

  /** A parameter that the server reports is known from then on, idle or not. */
  lemma TurnParameter(st: State, pre: Bytes, name: Bytes, value: Bytes, post: Bytes, description: Option<seq<Column>>)
    requires NUL !in name && NUL !in value && Fits('S', Text(name) + Text(value))
    requires st.async == Busy || st.async == Idle
    ensures var f := Frame('S', Text(name) + Text(value));
            TurnAt(st, pre + f + post, |pre|, description)
            == Advance(st.(parameters := st.parameters[name := value]), |pre + f|)
  {
    hide Frame, HeadAt, ReadStrings, Ahead;
    var body := Text(name) + Text(value);
    HeadOfFrame(pre, 'S', body, post);
    FrameAhead(pre, 'S', body, post);
    ReadTexts(Ahead(pre, 'S', body), name, value, post);
  }

  function NotificationBody(n: Notification): Bytes
    requires IsInt4(n.pid)
  {
    Int4(n.pid) + (Text(n.channel) + Text(n.extra))
  }

  /** Notifications are queued in every state, also while a result waits. */
  lemma TurnNotification(st: State, pre: Bytes, n: Notification, post: Bytes, description: Option<seq<Column>>)
    requires IsInt4(n.pid) && NUL !in n.channel && NUL !in n.extra && Fits('A', NotificationBody(n))
    ensures var f := Frame('A', NotificationBody(n));
            TurnAt(st, pre + f + post, |pre|, description)
            == Advance(st.(notifications := st.notifications + [n]), |pre + f|)
  {
    hide Frame, HeadAt, ReadStrings, ReadInt4, Int4, Ahead;
    var body := NotificationBody(n);
    HeadOfFrame(pre, 'A', body, post);
    FrameAhead(pre, 'A', body, post);
    var ahead, texts := Ahead(pre, 'A', body), Text(n.channel) + Text(n.extra);
    FourBytes(n.pid);
    Regroup(ahead, Int4(n.pid), texts, post);
    ReadFour(ahead, n.pid, texts + post);
    ReadTexts(ahead + Int4(n.pid), n.channel, n.extra, post);
  }

  /** So are notices; an error that arrives while idle is one too, and touches no result. */
  lemma TurnNotice(st: State, pre: Bytes, id: Byte, fields: seq<Field>, post: Bytes, description: Option<seq<Column>>)
    requires ValidFields(fields) && Fits(id, FieldsBytes(fields)) && (id == 'N' || (id == 'E' && st.async == Idle))
    ensures var f := Frame(id, FieldsBytes(fields));
            TurnAt(st, pre + f + post, |pre|, description)
            == Advance(st.(notices := st.notices + [ServerNotice(fields)]), |pre + f|)
  {
    hide Frame, HeadAt, ReadFields, FieldsBytes, Ahead;
    var body := FieldsBytes(fields);
    HeadOfFrame(pre, id, body, post);
    FrameAhead(pre, id, body, post);
    ReadFieldsBytes(Ahead(pre, id, body), fields, post);
  }

  lemma TurnKeyData(st: State, pre: Bytes, pid: int, key: int, post: Bytes, description: Option<seq<Column>>)
    requires IsInt4(pid) && IsInt4(key) && Fits('K', Int4(pid) + Int4(key)) && st.async == Busy
    ensures var f := Frame('K', Int4(pid) + Int4(key));
            TurnAt(st, pre + f + post, |pre|, description)
            == Advance(st.(backendPid := pid, backendKey := key), |pre + f|)
  {
    hide Frame, HeadAt, ReadInt4, Int4, Ahead;
    var body := Int4(pid) + Int4(key);
    HeadOfFrame(pre, 'K', body, post);
    FrameAhead(pre, 'K', body, post);
    var ahead := Ahead(pre, 'K', body);
    FourBytes(pid);
    FourBytes(key);
    Regroup(ahead, Int4(pid), Int4(key), post);
    ReadFour(ahead, pid, Int4(key) + post);
    ReadFour(ahead + Int4(pid), key, post);
  }

  /** Whatever else arrives while idle is skipped; all but the echo of a bind leaves a notice. */
  lemma TurnIdle(st: State, pre: Bytes, id: Byte, body: Bytes, post: Bytes, description: Option<seq<Column>>)
    requires Fits(id, body) && st.async == Idle && id !in {'A', 'N', 'E', 'S'}
    ensures TurnAt(st, pre + Frame(id, body) + post, |pre|, description)
            == Advance(if id == 'Z' then st else st.(notices := st.notices + [WhileIdle(id)]), |pre + Frame(id, body)|)
  {
    hide Frame, HeadAt;
    HeadOfFrame(pre, id, body, post);
  }

  // ---- what goes wrong ----------------------------------------------------

  /** A result that only tells of one error. */
  function Refused(e: Error): Result { Result(FatalError, [], [], [], [], '\0', [], [e]) }

  /** An unexpected message is an error; it adds to one that is there already. */
  lemma TurnUnknown(st: State, pre: Bytes, id: Byte, body: Bytes, post: Bytes, description: Option<seq<Column>>)
    requires Fits(id, body) && st.async == Busy
    requires id !in {'A', 'N', 'C', 'E', 'Z', 'I', '1', '2', '3', 'S', 'K', 'T', 'n', 't', 'D', 'G', 'H', 'W'}
    requires id !in {'d', 'c', 's'}
    ensures TurnAt(st, pre + Frame(id, body) + post, |pre|, description)
            == Advance(st.(result := Some(
                             if st.result.Some? && st.result.value.status == FatalError
                             then st.result.value.(errors := st.result.value.errors + [UnexpectedResponse(id)])
                             else Refused(UnexpectedResponse(id))), async := Ready), |pre + Frame(id, body)|)
  {
    hide Frame, HeadAt;
    HeadOfFrame(pre, id, body, post);
  }

  /** After an error the rows and descriptions of the same query are skipped; copy data always is. */
  lemma TurnSkipped(st: State, pre: Bytes, id: Byte, body: Bytes, post: Bytes, description: Option<seq<Column>>)
    requires Fits(id, body) && st.async == Busy
    requires id == 'd' || (id in {'T', 'D'} && st.result.Some? && st.result.value.status == FatalError)
    ensures TurnAt(st, pre + Frame(id, body) + post, |pre|, description) == Advance(st, |pre + Frame(id, body)|)
  {
    hide Frame, HeadAt;
    HeadOfFrame(pre, id, body, post);
  }

  /** The description of a next result stays unread until the pending one was collected. */
  lemma TurnNextDescription(st: State, pre: Bytes, body: Bytes, post: Bytes, description: Option<seq<Column>>)
    requires Fits('T', body) && st.async == Busy && st.queryClass != Describe
    requires st.result.Some? && st.result.value.status != FatalError
    ensures TurnAt(st, pre + Frame('T', body) + post, |pre|, description) == Stop(st.(async := Ready))
  {
    hide Frame, HeadAt;
    HeadOfFrame(pre, 'T', body, post);
  }

  /** A row that does not have as many fields as the result has columns replaces the result by an error. */
  lemma TurnWrongRow(st: State, pre: Bytes, row: seq<Option<Bytes>>, post: Bytes, description: Option<seq<Column>>)
    requires ValidRow(row) && |row| < 0x1_0000 && Fits('D', RowBody(row))
    requires st.async == Busy && st.result.Some? && st.result.value.status == TuplesOk
    requires |st.result.value.columns| != |row|
    ensures var f := Frame('D', RowBody(row));
            TurnAt(st, pre + f + post, |pre|, description)
            == Advance(st.(result := Some(Refused(UnexpectedFieldCount))), |pre + f|)
  {
    hide RowBody, Frame, HeadAt, ReadInt2, ReadValues, ReadRow, Ahead;
    HeadOfFrame(pre, 'D', RowBody(row), post);
    FrameAhead(pre, 'D', RowBody(row), post);
    ReadRowBody(Ahead(pre, 'D', RowBody(row)), row, post);
  }

  /** A row without any description, from the server or the application, is an error. */
  lemma TurnStrayRow(st: State, pre: Bytes, body: Bytes, post: Bytes)
    requires Fits('D', body) && st.async == Busy
    requires st.result.Some? ==> st.result.value.status !in {TuplesOk, FatalError}
    ensures var f := Frame('D', body);
            TurnAt(st, pre + f + post, |pre|, None)
            == Advance(st.(result := Some(Refused(RowWithoutDescription))), |pre + f|)
  {
    hide Frame, HeadAt;
    HeadOfFrame(pre, 'D', body, post);
  }

  /** With a description from the application a row after another kind of result is left unread, which is an error. */
  lemma TurnUnreadRow(st: State, pre: Bytes, body: Bytes, post: Bytes, cs: seq<Column>)
    requires Fits('D', body) && body != [] && st.async == Busy
    requires st.result.Some? && st.result.value.status !in {TuplesOk, FatalError}
    ensures TurnAt(st, pre + Frame('D', body) + post, |pre|, Some(cs))
            == Advance(st.(result := Some(Refused(LengthMismatch('D'))), async := Ready), |pre + Frame('D', body)|)
  {
    hide Frame, HeadAt;
    HeadOfFrame(pre, 'D', body, post);
  }

  /** A description, parameter list or row that ends too early, with nothing behind it, is an error. */
  lemma TurnShort(st: State, pre: Bytes, id: Byte, body: Bytes, description: Option<seq<Column>>)
    requires Fits(id, body) && st.async == Busy && !BodyContained(id, pre + Frame(id, body), |pre| + 5)
    requires || id == 't'
             || (id == 'T' && st.result.None?)
             || (id == 'D' && st.result.Some? && st.result.value.status == TuplesOk
                 && (ReadInt2(pre + Frame(id, body), |pre| + 5).Got? ==>
                       ReadInt2(pre + Frame(id, body), |pre| + 5).value == |st.result.value.columns|))
    ensures TurnAt(st, pre + Frame(id, body), |pre|, description)
            == Advance(st.(result := Some(Refused(InsufficientData(id)))), |pre + Frame(id, body)|)
  {
    hide Frame, HeadAt, ReadColumns, ReadInt4s, ReadValues, ReadInt2;
    HeadOfFrame(pre, id, body, []);
    assert pre + Frame(id, body) + [] == pre + Frame(id, body);
  }

  /** Other messages that end too early halt the parser; an error gives up the pending result all the same. */
  lemma TurnHalts(st: State, pre: Bytes, id: Byte, body: Bytes, description: Option<seq<Column>>)
    requires Fits(id, body) && st.async == Busy && id in {'A', 'N', 'E', 'S', 'C', 'Z', 'G', 'H', 'W'}
    requires !BodyContained(id, pre + Frame(id, body), |pre| + 5)
    ensures TurnAt(st, pre + Frame(id, body), |pre|, description)
            == Stop(if id == 'E' then st.(result := None) else st)
  {
    hide Frame, HeadAt, ReadFields, ReadStrings, ReadString, ReadNotification, ReadCopyFormat, ReadByte;
    HeadOfFrame(pre, id, body, []);
    assert pre + Frame(id, body) + [] == pre + Frame(id, body);
  }

  /** Bytes behind the last field of a message are an error, after the message has taken effect. */
  lemma TurnTrailing(st: State, pre: Bytes, x: Byte, rest: Bytes, post: Bytes, description: Option<seq<Column>>)
    requires Fits('Z', [x] + rest) && rest != [] && st.async == Busy
    requires st.result.Some? ==> st.result.value.status != FatalError
    ensures var f := Frame('Z', [x] + rest);
            var t := TurnAt(st, pre + f + post, |pre|, description);
            && t == Advance(st.(result := Some(Refused(LengthMismatch('Z'))), xact := t.st.xact, async := Ready),
                            |pre + f|)
            && Reports(x, t.st.xact)
  {
    hide Frame, HeadAt, Ahead;
    HeadOfFrame(pre, 'Z', [x] + rest, post);
    FrameAhead(pre, 'Z', [x] + rest, post);
    assert (Ahead(pre, 'Z', [x] + rest) + ([x] + rest) + post)[|pre| + 5] == x;
  }

  /** Which messages may be longer than 30000 bytes. */
  lemma LongOnes(id: Byte, body: Bytes)
    ensures Fits(id, body) <==>
            |body| + 4 < 0x8000_0000
            && (id in {'T', 'D', 'd', 'V', 'E', 'N', 'A'} || |body| + 4 <= 30000)
  {
  }

  /** A stated length that cannot be right loses the connection, whatever else was received. */
  lemma TurnLost(st: State, pre: Bytes, id: Byte, n: int, post: Bytes, description: Option<seq<Column>>)
    requires IsInt4(n) && (n < 4 || (n > 30000 && id !in {'T', 'D', 'd', 'V', 'E', 'N', 'A'}))
    requires st.result.Some? ==> st.result.value.status != FatalError
    ensures TurnAt(st, pre + ([id] + Int4(n)) + post, |pre|, description)
            == Lost(st.(result := Some(Refused(SyncLost(id, n))), async := Ready))
  {
    hide Int4, ReadInt4;
    var b := pre + ([id] + Int4(n)) + post;
    assert b[|pre|] == id && b == (pre + [id]) + Int4(n) + post;
    ReadFour(pre + [id], n, post);
  }
}
