/**
  * `pqxParseInput3` as a state machine over whole messages: one turn of its endless loop is a
  * function of the state, the received bytes and the position of the next message.
  */
module PgParser {
  import opened Options
  import opened Octets
  import opened PgWire

  datatype Async = Idle | Busy | Ready | CopyIn | CopyOut | CopyBoth

  datatype Status = CommandOk | TuplesOk | EmptyQuery | FatalError | CopyInResult | CopyOutResult | CopyBothResult

  datatype QueryClass = Simple | Extended | Prepare | Describe | Bind

  datatype Xact = XactIdle | InTransaction | InError | Unknown

  datatype Error =
    | SyncLost(id: Byte, length: int)
    | LengthMismatch(id: Byte)
    | UnexpectedResponse(id: Byte)
    | RowWithoutDescription
    | InsufficientData(id: Byte)
    | UnexpectedFieldCount
    | Server(fields: seq<Field>)

  /** A PGresult; `errors` is what its error message was put together from. */
  datatype Result = Result(
    status: Status,
    columns: seq<Column>,
    parameters: seq<int>,
    rows: seq<seq<Option<Bytes>>>,
    formats: seq<int>,
    binary: Byte,
    commandTag: Bytes,
    errors: seq<Error>)

  datatype Notice = ServerNotice(fields: seq<Field>) | WhileIdle(id: Byte)

  datatype State = State(
    async: Async,
    result: Option<Result>,
    xact: Xact,
    queryClass: QueryClass,
    notices: seq<Notice>,
    notifications: seq<Notification>,
    parameters: map<Bytes, Bytes>,
    backendPid: int,
    backendKey: int)

  const COMMAND_TAG_LIMIT := 63

  function Empty(status: Status): Result { Result(status, [], [], [], [], NUL, [], []) }

  predicate Failed(st: State) { st.result.Some? && st.result.value.status == FatalError }

  /** `pqSaveErrorResult`: extend an error result, replace any other. */
  function SaveError(st: State, e: Error): State {
    if Failed(st) then st.(result := Some(st.result.value.(errors := st.result.value.errors + [e])))
    else st.(result := Some(Empty(FatalError).(errors := [e])))
  }

  /** Drop the result first, so that the error stands alone. */
  function ReplaceByError(st: State, e: Error): State { SaveError(st.(result := None), e) }

  function OrElse(r: Option<Result>, status: Status): Result { if r.Some? then r.value else Empty(status) }

  // ---- one message --------------------------------------------------------

  /** Stop parsing, or go on with the cursor where the handler left it. */
  datatype Outcome = Suspend(st: State) | Done(st: State, cursor: int)

  function Truncate(tag: Bytes): Bytes { if |tag| > COMMAND_TAG_LIMIT then tag[..COMMAND_TAG_LIMIT] else tag }

  function XactOf(c: Byte): Xact {
    if c == 'I' then XactIdle else if c == 'T' then InTransaction else if c == 'E' then InError else Unknown
  }

  function RowDescriptions(st: State, b: Bytes, pos: nat, end: nat): Outcome {
    match ReadRowDescription(b, pos)
    case NoData => Done(ReplaceByError(st, InsufficientData('T')), end)
    case Got(columns, next) =>
      if st.queryClass == Describe then
        Done(st.(result := Some(OrElse(st.result, CommandOk).(columns := columns)), async := Ready), next)
      else Done(st.(result := Some(Empty(TuplesOk).(columns := columns))), next)
  }

  function ParameterDescriptions(st: State, b: Bytes, pos: nat, end: nat): Outcome {
    match ReadParameters(b, pos)
    case NoData => Done(ReplaceByError(st, InsufficientData('t')), end)
    case Got(types, next) => Done(st.(result := Some(Empty(CommandOk).(parameters := types))), next)
  }

  /** The field count must be that of the result; only then are the values read. */
  function AnotherTuple(st: State, b: Bytes, pos: nat, end: nat): Outcome
    requires st.result.Some?
  {
    match ReadInt2(b, pos)
    case NoData => Done(ReplaceByError(st, InsufficientData('D')), end)
    case Got(n, p) =>
      if n != |st.result.value.columns| then Done(ReplaceByError(st, UnexpectedFieldCount), end)
      else
        match ReadValues(b, p, n)
        case NoData => Done(ReplaceByError(st, InsufficientData('D')), end)
        case Got(row, next) => Done(st.(result := Some(st.result.value.(rows := st.result.value.rows + [row]))), next)
  }

  function CopyStart(st: State, b: Bytes, pos: nat, status: Status, async: Async): Outcome {
    match ReadCopyFormat(b, pos)
    case NoData => Suspend(st)
    case Got(f, next) =>
      Done(st.(result := Some(Empty(status).(binary := f.binary, formats := f.formats)), async := async), next)
  }

  function ParameterStatus(st: State, b: Bytes, pos: nat): Outcome {
    match ReadStrings(b, pos)
    case NoData => Suspend(st)
    case Got(p, next) => Done(st.(parameters := st.parameters[p.0 := p.1]), next)
  }

  function Notify(st: State, b: Bytes, pos: nat): Outcome {
    match ReadNotification(b, pos)
    case NoData => Suspend(st)
    case Got(n, next) => Done(st.(notifications := st.notifications + [n]), next)
  }

  function NoticeMessage(st: State, b: Bytes, pos: nat): Outcome {
    match ReadFields(b, pos)
    case NoData => Suspend(st)
    case Got(fields, next) => Done(st.(notices := st.notices + [ServerNotice(fields)]), next)
  }

  /** An error gives up the result collected so far, even when its own fields are not complete. */
  function ErrorMessage(st: State, b: Bytes, pos: nat): Outcome {
    match ReadFields(b, pos)
    case NoData => Suspend(st.(result := None))
    case Got(fields, next) => Done(ReplaceByError(st, Server(fields)).(async := Ready), next)
  }

  function CommandComplete(st: State, b: Bytes, pos: nat, description: Option<seq<Column>>): Outcome {
    match ReadString(b, pos)
    case NoData => Suspend(st)
    case Got(tag, next) =>
      var r := if st.result.Some? then st.result.value
               else if description.Some? then Empty(CommandOk).(columns := description.value)
               else Empty(CommandOk);
      Done(st.(result := Some(r.(commandTag := Truncate(tag))), async := Ready), next)
  }

  function BackendKey(st: State, b: Bytes, pos: nat): Outcome {
    match ReadInt4(b, pos)
    case NoData => Suspend(st)
    case Got(pid, p) =>
      match ReadInt4(b, p)
      case NoData => Suspend(st.(backendPid := pid))
      case Got(key, next) => Done(st.(backendPid := pid, backendKey := key), next)
  }

  function DataRow(st: State, b: Bytes, pos: nat, end: nat, description: Option<seq<Column>>): Outcome {
    if st.result.Some? && st.result.value.status == TuplesOk then AnotherTuple(st, b, pos, end)
    else if Failed(st) then Done(st, end)
    else if description.None? then Done(SaveError(st, RowWithoutDescription), end)
    else if st.result.None? then
      AnotherTuple(st.(result := Some(Empty(TuplesOk).(columns := description.value))), b, pos, end)
    else Done(st, pos)
  }

  function WhenBusy(st: State, b: Bytes, pos: nat, end: nat, id: Byte, description: Option<seq<Column>>): Outcome {
    match id
    case 'C' => CommandComplete(st, b, pos, description)
    case 'E' => ErrorMessage(st, b, pos)
    case 'Z' =>
      (match ReadByte(b, pos)
       case NoData => Suspend(st)
       case Got(c, next) => Done(st.(xact := XactOf(c), async := Idle), next))
    case 'I' => Done(st.(result := Some(OrElse(st.result, EmptyQuery)), async := Ready), pos)
    case '1' =>
      if st.queryClass == Prepare then Done(st.(result := Some(OrElse(st.result, CommandOk)), async := Ready), pos)
      else Done(st, pos)
    case '2' => Done(if st.queryClass == Bind then st.(async := Idle) else st, pos)
    case '3' => Done(st, pos)
    case 'S' => ParameterStatus(st, b, pos)
    case 'K' => BackendKey(st, b, pos)
    case 'T' =>
      if Failed(st) then Done(st, end)
      else if st.result.None? || st.queryClass == Describe then RowDescriptions(st, b, pos, end)
      else Suspend(st.(async := Ready))
    case 'n' =>
      if st.queryClass == Describe then Done(st.(result := Some(OrElse(st.result, CommandOk)), async := Ready), pos)
      else Done(st, pos)
    case 't' => ParameterDescriptions(st, b, pos, end)
    case 'D' => DataRow(st, b, pos, end, description)
    case 'G' => CopyStart(st, b, pos, CopyInResult, CopyIn)
    case 'H' => CopyStart(st, b, pos, CopyOutResult, CopyOut)
    case 'W' => CopyStart(st, b, pos, CopyBothResult, CopyBoth)
    case 'd' => Done(st, end)
    case 'c' => Done(st, pos)
    case 's' => Done(st.(async := Ready), pos)
    case _ => Done(SaveError(st, UnexpectedResponse(id)).(async := Ready), end)
  }

  function WhenIdle(st: State, b: Bytes, pos: nat, end: nat, id: Byte): Outcome {
    match id
    case 'E' => NoticeMessage(st, b, pos)
    case 'S' => ParameterStatus(st, b, pos)
    case 'Z' => Done(st, end)
    case _ => Done(st.(notices := st.notices + [WhileIdle(id)]), end)
  }

  function Handle(st: State, b: Bytes, pos: nat, end: nat, id: Byte, description: Option<seq<Column>>): Outcome {
    if id == 'A' then Notify(st, b, pos)
    else if id == 'N' then NoticeMessage(st, b, pos)
    else if st.async == Busy then WhenBusy(st, b, pos, end, id, description)
    else if st.async == Idle then WhenIdle(st, b, pos, end, id)
    else Suspend(st)
  }

  // ---- one turn of the loop ----------------------------------------------

  predicate LongMessage(id: Byte) {
    id == 'T' || id == 'D' || id == 'd' || id == 'V' || id == 'E' || id == 'N' || id == 'A'
  }

  /** What the first five bytes of a message say. */
  datatype Head = Missing | Broken(id: Byte, length: int) | Head(id: Byte, end: nat)

  function HeadAt(b: Bytes, start: nat): (h: Head)
    ensures h.Head? ==> h.end >= start + 5
  {
    match ReadByte(b, start)
    case NoData => Missing
    case Got(id, p) =>
      match ReadInt4(b, p)
      case NoData => Missing
      case Got(n, _) =>
        if n < 4 || (n > 30000 && !LongMessage(id)) then Broken(id, n) else Head(id, start + 1 + n)
  }

  /** The whole message is there. */
  predicate Complete(b: Bytes, start: nat) { HeadAt(b, start).Head? && HeadAt(b, start).end <= |b| }

  datatype Turn = Stop(st: State) | Lost(st: State) | Advance(st: State, start: nat)

  function TurnAt(st: State, b: Bytes, start: nat, description: Option<seq<Column>>): (t: Turn)
    ensures t.Advance? ==> start < t.start <= |b|
  {
    match HeadAt(b, start)
    case Missing => Stop(st)
    case Broken(id, n) => Lost(SaveError(st, SyncLost(id, n)).(async := Ready))
    case Head(id, end) =>
      if end > |b| then Stop(st)
      else
        match Handle(st, b, start + 5, end, id, description)
        case Suspend(st') => Stop(st')
        case Done(st', cursor) =>
          Advance(if cursor == end then st' else SaveError(st', LengthMismatch(id)).(async := Ready), end)
  }

  // ---- the connection -----------------------------------------------------

  /** `alive` is false once the connection was dropped; then nothing is received any more. */
  datatype Conn = Conn(st: State, buffer: Bytes, inStart: nat, alive: bool)

  function Parse(c: Conn, description: Option<seq<Column>>): Conn
    decreases |c.buffer| - c.inStart
  {
    match TurnAt(c.st, c.buffer, c.inStart, description)
    case Stop(st) => c.(st := st)
    case Lost(st) => Conn(st, [], 0, false)
    case Advance(st, start) => Parse(c.(st := st, inStart := start), description)
  }

  function Receive(c: Conn, data: Bytes): Conn {
    if c.alive then c.(buffer := c.buffer + data) else c
  }

  // ---- messages that hold all their fields -------------------------------

  /** No field of the message runs past the bytes given, which end where the message ends. */
  predicate BodyContained(id: Byte, b: Bytes, pos: nat) {
    match id
    case 'A' => ReadNotification(b, pos).Got?
    case 'N' => ReadFields(b, pos).Got?
    case 'E' => ReadFields(b, pos).Got?
    case 'S' => ReadStrings(b, pos).Got?
    case 'C' => ReadString(b, pos).Got?
    case 'Z' => ReadByte(b, pos).Got?
    case 'K' => pos + 8 <= |b|
    case 'T' => ReadRowDescription(b, pos).Got?
    case 't' => ReadParameters(b, pos).Got?
    case 'D' => ReadRow(b, pos).Got?
    case 'G' => ReadCopyFormat(b, pos).Got?
    case 'H' => ReadCopyFormat(b, pos).Got?
    case 'W' => ReadCopyFormat(b, pos).Got?
    case _ => true
  }

  /** Every complete message of the stream is contained; the last one may still be on its way. */
  ghost predicate StreamContained(b: Bytes, start: nat)
    decreases |b| - start
  {
    Complete(b, start) ==>
      && BodyContained(HeadAt(b, start).id, b[..HeadAt(b, start).end], start + 5)
      && StreamContained(b, HeadAt(b, start).end)
  }

  lemma HeadMore(b: Bytes, more: Bytes, start: nat)
    requires !HeadAt(b, start).Missing?
    ensures HeadAt(b + more, start) == HeadAt(b, start)
  {
    IntsMore(b, more, start);
    IntsMore(b, more, start + 1);
  }

  /** A contained message is handled the same, whatever follows it. */
  lemma HandleMore(st: State, m: Bytes, more: Bytes, pos: nat, id: Byte, description: Option<seq<Column>>)
    requires BodyContained(id, m, pos) && pos <= |m|
    ensures Handle(st, m + more, pos, |m|, id, description) == Handle(st, m, pos, |m|, id, description)
  {
    hide ReadNotification, ReadFields, ReadStrings, ReadString, ReadRowDescription, ReadParameters;
    hide ReadValues, ReadCopyFormat;
    match id
    case 'A' => NotificationMore(m, more, pos);
    case 'N' => FieldsMore(m, more, pos);
    case 'E' => FieldsMore(m, more, pos);
    case 'S' => StringsMore(m, more, pos);
    case 'C' => StringMore(m, more, pos);
    case 'Z' => IntsMore(m, more, pos);
    case 'K' => IntsMore(m, more, pos); IntsMore(m, more, pos + 4);
    case 'T' => RowDescriptionMore(m, more, pos);
    case 't' => ParametersMore(m, more, pos);
    case 'D' => TupleMore(m, more, pos);
    case 'G' => CopyFormatMore(m, more, pos);
    case 'H' => CopyFormatMore(m, more, pos);
    case 'W' => CopyFormatMore(m, more, pos);
    case _ =>
  }

  lemma TupleMore(m: Bytes, more: Bytes, pos: nat)
    requires ReadRow(m, pos).Got?
    ensures ReadInt2(m + more, pos) == ReadInt2(m, pos) && ReadInt2(m, pos).Got?
    ensures var n := ReadInt2(m, pos); ReadValues(m + more, n.next, n.value) == ReadValues(m, n.next, n.value)
  {
    hide ReadValues;
    IntsMore(m, more, pos);
    ValuesMore(m, more, ReadInt2(m, pos).next, ReadInt2(m, pos).value);
  }

  lemma TurnMore(st: State, b: Bytes, more: Bytes, start: nat, description: Option<seq<Column>>)
    requires Complete(b, start) && BodyContained(HeadAt(b, start).id, b[..HeadAt(b, start).end], start + 5)
    ensures TurnAt(st, b + more, start, description) == TurnAt(st, b, start, description)
  {
    hide Handle, BodyContained;
    var h := HeadAt(b, start);
    HeadMore(b, more, start);
    var m := b[..h.end];
    assert b == m + b[h.end..] && b + more == m + (b[h.end..] + more);
    HandleMore(st, m, b[h.end..], start + 5, h.id, description);
    HandleMore(st, m, b[h.end..] + more, start + 5, h.id, description);
  }

  /** Where a contained message stops the parser, the parser stays. */
  lemma StopAgain(st: State, m: Bytes, pos: nat, end: nat, id: Byte, description: Option<seq<Column>>)
    requires BodyContained(id, m, pos) && pos <= |m|
    requires Handle(st, m, pos, end, id, description).Suspend?
    ensures var st' := Handle(st, m, pos, end, id, description).st;
            Handle(st', m, pos, end, id, description) == Suspend(st')
  {
    hide ReadNotification, ReadFields, ReadStrings, ReadString, ReadRowDescription, ReadParameters;
    hide ReadValues, ReadCopyFormat, ReadRow;
  }

  lemma TurnStopAgain(st: State, b: Bytes, more: Bytes, start: nat, description: Option<seq<Column>>)
    requires Complete(b, start) && BodyContained(HeadAt(b, start).id, b[..HeadAt(b, start).end], start + 5)
    requires TurnAt(st, b, start, description).Stop?
    ensures var st' := TurnAt(st, b, start, description).st;
            TurnAt(st', b + more, start, description) == Stop(st')
  {
    hide Handle, BodyContained;
    var h := HeadAt(b, start);
    var m := b[..h.end];
    var st' := TurnAt(st, b, start, description).st;
    assert b == m + b[h.end..];
    HandleMore(st, m, b[h.end..], start + 5, h.id, description);
    StopAgain(st, m, start + 5, h.end, h.id, description);
    HandleMore(st', m, b[h.end..], start + 5, h.id, description);
    TurnMore(st', b, more, start, description);
  }

  // ---- chunk invariance ---------------------------------------------------

  /** Parsing after a first read and again after a second gives what one parse of both gives. */
  lemma {:induction false} TwoReads(c: Conn, more: Bytes, description: Option<seq<Column>>)
    requires c.alive && StreamContained(c.buffer + more, c.inStart)
    ensures Parse(Receive(Parse(c, description), more), description) == Parse(Receive(c, more), description)
    decreases |c.buffer| - c.inStart
  {
    hide TurnAt, BodyContained;
    var b, start := c.buffer, c.inStart;
    var whole := Receive(c, more);
    if Complete(b, start) {
      HeadMore(b, more, start);
      assert (b + more)[..HeadAt(b, start).end] == b[..HeadAt(b, start).end];
      TurnMore(c.st, b, more, start, description);
      match TurnAt(c.st, b, start, description)
      case Stop(st) => TurnStopAgain(c.st, b, more, start, description);
      case Lost(st) => TurnNotLost(c.st, b, start, description);
      case Advance(st, next) =>
        AdvanceToEnd(c.st, b, start, description);
        TwoReads(c.(st := st, inStart := next), more, description);
        assert Receive(c.(st := st, inStart := next), more) == whole.(st := st, inStart := next);
    } else {
      Incomplete(c.st, b, more, start, description);
      NothingLeft(Parse(c, description).st, description);
    }
  }

  lemma AdvanceToEnd(st: State, b: Bytes, start: nat, description: Option<seq<Column>>)
    requires TurnAt(st, b, start, description).Advance?
    ensures Complete(b, start) && TurnAt(st, b, start, description).start == HeadAt(b, start).end
  {
    hide Handle;
  }

  lemma TurnNotLost(st: State, b: Bytes, start: nat, description: Option<seq<Column>>)
    requires Complete(b, start)
    ensures !TurnAt(st, b, start, description).Lost?
  {
    hide Handle;
  }

  /** Without a complete message nothing changes, or the connection is given up for good. */
  lemma Incomplete(st: State, b: Bytes, more: Bytes, start: nat, description: Option<seq<Column>>)
    requires !Complete(b, start)
    ensures TurnAt(st, b, start, description) == Stop(st) ||
            (TurnAt(st, b, start, description).Lost?
             && TurnAt(st, b + more, start, description) == TurnAt(st, b, start, description))
  {
    hide Handle;
    if !HeadAt(b, start).Missing? { HeadMore(b, more, start); }
  }

  lemma NothingLeft(st: State, description: Option<seq<Column>>)
    ensures TurnAt(st, [], 0, description) == Stop(st)
  {
  }

  function Concat(chunks: seq<Bytes>): Bytes {
    if chunks == [] then [] else chunks[0] + Concat(chunks[1..])
  }

  /** Parse after every read. */
  function ParseReads(c: Conn, chunks: seq<Bytes>, description: Option<seq<Column>>): Conn
    decreases |chunks|
  {
    if chunks == [] then c else ParseReads(Parse(Receive(c, chunks[0]), description), chunks[1..], description)
  }

  lemma {:induction false} DeadStays(c: Conn, chunks: seq<Bytes>, description: Option<seq<Column>>)
    requires !c.alive && c.buffer == [] && c.inStart == 0
    ensures ParseReads(c, chunks, description) == c == Parse(c, description)
    decreases |chunks|
  {
    NothingLeft(c.st, description);
    if chunks != [] { DeadStays(c, chunks[1..], description); }
  }

  lemma {:induction false} ParseKeeps(c: Conn, more: Bytes, description: Option<seq<Column>>)
    requires StreamContained(c.buffer + more, c.inStart)
    ensures var p := Parse(c, description);
            (p.alive == c.alive && p.buffer == c.buffer && StreamContained(c.buffer + more, p.inStart))
            || (!p.alive && p.buffer == [] && p.inStart == 0)
    decreases |c.buffer| - c.inStart
  {
    hide TurnAt, BodyContained;
    match TurnAt(c.st, c.buffer, c.inStart, description)
    case Stop(_) =>
    case Lost(_) =>
    case Advance(st, start) =>
      AdvanceToEnd(c.st, c.buffer, c.inStart, description);
      HeadMore(c.buffer, more, c.inStart);
      ParseKeeps(c.(st := st, inStart := start), more, description);
  }

  /** However the stream is cut into reads, the connection ends in the same state. */
  lemma {:induction false} AnySplit(c: Conn, chunks: seq<Bytes>, description: Option<seq<Column>>)
    requires chunks != [] && c.alive && StreamContained(c.buffer + Concat(chunks), c.inStart)
    ensures ParseReads(c, chunks, description) == Parse(Receive(c, Concat(chunks)), description)
    decreases |chunks|
  {
    hide StreamContained, Parse;
    var first, rest := chunks[0], chunks[1..];
    if rest == [] {
      assert Concat(chunks) == first;
    } else {
      var c0 := Receive(c, first);
      var c1 := Parse(c0, description);
      assert c.buffer + Concat(chunks) == c0.buffer + Concat(rest);
      TwoReads(c0, Concat(rest), description);
      ParseKeeps(c0, Concat(rest), description);
      if c1.alive {
        AnySplit(c1, rest, description);
      } else {
        DeadStays(c1, rest, description);
      }
    }
  }

  // ---- message boundaries, for every stream ------------------------------

  /** `k` is reached from `start` by whole messages; `aside` allows notices and notifications only. */
  ghost predicate Boundary(b: Bytes, start: nat, k: nat, aside: bool)
    decreases |b| - start
  {
    || k == start
    || (&& Complete(b, start) && (aside ==> HeadAt(b, start).id in ASIDE)
        && Boundary(b, HeadAt(b, start).end, k, aside))
  }

  /** The parser only ever moves from one message boundary to another. */
  lemma {:induction false} ParseToBoundary(c: Conn, description: Option<seq<Column>>)
    requires c.alive && Parse(c, description).alive
    ensures Parse(c, description).buffer == c.buffer
    ensures Boundary(c.buffer, c.inStart, Parse(c, description).inStart, false)
    decreases |c.buffer| - c.inStart
  {
    hide TurnAt;
    match TurnAt(c.st, c.buffer, c.inStart, description)
    case Stop(_) =>
    case Lost(_) =>
    case Advance(st, start) =>
      AdvanceToEnd(c.st, c.buffer, c.inStart, description);
      ParseToBoundary(c.(st := st, inStart := start), description);
  }

  lemma {:induction false} BoundaryMore(b: Bytes, more: Bytes, start: nat, k: nat, aside: bool)
    requires Boundary(b, start, k, aside)
    ensures Boundary(b + more, start, k, aside)
    decreases |b| - start
  {
    if k != start {
      HeadMore(b, more, start);
      BoundaryMore(b, more, HeadAt(b, start).end, k, aside);
    }
  }

  lemma {:induction false} BoundaryJoin(b: Bytes, start: nat, j: nat, k: nat, aside: bool)
    requires Boundary(b, start, j, aside) && Boundary(b, j, k, aside)
    ensures Boundary(b, start, k, aside)
    decreases |b| - start
  {
    if j != start { BoundaryJoin(b, HeadAt(b, start).end, j, k, aside); }
  }

  lemma {:induction false} ReadsToBoundary(c: Conn, chunks: seq<Bytes>, description: Option<seq<Column>>)
    requires c.alive && Boundary(c.buffer, 0, c.inStart, false)
    ensures var p := ParseReads(c, chunks, description);
            p.alive ==> p.buffer == c.buffer + Concat(chunks) && Boundary(p.buffer, 0, p.inStart, false)
    decreases |chunks|
  {
    hide Parse, Boundary;
    if chunks != [] {
      var c0 := Receive(c, chunks[0]);
      var c1 := Parse(c0, description);
      if c1.alive {
        ParseToBoundary(c0, description);
        BoundaryMore(c.buffer, chunks[0], 0, c.inStart, false);
        BoundaryJoin(c0.buffer, 0, c0.inStart, c1.inStart, false);
        ReadsToBoundary(c1, chunks[1..], description);
        assert c.buffer + Concat(chunks) == c1.buffer + Concat(chunks[1..]);
      } else {
        DroppedIsEmpty(c0, description);
        DeadStays(c1, chunks[1..], description);
      }
    }
  }

  lemma {:induction false} DroppedIsEmpty(c: Conn, description: Option<seq<Column>>)
    requires c.alive && !Parse(c, description).alive
    ensures Parse(c, description).buffer == [] && Parse(c, description).inStart == 0
    ensures Failed(Parse(c, description).st) && Parse(c, description).st.async == Ready
    decreases |c.buffer| - c.inStart
  {
    hide Handle;
    match TurnAt(c.st, c.buffer, c.inStart, description)
    case Stop(_) =>
    case Lost(_) =>
    case Advance(st, start) => DroppedIsEmpty(c.(st := st, inStart := start), description);
  }

  // ---- a result that waits ------------------------------------------------

  predicate Waiting(st: State) { st.async != Busy && st.async != Idle }

  const ASIDE: set<Byte> := {'A', 'N'}

  lemma WaitingTurn(st: State, b: Bytes, start: nat, description: Option<seq<Column>>)
    requires Waiting(st)
    ensures match TurnAt(st, b, start, description)
            case Stop(st') => st' == st
            case Lost(st') => Failed(st') && st'.async == Ready
            case Advance(st', _) =>
              && HeadAt(b, start).id in ASIDE && Waiting(st') && st'.xact == st.xact
              && (st'.result == st.result || Failed(st'))
  {
    hide ReadNotification, ReadFields;
  }

  /** While a result waits to be collected, only notices and notifications are consumed. */
  lemma {:induction false} WaitingConsumesNotices(c: Conn, description: Option<seq<Column>>)
    requires c.alive && Waiting(c.st) && Parse(c, description).alive
    ensures var p := Parse(c, description);
            && Boundary(c.buffer, c.inStart, p.inStart, true)
            && Waiting(p.st) && p.st.xact == c.st.xact
            && (p.st.result == c.st.result || Failed(p.st))
    decreases |c.buffer| - c.inStart
  {
    hide TurnAt;
    WaitingTurn(c.st, c.buffer, c.inStart, description);
    match TurnAt(c.st, c.buffer, c.inStart, description)
    case Stop(_) =>
    case Lost(_) =>
    case Advance(st, start) =>
      AdvanceToEnd(c.st, c.buffer, c.inStart, description);
      WaitingConsumesNotices(c.(st := st, inStart := start), description);
  }

  // ---- an error that stays ------------------------------------------------

  /** The messages whose handlers store a new result without looking at the old one. */
  const OVERWRITERS: set<Byte> := {'t', 'G', 'H', 'W'}

  predicate Overwrites(id: Byte, b: Bytes, pos: nat, end: nat) {
    || (id == 't' && ReadParameters(b, pos).Got? && ReadParameters(b, pos).next == end)
    || (id in {'G', 'H', 'W'} && ReadCopyFormat(b, pos).Got? && ReadCopyFormat(b, pos).next == end)
  }

  /** Every other message leaves a fatal error standing. */
  lemma FailedBusy(st: State, b: Bytes, pos: nat, end: nat, id: Byte, description: Option<seq<Column>>)
    requires Failed(st) && st.async == Busy && id !in OVERWRITERS
    ensures var h := WhenBusy(st, b, pos, end, id, description);
            Failed(h.st) || (h.Suspend? && id == 'E' && h.st == st.(result := None))
  {
    hide ReadFields, ReadStrings, ReadString, ReadInt4, RowDescriptions, ParameterDescriptions, AnotherTuple, CopyStart;
  }

  lemma OverwriterBusy(st: State, b: Bytes, pos: nat, end: nat, id: Byte, description: Option<seq<Column>>)
    requires Failed(st) && id in OVERWRITERS
    ensures match WhenBusy(st, b, pos, end, id, description)
            case Done(st', cursor) => Failed(st') || cursor != end <==> !Overwrites(id, b, pos, end)
            case Suspend(st') => true
  {
    hide ReadParameters, ReadCopyFormat;
  }

  /** One consumed message ends a fatal error exactly when it is an intact overwriter. */
  lemma FailureEndsOnlyBy(st: State, b: Bytes, start: nat, description: Option<seq<Column>>)
    requires Failed(st) && st.async == Busy && TurnAt(st, b, start, description).Advance?
    ensures var h := HeadAt(b, start);
            Failed(TurnAt(st, b, start, description).st) <==> !Overwrites(h.id, b, start + 5, h.end)
  {
    hide WhenBusy, ReadParameters, ReadCopyFormat, ReadNotification, ReadFields;
    var h := HeadAt(b, start);
    if h.id in OVERWRITERS {
      OverwriterBusy(st, b, start + 5, h.end, h.id, description);
    } else {
      FailedBusy(st, b, start + 5, h.end, h.id, description);
    }
  }

  /** The pending error, or nothing while an error message waits for its remaining bytes. */
  ghost predicate StillFailed(c: Conn) {
    Failed(c.st) ||
    (c.st.result.None? && c.st.async == Busy && Complete(c.buffer, c.inStart) && HeadAt(c.buffer, c.inStart).id == 'E')
  }

  lemma FailedTurn(c: Conn, description: Option<seq<Column>>)
    requires StillFailed(c)
    requires Complete(c.buffer, c.inStart) ==> HeadAt(c.buffer, c.inStart).id !in OVERWRITERS
    ensures match TurnAt(c.st, c.buffer, c.inStart, description)
            case Stop(st) => StillFailed(c.(st := st))
            case Lost(st) => Failed(st)
            case Advance(st, _) => Failed(st)
  {
    hide WhenBusy, ReadNotification, ReadFields, ReadStrings;
    var h := HeadAt(c.buffer, c.inStart);
    if h.Head? && Failed(c.st) && c.st.async == Busy && h.id !in OVERWRITERS {
      FailedBusy(c.st, c.buffer, c.inStart + 5, h.end, h.id, description);
    }
    if h.Head? && h.id == 'E' {
      assert WhenBusy(c.st, c.buffer, c.inStart + 5, h.end, h.id, description)
          == ErrorMessage(c.st, c.buffer, c.inStart + 5) by {
        ErrorCase(c.st, c.buffer, c.inStart + 5, h.end, description);
      }
    }
  }

  lemma ErrorCase(st: State, b: Bytes, pos: nat, end: nat, description: Option<seq<Column>>)
    ensures WhenBusy(st, b, pos, end, 'E', description) == ErrorMessage(st, b, pos)
  {
  }

  /** No complete message of the stream is of these kinds. */
  ghost predicate Without(b: Bytes, start: nat, ids: set<Byte>)
    decreases |b| - start
  {
    Complete(b, start) ==> HeadAt(b, start).id !in ids && Without(b, HeadAt(b, start).end, ids)
  }

  lemma {:induction false} FailureSurvivesParse(c: Conn, more: Bytes, description: Option<seq<Column>>)
    requires StillFailed(c) && Without(c.buffer + more, c.inStart, OVERWRITERS)
    ensures var p := Parse(c, description);
            StillFailed(p) && (p.alive ==> p.buffer == c.buffer && Without(c.buffer + more, p.inStart, OVERWRITERS))
    decreases |c.buffer| - c.inStart
  {
    hide TurnAt;
    if Complete(c.buffer, c.inStart) { HeadMore(c.buffer, more, c.inStart); }
    FailedTurn(c, description);
    match TurnAt(c.st, c.buffer, c.inStart, description)
    case Stop(_) =>
    case Lost(_) =>
    case Advance(st, start) =>
      AdvanceToEnd(c.st, c.buffer, c.inStart, description);
      FailureSurvivesParse(c.(st := st, inStart := start), more, description);
  }

  /** Over any reads of any stream without overwriters, a pending fatal error never becomes another result. */
  lemma {:induction false} FailureSurvivesReads(c: Conn, chunks: seq<Bytes>, description: Option<seq<Column>>)
    requires c.alive && StillFailed(c) && Without(c.buffer + Concat(chunks), c.inStart, OVERWRITERS)
    ensures StillFailed(ParseReads(c, chunks, description))
    ensures var r := ParseReads(c, chunks, description).st.result; r.Some? ==> r.value.status == FatalError
    decreases |chunks|
  {
    hide Parse, Without, TurnAt, HeadAt;
    if chunks != [] {
      var c0 := Receive(c, chunks[0]);
      var c1 := Parse(c0, description);
      assert c.buffer + Concat(chunks) == c0.buffer + Concat(chunks[1..]);
      StillFailedMore(c, chunks[0]);
      FailureSurvivesParse(c0, Concat(chunks[1..]), description);
      if c1.alive {
        FailureSurvivesReads(c1, chunks[1..], description);
      } else {
        DroppedIsEmpty(c0, description);
        DeadStays(c1, chunks[1..], description);
      }
    }
  }

  lemma StillFailedMore(c: Conn, data: Bytes)
    requires c.alive && StillFailed(c)
    ensures StillFailed(Receive(c, data))
  {
    if Complete(c.buffer, c.inStart) { HeadMore(c.buffer, data, c.inStart); }
  }

  // ---- collecting results -------------------------------------------------

  /** The READY case of PQXgetResult: hand the result over and let parsing go on. */
  function Collect(c: Conn): Conn { c.(st := c.st.(result := None, async := Busy)) }

  function Collected(c: Conn): Result { OrElse(c.st.result, FatalError) }

  /** Notices and notifications fill their messages exactly. */
  predicate AsideExact(id: Byte, b: Bytes, pos: nat) {
    && (id == 'A' ==> ReadNotification(b, pos).Got? && ReadNotification(b, pos).next == |b|)
    && (id == 'N' ==> ReadFields(b, pos).Got? && ReadFields(b, pos).next == |b|)
  }

  /** A stream in which no length is broken and every complete message is well-formed. */
  ghost predicate StreamExact(b: Bytes, start: nat)
    decreases |b| - start
  {
    && !HeadAt(b, start).Broken?
    && (Complete(b, start) ==>
          && BodyContained(HeadAt(b, start).id, b[..HeadAt(b, start).end], start + 5)
          && AsideExact(HeadAt(b, start).id, b[..HeadAt(b, start).end], start + 5)
          && StreamExact(b, HeadAt(b, start).end))
  }

  lemma {:induction false} ExactIsContained(b: Bytes, start: nat)
    requires StreamExact(b, start)
    ensures StreamContained(b, start)
    decreases |b| - start
  {
    hide BodyContained, AsideExact;
    if Complete(b, start) { ExactIsContained(b, HeadAt(b, start).end); }
  }

  lemma {:induction false} ExactPrefix(b: Bytes, more: Bytes, start: nat)
    requires StreamExact(b + more, start)
    ensures StreamExact(b, start)
    decreases |b| - start
  {
    hide BodyContained, AsideExact;
    if !HeadAt(b, start).Missing? { HeadMore(b, more, start); }
    if Complete(b, start) {
      var end := HeadAt(b, start).end;
      assert (b + more)[..end] == b[..end];
      ExactPrefix(b, more, end);
    }
  }

  lemma {:induction false} ParseKeepsExact(c: Conn, more: Bytes, description: Option<seq<Column>>)
    requires c.alive && StreamExact(c.buffer + more, c.inStart)
    ensures var p := Parse(c, description);
            && p.alive && p.buffer == c.buffer && StreamExact(c.buffer + more, p.inStart)
            && (p.inStart == c.inStart || c.inStart < p.inStart <= |c.buffer|)
    decreases |c.buffer| - c.inStart
  {
    hide Handle, BodyContained, AsideExact;
    if !HeadAt(c.buffer, c.inStart).Missing? { HeadMore(c.buffer, more, c.inStart); }
    match TurnAt(c.st, c.buffer, c.inStart, description)
    case Stop(_) =>
    case Lost(_) =>
    case Advance(st, start) => ParseKeepsExact(c.(st := st, inStart := start), more, description);
  }

  /** Notices and notifications are handled alike in every state and leave the result alone. */
  lemma AsideTurn(st: State, b: Bytes, start: nat, description: Option<seq<Column>>)
    requires Complete(b, start) && HeadAt(b, start).id in ASIDE
    requires AsideExact(HeadAt(b, start).id, b[..HeadAt(b, start).end], start + 5)
    ensures var t := TurnAt(st, b, start, description);
            var u := TurnAt(st.(result := None, async := Busy), b, start, description);
            && t.Advance? && t.start == HeadAt(b, start).end && t.st.async == st.async && t.st.result == st.result
            && u == Advance(t.st.(result := None, async := Busy), t.start)
  {
    hide ReadNotification, ReadFields;
    var end := HeadAt(b, start).end;
    assert b == b[..end] + b[end..];
    if HeadAt(b, start).id == 'A' {
      NotificationMore(b[..end], b[end..], start + 5);
    } else {
      FieldsMore(b[..end], b[end..], start + 5);
    }
  }

  lemma NotAside(st: State, b: Bytes, start: nat, description: Option<seq<Column>>)
    requires st.async == Ready && Complete(b, start) && HeadAt(b, start).id !in ASIDE
    ensures TurnAt(st, b, start, description) == Stop(st)
  {
  }

  /** What the parser takes in while a result waits makes no difference to that result or to what comes next. */
  lemma {:induction false} CollectLater(c: Conn, description: Option<seq<Column>>)
    requires c.alive && c.st.async == Ready && StreamExact(c.buffer, c.inStart)
    ensures var p := Parse(c, description);
            && p.st.async == Ready && p.st.result == c.st.result
            && Parse(Collect(p), description) == Parse(Collect(c), description)
    decreases |c.buffer| - c.inStart
  {
    hide TurnAt, BodyContained, AsideExact;
    if !Complete(c.buffer, c.inStart) {
      NotBroken(c.st, c.buffer, c.inStart, description);
    } else if HeadAt(c.buffer, c.inStart).id in ASIDE {
      AsideTurn(c.st, c.buffer, c.inStart, description);
      var t := TurnAt(c.st, c.buffer, c.inStart, description);
      CollectLater(c.(st := t.st, inStart := t.start), description);
    } else {
      NotAside(c.st, c.buffer, c.inStart, description);
    }
  }

  lemma NotBroken(st: State, b: Bytes, start: nat, description: Option<seq<Column>>)
    requires !Complete(b, start) && !HeadAt(b, start).Broken?
    ensures TurnAt(st, b, start, description) == Stop(st)
  {
  }

  /** Becoming ready takes a message, once the previous result was collected. */
  lemma ReadyTakesMessage(c: Conn, description: Option<seq<Column>>)
    requires c.alive && StreamExact(c.buffer, c.inStart)
    ensures c.st.async == Busy && c.st.result.None? && Parse(c, description).st.async == Ready ==>
              Parse(c, description).inStart > c.inStart
  {
    hide BodyContained, AsideExact, ReadNotification, ReadFields, ReadStrings, ReadString, ReadRowDescription;
    hide ReadParameters, ReadValues, ReadCopyFormat;
    match TurnAt(c.st, c.buffer, c.inStart, description)
    case Stop(_) =>
    case Lost(_) =>
    case Advance(st, start) =>
      assert StreamExact(c.buffer, start);
      assert c.buffer + [] == c.buffer;
      ParseKeepsExact(c.(st := st, inStart := start), [], description);
  }

  datatype Pumped = Pumped(conn: Conn, results: seq<Result>)

  /** Parse, collect what is ready, and go on until nothing more is ready. */
  ghost function Pump(c: Conn, description: Option<seq<Column>>): Pumped
    requires c.alive && StreamExact(c.buffer, c.inStart)
    decreases |c.buffer| - c.inStart, c.st.async != Busy || c.st.result.Some?
  {
    assert c.buffer + [] == c.buffer;
    ParseKeepsExact(c, [], description);
    ReadyTakesMessage(c, description);
    var p := Parse(c, description);
    if p.st.async != Ready then Pumped(p, [])
    else
      var q := Pump(Collect(p), description);
      Pumped(q.conn, [Collected(p)] + q.results)
  }

  lemma PumpByParse(c: Conn, d: Conn, description: Option<seq<Column>>)
    requires c.alive && StreamExact(c.buffer, c.inStart)
    requires d.alive && StreamExact(d.buffer, d.inStart)
    requires Parse(c, description) == Parse(d, description)
    ensures Pump(c, description) == Pump(d, description)
  {
    hide Parse, StreamExact;
  }

  /** A result that is ready can be collected at once. */
  lemma PumpReady(c: Conn, description: Option<seq<Column>>)
    requires c.alive && c.st.async == Ready && StreamExact(c.buffer, c.inStart)
    ensures var q := Pump(Collect(c), description);
            Pump(c, description) == Pumped(q.conn, [Collected(c)] + q.results)
  {
    hide Parse, StreamExact;
    CollectLater(c, description);
    assert c.buffer + [] == c.buffer;
    ParseKeepsExact(c, [], description);
    PumpByParse(Collect(Parse(c, description)), Collect(c), description);
  }

  /** The results that the application collects do not depend on how the stream is cut into reads. */
  lemma {:induction false} ResultsOfTwoReads(c: Conn, more: Bytes, description: Option<seq<Column>>)
    requires c.alive && StreamExact(c.buffer, c.inStart) && StreamExact(c.buffer + more, c.inStart)
    ensures var p := Pump(c, description);
            && p.conn.alive && p.conn.buffer == c.buffer && StreamExact(c.buffer + more, p.conn.inStart)
            && var q := Pump(Receive(p.conn, more), description);
               Pump(Receive(c, more), description) == Pumped(q.conn, p.results + q.results)
    decreases |c.buffer| - c.inStart, c.st.async != Busy || c.st.result.Some?
  {
    hide Parse, StreamExact, StreamContained;
    var p := Parse(c, description);
    assert c.buffer + [] == c.buffer;
    ParseKeepsExact(c, [], description);
    ParseKeepsExact(c, more, description);
    ExactIsContained(c.buffer + more, c.inStart);
    TwoReads(c, more, description);
    PumpByParse(Receive(p, more), Receive(c, more), description);
    if p.st.async == Ready {
      ReadyTakesMessage(c, description);
      ResultsOfTwoReads(Collect(p), more, description);
      PumpReady(Receive(p, more), description);
      assert Collect(Receive(p, more)) == Receive(Collect(p), more);
      var rest := Pump(Collect(p), description);
      var q := Pump(Receive(rest.conn, more), description);
      assert [Collected(p)] + (rest.results + q.results) == [Collected(p)] + rest.results + q.results;
    } else {
      var q := Pump(Receive(p, more), description);
      assert [] + q.results == q.results;
    }
  }

  /** Parse and collect after every read. */
  ghost function PumpReads(c: Conn, chunks: seq<Bytes>, description: Option<seq<Column>>): Pumped
    requires c.alive && StreamExact(c.buffer + Concat(chunks), c.inStart)
    decreases |chunks|
  {
    if chunks == [] then Pumped(c, [])
    else
      var c0 := Receive(c, chunks[0]);
      assert c.buffer + Concat(chunks) == c0.buffer + Concat(chunks[1..]);
      ExactPrefix(c0.buffer, Concat(chunks[1..]), c.inStart);
      ResultsOfTwoReads(c0, Concat(chunks[1..]), description);
      var p := Pump(c0, description);
      var q := PumpReads(p.conn, chunks[1..], description);
      Pumped(q.conn, p.results + q.results)
  }

  lemma {:induction false} ResultsOfAnySplit(c: Conn, chunks: seq<Bytes>, description: Option<seq<Column>>)
    requires chunks != [] && c.alive && StreamExact(c.buffer + Concat(chunks), c.inStart)
    ensures PumpReads(c, chunks, description) == Pump(Receive(c, Concat(chunks)), description)
    decreases |chunks|
  {
    hide Pump, StreamExact;
    var first, rest := chunks[0], chunks[1..];
    var c0 := Receive(c, first);
    assert c.buffer + Concat(chunks) == c0.buffer + Concat(rest);
    ExactPrefix(c0.buffer, Concat(rest), c.inStart);
    ResultsOfTwoReads(c0, Concat(rest), description);
    if rest == [] {
      assert Concat(chunks) == first;
      var p := Pump(c0, description);
      assert p.results + [] == p.results;
    } else {
      ResultsOfAnySplit(Pump(c0, description).conn, rest, description);
    }
  }
}
