/** The connection object that `pqxParseInput3` and its helpers update in place. */
module PgConnection {
  import opened Options
  import opened Octets
  import opened PgWire
  import opened PgParser
  import opened PgMessages
  import opened PgReplies

  class PgConn {
    var buffer: Bytes
    var inStart: nat
    var inCursor: int
    var alive: bool
    var async: Async
    var result: Option<Result>
    var xact: Xact
    var queryClass: QueryClass
    var notices: seq<Notice>
    var notifications: seq<Notification>
    var parameters: map<Bytes, Bytes>
    var backendPid: int
    var backendKey: int

    ghost function St(): State
      reads this
    {
      State(async, result, xact, queryClass, notices, notifications, parameters, backendPid, backendKey)
    }

    ghost function Snapshot(): Conn
      reads this
    {
      Conn(St(), buffer, inStart, alive)
    }

    constructor (query: QueryClass)
      ensures alive && buffer == [] && inStart == 0 && async == Busy && result == None && queryClass == query
    {
      buffer, inStart, inCursor, alive := [], 0, 0, true;
      async, result, xact, queryClass := Busy, None, XactIdle, query;
      notices, notifications, parameters, backendPid, backendKey := [], [], map[], 0, 0;
    }

    /** More bytes from the socket; a dropped connection has no socket. */
    method ReadData(data: Bytes)
      modifies this`buffer
      ensures Snapshot() == Receive(old(Snapshot()), data)
    {
      if alive {
        buffer := buffer + data;
      }
    }

    method SaveErrorResult(e: Error)
      modifies this`result
      ensures St() == SaveError(old(St()), e)
    {
      if result.None? || result.value.status != FatalError {
        result := Some(Empty(FatalError).(errors := [e]));
      } else {
        result := Some(result.value.(errors := result.value.errors + [e]));
      }
    }

    method HandleSyncLoss(id: Byte, length: int)
      modifies this`result, this`async, this`buffer, this`inStart, this`inCursor, this`alive
      ensures Snapshot() == Conn(SaveError(old(St()), SyncLost(id, length)).(async := Ready), [], 0, false)
    {
      SaveErrorResult(SyncLost(id, length));
      async := Ready;
      buffer, inStart, inCursor := [], 0, 0;
      alive := false;
    }

    /** The error exits of the readers below: the message counts as consumed. */
    method AdvanceAndError(e: Error, end: int)
      modifies this`result, this`inCursor
      ensures Done(St(), inCursor) == Done(ReplaceByError(old(St()), e), end)
    {
      result := None;
      SaveErrorResult(e);
      inCursor := end;
    }

    method GetRowDescriptions(end: nat)
      requires 0 <= inCursor <= |buffer|
      modifies this`result, this`async, this`inCursor
      ensures Done(St(), inCursor) == RowDescriptions(old(St()), buffer, old(inCursor), end)
    {
      hide ReadColumn, ReadColumns;
      var r := if queryClass == Describe then OrElse(result, CommandOk) else Empty(TuplesOk);
      var count := ReadInt2(buffer, inCursor);
      if count.NoData? {
        AdvanceAndError(InsufficientData('T'), end);
        return;
      }
      inCursor := count.next;
      var columns := [];
      assert Prefixed(columns, ReadColumns(buffer, inCursor, count.value))
          == ReadColumns(buffer, count.next, count.value) by {
        PrefixNothing(ReadColumns(buffer, inCursor, count.value));
      }
      for i := 0 to count.value
        invariant 0 <= inCursor <= |buffer|
        invariant St() == old(St())
        invariant Prefixed(columns, ReadColumns(buffer, inCursor, count.value - i))
                  == ReadColumns(buffer, count.next, count.value)
      {
        ColumnsStep(buffer, inCursor, count.value - i, columns);
        var column := ReadColumn(buffer, inCursor);
        if column.NoData? {
          AdvanceAndError(InsufficientData('T'), end);
          return;
        }
        inCursor := column.next;
        columns := columns + [column.value];
      }
      NoColumnsLeft(buffer, inCursor, columns);
      result := Some(r.(columns := columns));
      if queryClass == Describe {
        async := Ready;
      }
    }

    method GetParamDescriptions(end: nat)
      requires 0 <= inCursor <= |buffer|
      modifies this`result, this`inCursor
      ensures Done(St(), inCursor) == ParameterDescriptions(old(St()), buffer, old(inCursor), end)
    {
      hide ReadInt4, ReadInt4s;
      var count := ReadInt2(buffer, inCursor);
      if count.NoData? {
        AdvanceAndError(InsufficientData('t'), end);
        return;
      }
      inCursor := count.next;
      var types := [];
      assert Prefixed(types, ReadInt4s(buffer, inCursor, count.value))
          == ReadInt4s(buffer, count.next, count.value) by {
        PrefixNothing(ReadInt4s(buffer, inCursor, count.value));
      }
      for i := 0 to count.value
        invariant 0 <= inCursor <= |buffer|
        invariant St() == old(St())
        invariant Prefixed(types, ReadInt4s(buffer, inCursor, count.value - i))
                  == ReadInt4s(buffer, count.next, count.value)
      {
        Int4sStep(buffer, inCursor, count.value - i, types);
        var typeId := ReadInt4(buffer, inCursor);
        if typeId.NoData? {
          AdvanceAndError(InsufficientData('t'), end);
          return;
        }
        inCursor := typeId.next;
        types := types + [typeId.value];
      }
      NoInt4sLeft(buffer, inCursor, types);
      result := Some(Empty(CommandOk).(parameters := types));
    }

    method GetAnotherTuple(end: nat)
      requires 0 <= inCursor <= |buffer| && result.Some?
      modifies this`result, this`inCursor
      ensures Done(St(), inCursor) == AnotherTuple(old(St()), buffer, old(inCursor), end)
    {
      hide ReadValue, ReadValues;
      var count := ReadInt2(buffer, inCursor);
      if count.NoData? {
        AdvanceAndError(InsufficientData('D'), end);
        return;
      }
      if count.value != |result.value.columns| {
        AdvanceAndError(UnexpectedFieldCount, end);
        return;
      }
      inCursor := count.next;
      var row := [];
      assert Prefixed(row, ReadValues(buffer, inCursor, count.value))
          == ReadValues(buffer, count.next, count.value) by {
        PrefixNothing(ReadValues(buffer, inCursor, count.value));
      }
      for i := 0 to count.value
        invariant 0 <= inCursor <= |buffer|
        invariant St() == old(St())
        invariant Prefixed(row, ReadValues(buffer, inCursor, count.value - i))
                  == ReadValues(buffer, count.next, count.value)
      {
        ValuesStep(buffer, inCursor, count.value - i, row);
        var value := ReadValue(buffer, inCursor);
        if value.NoData? {
          AdvanceAndError(InsufficientData('D'), end);
          return;
        }
        inCursor := value.next;
        row := row + [value.value];
      }
      NoValuesLeft(buffer, inCursor, row);
      result := Some(result.value.(rows := result.value.rows + [row]));
    }

    method GetCopyStart(status: Status) returns (eof: bool)
      requires 0 <= inCursor <= |buffer|
      modifies this`result, this`inCursor
      ensures eof <==> ReadCopyFormat(buffer, old(inCursor)).NoData?
      ensures eof ==> St() == old(St())
      ensures !eof ==>
                var f := ReadCopyFormat(buffer, old(inCursor));
                var r := Empty(status).(binary := f.value.binary, formats := f.value.formats);
                inCursor == f.next && St() == old(St()).(result := Some(r))
    {
      hide ReadInt2, ReadFormats;
      var binary := ReadByte(buffer, inCursor);
      if binary.NoData? {
        return true;
      }
      inCursor := binary.next;
      var count := ReadInt2(buffer, inCursor);
      if count.NoData? {
        return true;
      }
      inCursor := count.next;
      var formats := [];
      assert count.value >= 0 by { CountIsNat(buffer, binary.next); }
      assert Prefixed(formats, ReadFormats(buffer, inCursor, count.value))
          == ReadFormats(buffer, count.next, count.value) by {
        PrefixNothing(ReadFormats(buffer, inCursor, count.value));
      }
      for i := 0 to count.value
        invariant 0 <= inCursor <= |buffer|
        invariant St() == old(St())
        invariant Prefixed(formats, ReadFormats(buffer, inCursor, count.value - i))
                  == ReadFormats(buffer, count.next, count.value)
      {
        FormatsStep(buffer, inCursor, count.value - i, formats);
        var format := ReadInt2(buffer, inCursor);
        if format.NoData? {
          return true;
        }
        inCursor := format.next;
        formats := formats + [Signed(format.value, 0x8000)];
      }
      NoFormatsLeft(buffer, inCursor, formats);
      result := Some(Empty(status).(binary := binary.value, formats := formats));
      eof := false;
    }

    method GetReadyForQuery() returns (eof: bool)
      requires 0 <= inCursor <= |buffer|
      modifies this`xact, this`inCursor
      ensures eof <==> ReadByte(buffer, old(inCursor)).NoData?
      ensures eof ==> St() == old(St())
      ensures !eof ==> var c := ReadByte(buffer, old(inCursor));
                       inCursor == c.next && St() == old(St()).(xact := XactOf(c.value))
    {
      var status := ReadByte(buffer, inCursor);
      if status.NoData? {
        return true;
      }
      inCursor := status.next;
      match status.value {
        case 'I' => xact := XactIdle;
        case 'T' => xact := InTransaction;
        case 'E' => xact := InError;
        case _ => xact := Unknown;
      }
      eof := false;
    }

    method GetParameterStatus() returns (eof: bool)
      requires 0 <= inCursor <= |buffer|
      modifies this`parameters, this`inCursor
      ensures Left(eof) == ParameterStatus(old(St()), buffer, old(inCursor))
    {
      hide ReadString;
      var name := ReadString(buffer, inCursor);
      if name.NoData? {
        return true;
      }
      var value := ReadString(buffer, name.next);
      if value.NoData? {
        return true;
      }
      inCursor := value.next;
      parameters := parameters[name.value := value.value];
      eof := false;
    }

    method GetNotify() returns (eof: bool)
      requires 0 <= inCursor <= |buffer|
      modifies this`notifications, this`inCursor
      ensures Left(eof) == Notify(old(St()), buffer, old(inCursor))
    {
      hide ReadString, ReadInt4;
      var pid := ReadInt4(buffer, inCursor);
      if pid.NoData? {
        return true;
      }
      var channel := ReadString(buffer, pid.next);
      if channel.NoData? {
        return true;
      }
      var extra := ReadString(buffer, channel.next);
      if extra.NoData? {
        return true;
      }
      inCursor := extra.next;
      notifications := notifications + [Notification(pid.value, channel.value, extra.value)];
      eof := false;
    }

    /** `pqGetErrorNotice3`; an error also drops the result at once. */
    method GetErrorNotice(isError: bool) returns (eof: bool)
      requires 0 <= inCursor <= |buffer|
      modifies this`notices, this`result, this`inCursor
      ensures !isError ==> Left(eof) == NoticeMessage(old(St()), buffer, old(inCursor))
      ensures isError ==> (eof <==> ReadFields(buffer, old(inCursor)).NoData?)
      ensures isError && eof ==> St() == old(St()).(result := None)
      ensures isError && !eof ==> var f := ReadFields(buffer, old(inCursor));
                                  inCursor == f.next && St() == ReplaceByError(old(St()), Server(f.value))
    {
      hide ReadFields;
      if isError {
        result := None;
      }
      var fields := ReadFields(buffer, inCursor);
      if fields.NoData? {
        return true;
      }
      inCursor := fields.next;
      if isError {
        result := Some(Empty(FatalError).(errors := [Server(fields.value)]));
      } else {
        notices := notices + [ServerNotice(fields.value)];
      }
      eof := false;
    }

    /** How a handler was left. */
    ghost function Left(suspended: bool): Outcome
      reads this
    {
      if suspended then Suspend(St()) else Done(St(), inCursor)
    }

    method CommandCompleted(description: Option<seq<Column>>) returns (suspended: bool)
      requires 0 <= inCursor <= |buffer|
      modifies this`result, this`async, this`inCursor
      ensures Left(suspended) == CommandComplete(old(St()), buffer, old(inCursor), description)
    {
      hide ReadString;
      var tag := ReadString(buffer, inCursor);
      if tag.NoData? {
        return true;
      }
      inCursor := tag.next;
      if result.None? {
        result := Some(Empty(CommandOk));
        if description.Some? {
          result := Some(result.value.(columns := description.value));
        }
      }
      result := Some(result.value.(commandTag := Truncate(tag.value)));
      async := Ready;
      suspended := false;
    }

    method DataRowArrived(description: Option<seq<Column>>, end: nat)
      requires 0 <= inCursor <= |buffer|
      modifies this`result, this`inCursor
      ensures Done(St(), inCursor) == DataRow(old(St()), buffer, old(inCursor), end, description)
    {
      hide AnotherTuple;
      if result.Some? && result.value.status == TuplesOk {
        GetAnotherTuple(end);
      } else if result.Some? && result.value.status == FatalError {
        inCursor := end;
      } else if description.Some? {
        if result.None? {
          result := Some(Empty(TuplesOk).(columns := description.value));
          GetAnotherTuple(end);
        }
      } else {
        SaveErrorResult(RowWithoutDescription);
        inCursor := end;
      }
    }

    method BusyMessage(id: Byte, end: nat, description: Option<seq<Column>>) returns (suspended: bool)
      requires 0 <= inCursor <= |buffer|
      modifies this`async, this`result, this`xact, this`notices, this`parameters, this`backendPid
      modifies this`backendKey, this`inCursor
      ensures Left(suspended) == WhenBusy(old(St()), buffer, old(inCursor), end, id, description)
    {
      hide ReadFields, ReadStrings, ReadString, ReadInt4, ReadByte, ReadCopyFormat;
      hide CommandComplete, DataRow, RowDescriptions, ParameterDescriptions, ParameterStatus, SaveError;
      hide XactOf, Empty, OrElse;
      suspended := false;
      match id {
        case 'C' =>
          suspended := CommandCompleted(description);
        case 'E' =>
          suspended := GetErrorNotice(true);
          if !suspended {
            async := Ready;
          }
        case 'Z' =>
          suspended := GetReadyForQuery();
          if !suspended {
            async := Idle;
          }
        case 'I' =>
          result := Some(OrElse(result, EmptyQuery));
          async := Ready;
        case '1' =>
          if queryClass == Prepare {
            result := Some(OrElse(result, CommandOk));
            async := Ready;
          }
        case '2' =>
          if queryClass == Bind {
            async := Idle;
          }
        case '3' =>
        case 'S' =>
          suspended := GetParameterStatus();
        case 'K' =>
          suspended := GetBackendKey();
        case 'T' =>
          if result.Some? && result.value.status == FatalError {
            inCursor := end;
          } else if result.None? || queryClass == Describe {
            GetRowDescriptions(end);
          } else {
            async := Ready;
            suspended := true;
          }
        case 'n' =>
          if queryClass == Describe {
            result := Some(OrElse(result, CommandOk));
            async := Ready;
          }
        case 't' =>
          GetParamDescriptions(end);
        case 'D' =>
          DataRowArrived(description, end);
        case 'G' =>
          suspended := GetCopyStart(CopyInResult);
          if !suspended {
            async := CopyIn;
          }
        case 'H' =>
          suspended := GetCopyStart(CopyOutResult);
          if !suspended {
            async := CopyOut;
          }
        case 'W' =>
          suspended := GetCopyStart(CopyBothResult);
          if !suspended {
            async := CopyBoth;
          }
        case 'd' =>
          inCursor := end;
        case 'c' =>
        case 's' =>
          async := Ready;
        case _ =>
          SaveErrorResult(UnexpectedResponse(id));
          async := Ready;
          inCursor := end;
      }
    }

    method GetBackendKey() returns (eof: bool)
      requires 0 <= inCursor <= |buffer|
      modifies this`backendPid, this`backendKey, this`inCursor
      ensures Left(eof) == BackendKey(old(St()), buffer, old(inCursor))
    {
      hide ReadInt4;
      var pid := ReadInt4(buffer, inCursor);
      if pid.NoData? {
        return true;
      }
      backendPid := pid.value;
      inCursor := pid.next;
      var key := ReadInt4(buffer, inCursor);
      if key.NoData? {
        return true;
      }
      backendKey := key.value;
      inCursor := key.next;
      eof := false;
    }

    method Message(id: Byte, end: nat, description: Option<seq<Column>>) returns (suspended: bool)
      requires 0 <= inCursor <= |buffer|
      modifies this`async, this`result, this`xact, this`notices, this`notifications, this`parameters
      modifies this`backendPid, this`backendKey, this`inCursor
      ensures Left(suspended) == Handle(old(St()), buffer, old(inCursor), end, id, description)
    {
      hide WhenBusy, Notify, NoticeMessage, ParameterStatus;
      suspended := false;
      if id == 'A' {
        suspended := GetNotify();
      } else if id == 'N' {
        suspended := GetErrorNotice(false);
      } else if async != Busy {
        if async != Idle {
          return true;
        }
        if id == 'E' {
          suspended := GetErrorNotice(false);
        } else if id == 'S' {
          suspended := GetParameterStatus();
        } else if id == 'Z' {
          inCursor := end;
        } else {
          notices := notices + [WhileIdle(id)];
          inCursor := end;
        }
      } else {
        suspended := BusyMessage(id, end, description);
      }
    }

    /** One turn of the loop; false means that the loop returns. */
    method NextMessage(description: Option<seq<Column>>) returns (more: bool)
      modifies this
      ensures match TurnAt(old(St()), old(buffer), old(inStart), description)
              case Stop(st) => !more && Snapshot() == old(Snapshot()).(st := st)
              case Lost(st) => !more && Snapshot() == Conn(st, [], 0, false)
              case Advance(st, start) => more && Snapshot() == old(Snapshot()).(st := st, inStart := start)
    {
      hide Handle, SaveError, HeadAt;
      more := false;
      var head := ReadHead();
      if head.Broken? {
        HandleSyncLoss(head.id, head.length);
      } else if head.Head? && head.end <= |buffer| {
        more := Consume(head.id, head.end, description);
      }
    }

    /** The type code and length, checked. */
    method ReadHead() returns (head: Head)
      modifies this`inCursor
      ensures head == HeadAt(buffer, inStart)
      ensures head.Head? ==> inCursor == inStart + 5
    {
      hide Signed;
      inCursor := inStart;
      var id := ReadByte(buffer, inCursor);
      if id.NoData? {
        return Missing;
      }
      inCursor := id.next;
      var length := ReadInt4(buffer, inCursor);
      if length.NoData? {
        return Missing;
      }
      inCursor := length.next;
      if length.value < 4 || (length.value > 30000 && !LongMessage(id.value)) {
        return Broken(id.value, length.value);
      }
      head := Head(id.value, inStart + 1 + length.value);
    }

    /** A complete message: handle it and check what the handler read against the length. */
    method Consume(id: Byte, end: nat, description: Option<seq<Column>>) returns (more: bool)
      requires inCursor == inStart + 5 <= end <= |buffer|
      modifies this`async, this`result, this`xact, this`notices, this`notifications, this`parameters
      modifies this`backendPid, this`backendKey, this`inCursor, this`inStart
      ensures match Handle(old(St()), buffer, old(inCursor), end, id, description)
              case Suspend(st) => !more && St() == st && inStart == old(inStart)
              case Done(st, cursor) =>
                more && inStart == end
                && St() == if cursor == end then st else SaveError(st, LengthMismatch(id)).(async := Ready)
    {
      hide Handle, SaveError;
      var suspended := Message(id, end, description);
      if suspended {
        return false;
      }
      if inCursor == end {
        inStart := inCursor;
      } else {
        SaveErrorResult(LengthMismatch(id));
        async := Ready;
        inStart := end;
      }
      more := true;
    }

    /** `pqxParseInput3`. */
    method ParseInput(description: Option<seq<Column>>)
      modifies this
      ensures Snapshot() == Parse(old(Snapshot()), description)
    {
      hide TurnAt;
      while true
        invariant Parse(Snapshot(), description) == Parse(old(Snapshot()), description)
        decreases |buffer| - inStart
      {
        ghost var before := Snapshot();
        var more := NextMessage(description);
        if !more {
          return;
        }
      }
    }

    /** The final switch of PQXgetResult, once there is nothing to wait for. */
    method GetResult() returns (r: Option<Result>)
      requires async != Busy
      modifies this`async, this`result
      ensures old(async) == Idle ==> r == None && Snapshot() == old(Snapshot())
      ensures old(async) == Ready ==> r == Some(Collected(old(Snapshot()))) && Snapshot() == Collect(old(Snapshot()))
      ensures old(async) == Ready ==> async == Busy && result == None
      ensures old(async) == Ready && old(result).Some? ==> r == old(result)
      ensures old(async) == Ready && old(result).None? ==>
                r == Some(Result(FatalError, [], [], [], [], '\0', [], []))
      ensures old(async) != Idle && old(async) != Ready && alive ==>
                r.Some? && async == old(async) && r.value.status == CopyStatus(async)
                && (old(result).Some? && old(result).value.status == CopyStatus(async) ==>
                      r == old(result) && result == None)
                && (old(result).None? || old(result).value.status != CopyStatus(async) ==> result == old(result))
      ensures old(async) != Idle && old(async) != Ready && !alive ==>
                r.Some? && r.value.status == FatalError && async == Idle && result == None
    {
      if async == Idle {
        r := None;
      } else if async == Ready {
        r := Some(OrElse(result, FatalError));
        result := None;
        async := Busy;
      } else if !alive {
        if result.None? || result.value.status != FatalError {
          result := Some(Empty(FatalError));
        }
        r := result;
        result := None;
        async := Idle;
      } else if result.Some? && result.value.status == CopyStatus(async) {
        r := result;
        result := None;
      } else {
        r := Some(Empty(CopyStatus(async)));
      }
    }

    /** Parse what has arrived and collect every result that is ready. */
    method CollectReady(description: Option<seq<Column>>) returns (results: seq<Result>)
      requires alive && StreamExact(buffer, inStart)
      modifies this
      ensures Pumped(Snapshot(), results) == Pump(old(Snapshot()), description)
    {
      hide Parse, StreamExact, Pump;
      ghost var c := Snapshot();
      results := [];
      assert [] + Pump(c, description).results == Pump(c, description).results;
      PumpTurn(c, description);
      ParseInput(description);
      while async == Ready
        invariant c.alive && StreamExact(c.buffer, c.inStart) && Snapshot() == Parse(c, description)
        invariant Pumped(Pump(c, description).conn, results + Pump(c, description).results)
                  == Pump(old(Snapshot()), description)
        decreases |c.buffer| - c.inStart, c.st.async != Busy || c.st.result.Some?
      {
        PumpTurn(c, description);
        var r := GetResult();
        c := Snapshot();
        ghost var rest := Pump(c, description).results;
        assert results + ([r.value] + rest) == results + [r.value] + rest;
        results := results + [r.value];
        ParseInput(description);
      }
      PumpTurn(c, description);
      assert results + [] == results;
    }

    /**
      * Parse and collect after every read. The results, and the connection in the end, are those of
      * one read of everything.
      */
    method CollectReads(chunks: seq<Bytes>, description: Option<seq<Column>>) returns (results: seq<Result>)
      requires chunks != [] && alive && StreamExact(buffer + Concat(chunks), inStart)
      modifies this
      ensures Pumped(Snapshot(), results) == Pump(Receive(old(Snapshot()), Concat(chunks)), description)
    {
      hide StreamExact, Pump, Concat;
      ghost var start := Snapshot();
      results := [];
      var i := 0;
      assert chunks[0..] == chunks;
      while i < |chunks|
        invariant 0 <= i <= |chunks| && alive
        invariant StreamExact(buffer + Concat(chunks[i..]), inStart)
        invariant Pumped(PumpReads(Snapshot(), chunks[i..], description).conn,
                         results + PumpReads(Snapshot(), chunks[i..], description).results)
                  == PumpReads(start, chunks, description)
      {
        ghost var rest := chunks[i..];
        assert rest[0] == chunks[i] && rest[1..] == chunks[i + 1..];
        PumpReadsTurn(Snapshot(), rest, description);
        ReadData(chunks[i]);
        var more := CollectReady(description);
        ghost var q := PumpReads(Snapshot(), rest[1..], description);
        assert results + (more + q.results) == results + more + q.results;
        results := results + more;
        i := i + 1;
      }
      assert chunks[i..] == [];
      assert results + [] == results;
      ResultsOfAnySplit(start, chunks, description);
    }
  }

  function CopyStatus(a: Async): Status {
    match a
    case CopyIn => CopyInResult
    case CopyOut => CopyOutResult
    case _ => CopyBothResult
  }

  // ---- reading a list one element at a time ------------------------------

  function Prefixed<T>(xs: seq<T>, r: Read<seq<T>>): Read<seq<T>> {
    if r.NoData? then NoData else Got(xs + r.value, r.next)
  }

  lemma PrefixNothing<T>(r: Read<seq<T>>)
    ensures Prefixed([], r) == r
  {
    if r.Got? { assert [] + r.value == r.value; }
  }

  lemma PrefixCons<T>(xs: seq<T>, x: T, r: Read<seq<T>>)
    ensures Prefixed(xs, Cons(x, r)) == Prefixed(xs + [x], r)
  {
    if r.Got? { assert xs + ([x] + r.value) == xs + [x] + r.value; }
  }

  lemma CountIsNat(b: Bytes, pos: nat)
    ensures ReadInt2(b, pos).Got? ==> ReadInt2(b, pos).value >= 0
  {
  }

  lemma ColumnsStep(b: Bytes, pos: nat, n: nat, xs: seq<Column>)
    requires pos <= |b| && n > 0
    ensures var x := ReadColumn(b, pos);
            Prefixed(xs, ReadColumns(b, pos, n)) ==
            if x.NoData? then NoData else Prefixed(xs + [x.value], ReadColumns(b, x.next, n - 1))
  {
    hide ReadColumn;
    var x := ReadColumn(b, pos);
    if x.Got? { PrefixCons(xs, x.value, ReadColumns(b, x.next, n - 1)); }
  }

  lemma NoColumnsLeft(b: Bytes, pos: nat, xs: seq<Column>)
    requires pos <= |b|
    ensures Prefixed(xs, ReadColumns(b, pos, 0)) == Got(xs, pos)
  {
    assert xs + [] == xs;
  }

  lemma Int4sStep(b: Bytes, pos: nat, n: nat, xs: seq<int>)
    requires pos <= |b| && n > 0
    ensures var x := ReadInt4(b, pos);
            Prefixed(xs, ReadInt4s(b, pos, n)) ==
            if x.NoData? then NoData else Prefixed(xs + [x.value], ReadInt4s(b, x.next, n - 1))
  {
    hide ReadInt4;
    var x := ReadInt4(b, pos);
    if x.Got? { PrefixCons(xs, x.value, ReadInt4s(b, x.next, n - 1)); }
  }

  lemma NoInt4sLeft(b: Bytes, pos: nat, xs: seq<int>)
    requires pos <= |b|
    ensures Prefixed(xs, ReadInt4s(b, pos, 0)) == Got(xs, pos)
  {
    assert xs + [] == xs;
  }

  lemma ValuesStep(b: Bytes, pos: nat, n: nat, xs: seq<Option<Bytes>>)
    requires pos <= |b| && n > 0
    ensures var x := ReadValue(b, pos);
            Prefixed(xs, ReadValues(b, pos, n)) ==
            if x.NoData? then NoData else Prefixed(xs + [x.value], ReadValues(b, x.next, n - 1))
  {
    hide ReadValue;
    var x := ReadValue(b, pos);
    if x.Got? { PrefixCons(xs, x.value, ReadValues(b, x.next, n - 1)); }
  }

  lemma NoValuesLeft(b: Bytes, pos: nat, xs: seq<Option<Bytes>>)
    requires pos <= |b|
    ensures Prefixed(xs, ReadValues(b, pos, 0)) == Got(xs, pos)
  {
    assert xs + [] == xs;
  }

  lemma FormatsStep(b: Bytes, pos: nat, n: nat, xs: seq<int>)
    requires pos <= |b| && n > 0
    ensures var x := ReadInt2(b, pos);
            Prefixed(xs, ReadFormats(b, pos, n)) ==
            if x.NoData? then NoData else Prefixed(xs + [Signed(x.value, 0x8000)], ReadFormats(b, x.next, n - 1))
  {
    hide ReadInt2;
    var x := ReadInt2(b, pos);
    if x.Got? { PrefixCons(xs, Signed(x.value, 0x8000), ReadFormats(b, x.next, n - 1)); }
  }

  lemma NoFormatsLeft(b: Bytes, pos: nat, xs: seq<int>)
    requires pos <= |b|
    ensures Prefixed(xs, ReadFormats(b, pos, 0)) == Got(xs, pos)
  {
    assert xs + [] == xs;
  }

  // ---- the collecting loop ------------------------------------------------

  /** One turn of Pump: either nothing is ready, or a result is handed over and less is left to do. */
  lemma PumpTurn(c: Conn, description: Option<seq<Column>>)
    requires c.alive && StreamExact(c.buffer, c.inStart)
    ensures var p := Parse(c, description);
            && p.alive && p.buffer == c.buffer && StreamExact(p.buffer, p.inStart)
            && (p.st.async != Ready ==> Pump(c, description) == Pumped(p, []))
            && (p.st.async == Ready ==>
                  var q := Pump(Collect(p), description);
                  Pump(c, description) == Pumped(q.conn, [Collected(p)] + q.results))
            && (p.st.async == Ready ==> p.inStart == c.inStart || c.inStart < p.inStart <= |c.buffer|)
            && (p.st.async == Ready && p.inStart == c.inStart ==> c.st.async != Busy || c.st.result.Some?)
  {
    hide Parse, StreamExact;
    assert c.buffer + [] == c.buffer;
    ParseKeepsExact(c, [], description);
    ReadyTakesMessage(c, description);
  }

  lemma PumpReadsTurn(c: Conn, chunks: seq<Bytes>, description: Option<seq<Column>>)
    requires chunks != [] && c.alive && StreamExact(c.buffer + Concat(chunks), c.inStart)
    ensures var c0 := Receive(c, chunks[0]);
            && StreamExact(c0.buffer, c0.inStart)
            && var p := Pump(c0, description);
               && p.conn.alive && StreamExact(p.conn.buffer + Concat(chunks[1..]), p.conn.inStart)
               && var q := PumpReads(p.conn, chunks[1..], description);
                  PumpReads(c, chunks, description) == Pumped(q.conn, p.results + q.results)
  {
    hide Pump, StreamExact;
    var c0 := Receive(c, chunks[0]);
    assert c.buffer + Concat(chunks) == c0.buffer + Concat(chunks[1..]);
    ExactPrefix(c0.buffer, Concat(chunks[1..]), c.inStart);
    ResultsOfTwoReads(c0, Concat(chunks[1..]), description);
  }

  /** A reply that arrives in any reads is handed to the application as the one result it describes. */
  method CollectReply(c: PgConn, r: Reply, chunks: seq<Bytes>, description: Option<seq<Column>>)
    returns (results: seq<Result>)
    requires ValidReply(r) && chunks != [] && Concat(chunks) == ReplyBytes(r)
    requires c.alive && c.inStart == |c.buffer| && c.async == Busy && c.result.None? && c.queryClass != Describe
    modifies c
    ensures results == [ReplyResult(r)]
    ensures c.St() == old(c.St()).(xact := XactOf(r.xact), async := Idle) && c.inStart == |c.buffer|
  {
    hide ReplyBytes, ValidReply, StreamExact, Pump, PumpReads, Concat, ReplyResult;
    ReplyIsCollected(c.Snapshot(), r, description);
    results := c.CollectReads(chunks, description);
  }

  /** So is every other answer, and the session then is idle in the transaction state that was reported. */
  method CollectAnswer(c: PgConn, a: Answer, x: Byte, chunks: seq<Bytes>, description: Option<seq<Column>>)
    returns (results: seq<Result>)
    requires ValidAnswer(a, c.St(), description)
    requires chunks != [] && Concat(chunks) == AnswerBytes(a, x, c.St(), description)
    requires c.alive && c.inStart == |c.buffer| && c.async == Busy && (c.result.None? || a.Failure?)
    modifies c
    ensures results == [Meaning(a, description)]
    ensures c.St() == old(c.St()).(result := None, xact := c.xact, async := Idle) && Reports(x, c.xact)
  {
    hide AnswerBytes, ValidAnswer, StreamExact, Pump, PumpReads, Concat, Meaning, Reports;
    AnswerIsCollected(c.Snapshot(), a, x, description);
    results := c.CollectReads(chunks, description);
  }

  /** A copy start is handed over at once, with its formats, and the connection stays in the copy state. */
  method CollectCopyStart(c: PgConn, id: Byte, f: CopyFormat, chunks: seq<Bytes>, description: Option<seq<Column>>)
    returns (r: Option<Result>)
    requires ValidCopy(id, f) && chunks != [] && Concat(chunks) == Frame(id, CopyBody(f))
    requires c.alive && c.inStart == |c.buffer| && c.async == Busy
    modifies c
    ensures r == Some(Result(CopyMode(id).0, [], [], [], f.formats, f.binary, [], []))
    ensures c.St() == old(c.St()).(result := None, async := CopyMode(id).1)
  {
    hide ValidCopy, CopyBody, StreamExact, Pump, PumpReads, Concat;
    ghost var before := c.Snapshot();
    CopyStarts(before, id, f, chunks, description);
    ResultsOfAnySplit(before, chunks, description);
    var results := c.CollectReads(chunks, description);
    r := c.GetResult();
  }
}
