/**
  * Readers for the fields of backend messages, after the chapter "Frontend/Backend Protocol" of the
  * PostgreSQL documentation. Every reader is bounded by the end of the received bytes only, not by
  * the end of the message it reads.
  */
module PgWire {
  import opened Options
  import opened Octets

  datatype Read<+T> = NoData | Got(value: T, next: nat)

  datatype Column = Column(
    name: Bytes,
    tableId: int,
    columnId: int,
    typeId: int,
    typeLen: int,
    typeMod: int,
    format: int)

  datatype CopyFormat = CopyFormat(binary: Byte, formats: seq<int>)

  datatype Field = Field(code: Byte, text: Bytes)

  datatype Notification = Notification(pid: int, channel: Bytes, extra: Bytes)

  const NUL: Byte := '\0'

  function ReadByte(b: Bytes, pos: nat): (r: Read<Byte>)
    ensures r.Got? ==> pos < r.next <= |b|
  {
    if pos < |b| then Got(b[pos], pos + 1) else NoData
  }

  /** A 16-bit integer, unsigned. */
  function ReadInt2(b: Bytes, pos: nat): (r: Read<int>)
    ensures r.Got? ==> pos < r.next <= |b|
  {
    if pos + 2 <= |b| then Got(b[pos] as int * 0x100 + b[pos + 1] as int, pos + 2) else NoData
  }

  function Signed(v: int, limit: int): int { if v >= limit then v - 2 * limit else v }

  /** A 32-bit integer, signed. */
  function ReadInt4(b: Bytes, pos: nat): (r: Read<int>)
    ensures r.Got? ==> pos < r.next <= |b|
  {
    if pos + 4 <= |b| then
      Got(Signed(((b[pos] as int * 0x100 + b[pos + 1] as int) * 0x100 + b[pos + 2] as int) * 0x100 + b[pos + 3] as int,
                 0x8000_0000), pos + 4)
    else NoData
  }

  /** A string up to its terminating zero byte. */
  function ReadString(b: Bytes, pos: nat): (r: Read<Bytes>)
    ensures r.Got? ==> pos < r.next <= |b|
    decreases |b| - pos
  {
    if pos >= |b| then NoData
    else if b[pos] == NUL then Got([], pos + 1)
    else
      match ReadString(b, pos + 1)
      case NoData => NoData
      case Got(s, next) => Got([b[pos]] + s, next)
  }

  function ReadColumn(b: Bytes, pos: nat): (r: Read<Column>)
    ensures r.Got? ==> pos < r.next <= |b|
  {
    match ReadString(b, pos)
    case NoData => NoData
    case Got(name, p) =>
      if p + 18 > |b| then NoData
      else Got(Column(name, ReadInt4(b, p).value, Signed(ReadInt2(b, p + 4).value, 0x8000), ReadInt4(b, p + 6).value,
                      Signed(ReadInt2(b, p + 10).value, 0x8000), ReadInt4(b, p + 12).value,
                      Signed(ReadInt2(b, p + 16).value, 0x8000)), p + 18)
  }

  function ReadColumns(b: Bytes, pos: nat, n: nat): (r: Read<seq<Column>>)
    requires pos <= |b|
    ensures r.Got? ==> pos <= r.next <= |b|
    decreases n
  {
    if n == 0 then Got([], pos)
    else
      match ReadColumn(b, pos)
      case NoData => NoData
      case Got(c, p) => Cons(c, ReadColumns(b, p, n - 1))
  }

  function Cons<T>(x: T, r: Read<seq<T>>): Read<seq<T>> {
    match r
    case NoData => NoData
    case Got(xs, next) => Got([x] + xs, next)
  }

  function ReadInt4s(b: Bytes, pos: nat, n: nat): (r: Read<seq<int>>)
    requires pos <= |b|
    ensures r.Got? ==> pos <= r.next <= |b|
    decreases n
  {
    if n == 0 then Got([], pos)
    else
      match ReadInt4(b, pos)
      case NoData => NoData
      case Got(v, p) => Cons(v, ReadInt4s(b, p, n - 1))
  }

  function ReadFormats(b: Bytes, pos: nat, n: nat): (r: Read<seq<int>>)
    requires pos <= |b|
    ensures r.Got? ==> pos <= r.next <= |b|
    decreases n
  {
    if n == 0 then Got([], pos)
    else
      match ReadInt2(b, pos)
      case NoData => NoData
      case Got(v, p) => Cons(Signed(v, 0x8000), ReadFormats(b, p, n - 1))
  }

  /** A column value; a negative length is a null and is followed by no bytes. */
  function ReadValue(b: Bytes, pos: nat): (r: Read<Option<Bytes>>)
    ensures r.Got? ==> pos < r.next <= |b|
  {
    match ReadInt4(b, pos)
    case NoData => NoData
    case Got(n, p) =>
      if n < 0 then Got(None, p)
      else if p + n > |b| then NoData
      else Got(Some(b[p..p + n]), p + n)
  }

  function ReadValues(b: Bytes, pos: nat, n: nat): (r: Read<seq<Option<Bytes>>>)
    requires pos <= |b|
    ensures r.Got? ==> pos <= r.next <= |b|
    decreases n
  {
    if n == 0 then Got([], pos)
    else
      match ReadValue(b, pos)
      case NoData => NoData
      case Got(v, p) => Cons(v, ReadValues(b, p, n - 1))
  }

  /** The fields of an error or a notice, up to the zero byte that ends them. */
  function ReadFields(b: Bytes, pos: nat): (r: Read<seq<Field>>)
    ensures r.Got? ==> pos < r.next <= |b|
    decreases |b| - pos
  {
    if pos >= |b| then NoData
    else if b[pos] == NUL then Got([], pos + 1)
    else
      match ReadString(b, pos + 1)
      case NoData => NoData
      case Got(s, p) => Cons(Field(b[pos], s), ReadFields(b, p))
  }

  function ReadStrings(b: Bytes, pos: nat): (r: Read<(Bytes, Bytes)>)
    ensures r.Got? ==> pos < r.next <= |b|
  {
    match ReadString(b, pos)
    case NoData => NoData
    case Got(s, p) =>
      match ReadString(b, p)
      case NoData => NoData
      case Got(t, q) => Got((s, t), q)
  }

  function ReadNotification(b: Bytes, pos: nat): (r: Read<Notification>)
    ensures r.Got? ==> pos < r.next <= |b|
  {
    match ReadInt4(b, pos)
    case NoData => NoData
    case Got(pid, p) =>
      match ReadStrings(b, p)
      case NoData => NoData
      case Got(st, q) => Got(Notification(pid, st.0, st.1), q)
  }

  function ReadRowDescription(b: Bytes, pos: nat): (r: Read<seq<Column>>)
    ensures r.Got? ==> pos < r.next <= |b|
  {
    match ReadInt2(b, pos)
    case NoData => NoData
    case Got(n, p) => ReadColumns(b, p, n)
  }

  function ReadParameters(b: Bytes, pos: nat): (r: Read<seq<int>>)
    ensures r.Got? ==> pos < r.next <= |b|
  {
    match ReadInt2(b, pos)
    case NoData => NoData
    case Got(n, p) => ReadInt4s(b, p, n)
  }

  function ReadRow(b: Bytes, pos: nat): (r: Read<seq<Option<Bytes>>>)
    ensures r.Got? ==> pos < r.next <= |b|
  {
    match ReadInt2(b, pos)
    case NoData => NoData
    case Got(n, p) => ReadValues(b, p, n)
  }

  function ReadCopyFormat(b: Bytes, pos: nat): (r: Read<CopyFormat>)
    ensures r.Got? ==> pos < r.next <= |b|
  {
    match ReadByte(b, pos)
    case NoData => NoData
    case Got(binary, p) =>
      match ReadInt2(b, p)
      case NoData => NoData
      case Got(n, q) =>
        match ReadFormats(b, q, n)
        case NoData => NoData
        case Got(formats, next) => Got(CopyFormat(binary, formats), next)
  }

  // ---- what was read stays read when more arrives ------------------------

  lemma IntsMore(b: Bytes, more: Bytes, pos: nat)
    ensures ReadByte(b, pos).Got? ==> ReadByte(b + more, pos) == ReadByte(b, pos)
    ensures ReadInt2(b, pos).Got? ==> ReadInt2(b + more, pos) == ReadInt2(b, pos)
    ensures ReadInt4(b, pos).Got? ==> ReadInt4(b + more, pos) == ReadInt4(b, pos)
  {
  }

  lemma {:induction false} StringMore(b: Bytes, more: Bytes, pos: nat)
    requires ReadString(b, pos).Got?
    ensures ReadString(b + more, pos) == ReadString(b, pos)
    decreases |b| - pos
  {
    if b[pos] != NUL { StringMore(b, more, pos + 1); }
  }

  lemma ColumnMore(b: Bytes, more: Bytes, pos: nat)
    requires ReadColumn(b, pos).Got?
    ensures ReadColumn(b + more, pos) == ReadColumn(b, pos)
  {
    StringMore(b, more, pos);
  }

  lemma {:induction false} ColumnsMore(b: Bytes, more: Bytes, pos: nat, n: nat)
    requires pos <= |b| && ReadColumns(b, pos, n).Got?
    ensures ReadColumns(b + more, pos, n) == ReadColumns(b, pos, n)
    decreases n
  {
    hide ReadColumn;
    if n > 0 {
      ColumnMore(b, more, pos);
      ColumnsMore(b, more, ReadColumn(b, pos).next, n - 1);
    }
  }

  lemma {:induction false} Int4sMore(b: Bytes, more: Bytes, pos: nat, n: nat)
    requires pos <= |b| && ReadInt4s(b, pos, n).Got?
    ensures ReadInt4s(b + more, pos, n) == ReadInt4s(b, pos, n)
    decreases n
  {
    hide ReadInt4;
    if n > 0 {
      IntsMore(b, more, pos);
      Int4sMore(b, more, ReadInt4(b, pos).next, n - 1);
    }
  }

  lemma {:induction false} FormatsMore(b: Bytes, more: Bytes, pos: nat, n: nat)
    requires pos <= |b| && ReadFormats(b, pos, n).Got?
    ensures ReadFormats(b + more, pos, n) == ReadFormats(b, pos, n)
    decreases n
  {
    hide ReadInt2;
    if n > 0 {
      IntsMore(b, more, pos);
      FormatsMore(b, more, ReadInt2(b, pos).next, n - 1);
    }
  }

  lemma ValueMore(b: Bytes, more: Bytes, pos: nat)
    requires ReadValue(b, pos).Got?
    ensures ReadValue(b + more, pos) == ReadValue(b, pos)
  {
    hide ReadInt4;
    IntsMore(b, more, pos);
    var p := ReadInt4(b, pos).next;
    var n := ReadInt4(b, pos).value;
    if n >= 0 { assert (b + more)[p..p + n] == b[p..p + n]; }
  }

  lemma {:induction false} ValuesMore(b: Bytes, more: Bytes, pos: nat, n: nat)
    requires pos <= |b| && ReadValues(b, pos, n).Got?
    ensures ReadValues(b + more, pos, n) == ReadValues(b, pos, n)
    decreases n
  {
    hide ReadValue;
    if n > 0 {
      ValueMore(b, more, pos);
      ValuesMore(b, more, ReadValue(b, pos).next, n - 1);
    }
  }

  lemma {:induction false} FieldsMore(b: Bytes, more: Bytes, pos: nat)
    requires ReadFields(b, pos).Got?
    ensures ReadFields(b + more, pos) == ReadFields(b, pos)
    decreases |b| - pos
  {
    if b[pos] != NUL {
      StringMore(b, more, pos + 1);
      FieldsMore(b, more, ReadString(b, pos + 1).next);
    }
  }

  lemma StringsMore(b: Bytes, more: Bytes, pos: nat)
    requires ReadStrings(b, pos).Got?
    ensures ReadStrings(b + more, pos) == ReadStrings(b, pos)
  {
    hide ReadString;
    StringMore(b, more, pos);
    StringMore(b, more, ReadString(b, pos).next);
  }

  lemma NotificationMore(b: Bytes, more: Bytes, pos: nat)
    requires ReadNotification(b, pos).Got?
    ensures ReadNotification(b + more, pos) == ReadNotification(b, pos)
  {
    hide ReadStrings, ReadInt4;
    IntsMore(b, more, pos);
    StringsMore(b, more, ReadInt4(b, pos).next);
  }

  lemma RowDescriptionMore(b: Bytes, more: Bytes, pos: nat)
    requires ReadRowDescription(b, pos).Got?
    ensures ReadRowDescription(b + more, pos) == ReadRowDescription(b, pos)
  {
    hide ReadColumns;
    IntsMore(b, more, pos);
    ColumnsMore(b, more, ReadInt2(b, pos).next, ReadInt2(b, pos).value);
  }

  lemma ParametersMore(b: Bytes, more: Bytes, pos: nat)
    requires ReadParameters(b, pos).Got?
    ensures ReadParameters(b + more, pos) == ReadParameters(b, pos)
  {
    hide ReadInt4s;
    IntsMore(b, more, pos);
    Int4sMore(b, more, ReadInt2(b, pos).next, ReadInt2(b, pos).value);
  }

  lemma CopyFormatMore(b: Bytes, more: Bytes, pos: nat)
    requires ReadCopyFormat(b, pos).Got?
    ensures ReadCopyFormat(b + more, pos) == ReadCopyFormat(b, pos)
  {
    hide ReadFormats;
    IntsMore(b, more, pos);
    IntsMore(b, more, pos + 1);
    FormatsMore(b, more, pos + 3, ReadInt2(b, pos + 1).value);
  }
}
