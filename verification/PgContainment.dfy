/** Which messages are handled the same whatever follows them: exactly those that hold all the fields
    their handler reads. */
module PgContainment {
  import opened Options
  import opened Octets
  import opened PgWire
  import opened PgParser

  // ---- enough bytes let every reader succeed -----------------------------

  function Blank(n: nat): (b: Bytes)
    ensures |b| == n
  {
    seq(n, _ => NUL)
  }

  lemma MoreInts(b: Bytes, pos: nat) returns (more: Bytes)
    requires pos <= |b|
    ensures ReadByte(b + more, pos).Got? && ReadInt2(b + more, pos).Got? && ReadInt4(b + more, pos).Got?
  {
    more := Blank(4);
  }

  lemma {:induction false} MoreString(b: Bytes, pos: nat) returns (more: Bytes)
    requires pos <= |b|
    ensures ReadString(b + more, pos).Got?
    decreases |b| - pos
  {
    if pos < |b| {
      more := MoreString(b, pos + 1);
      assert (b + more)[pos] == b[pos];
    } else {
      more := [NUL];
    }
  }

  /** Two readings in a row: bytes for the first, then bytes for the second. */
  lemma Then(b: Bytes, m1: Bytes, m2: Bytes)
    ensures b + m1 + m2 == b + (m1 + m2)
  {
  }

  lemma MoreColumn(b: Bytes, pos: nat) returns (more: Bytes)
    requires pos <= |b|
    ensures ReadColumn(b + more, pos).Got?
  {
    var m1 := MoreString(b, pos);
    more := m1 + Blank(18);
    Then(b, m1, Blank(18));
    StringMore(b + m1, Blank(18), pos);
  }

  lemma {:induction false} MoreColumns(b: Bytes, pos: nat, n: nat) returns (more: Bytes)
    requires pos <= |b|
    ensures pos <= |b + more| && ReadColumns(b + more, pos, n).Got?
    decreases n
  {
    hide ReadColumn;
    if n == 0 {
      more := [];
    } else {
      var m1 := MoreColumn(b, pos);
      var m2 := MoreColumns(b + m1, ReadColumn(b + m1, pos).next, n - 1);
      more := m1 + m2;
      Then(b, m1, m2);
      ColumnMore(b + m1, m2, pos);
    }
  }

  lemma {:induction false} MoreInt4s(b: Bytes, pos: nat, n: nat) returns (more: Bytes)
    requires pos <= |b|
    ensures pos <= |b + more| && ReadInt4s(b + more, pos, n).Got?
    decreases n
  {
    hide ReadInt4;
    if n == 0 {
      more := [];
    } else {
      var m1 := MoreInts(b, pos);
      var m2 := MoreInt4s(b + m1, ReadInt4(b + m1, pos).next, n - 1);
      more := m1 + m2;
      Then(b, m1, m2);
      IntsMore(b + m1, m2, pos);
    }
  }

  lemma {:induction false} MoreFormats(b: Bytes, pos: nat, n: nat) returns (more: Bytes)
    requires pos <= |b|
    ensures pos <= |b + more| && ReadFormats(b + more, pos, n).Got?
    decreases n
  {
    hide ReadInt2;
    if n == 0 {
      more := [];
    } else {
      var m1 := MoreInts(b, pos);
      var m2 := MoreFormats(b + m1, ReadInt2(b + m1, pos).next, n - 1);
      more := m1 + m2;
      Then(b, m1, m2);
      IntsMore(b + m1, m2, pos);
    }
  }

  lemma MoreValue(b: Bytes, pos: nat) returns (more: Bytes)
    requires pos <= |b|
    ensures ReadValue(b + more, pos).Got?
  {
    hide ReadInt4;
    var m1 := MoreInts(b, pos);
    var n := ReadInt4(b + m1, pos).value;
    var m2 := Blank(if n < 0 then 0 else n);
    more := m1 + m2;
    Then(b, m1, m2);
    IntsMore(b + m1, m2, pos);
  }

  lemma {:induction false} MoreValues(b: Bytes, pos: nat, n: nat) returns (more: Bytes)
    requires pos <= |b|
    ensures pos <= |b + more| && ReadValues(b + more, pos, n).Got?
    decreases n
  {
    hide ReadValue;
    if n == 0 {
      more := [];
    } else {
      var m1 := MoreValue(b, pos);
      var m2 := MoreValues(b + m1, ReadValue(b + m1, pos).next, n - 1);
      more := m1 + m2;
      Then(b, m1, m2);
      ValueMore(b + m1, m2, pos);
    }
  }

  lemma {:induction false} MoreFields(b: Bytes, pos: nat) returns (more: Bytes)
    requires pos <= |b|
    ensures ReadFields(b + more, pos).Got?
    decreases |b| - pos
  {
    if pos == |b| {
      more := [NUL];
    } else if b[pos] == NUL {
      more := [];
      assert (b + more)[pos] == NUL;
    } else {
      more := MoreFieldsAfterCode(b, pos);
    }
  }

  lemma {:induction false} MoreFieldsAfterCode(b: Bytes, pos: nat) returns (more: Bytes)
    requires pos < |b| && b[pos] != NUL
    ensures ReadFields(b + more, pos).Got?
    decreases |b| - pos, 0
  {
    if ReadString(b, pos + 1).Got? {
      more := MoreFields(b, ReadString(b, pos + 1).next);
      StringMore(b, more, pos + 1);
      assert (b + more)[pos] == b[pos];
    } else {
      more := [NUL, NUL];
      UnfinishedString(b, pos + 1);
      var c := b + [NUL];
      Then(b, [NUL], [NUL]);
      StringMore(c, [NUL], pos + 1);
      assert [NUL] + [NUL] == more && (b + more)[pos] == b[pos];
      assert ReadFields(b + more, |b| + 1).Got?;
    }
  }

  /** A string that runs out ends with the next zero byte. */
  lemma {:induction false} UnfinishedString(b: Bytes, pos: nat)
    requires pos <= |b| && ReadString(b, pos).NoData?
    ensures ReadString(b + [NUL], pos).Got? && ReadString(b + [NUL], pos).next == |b| + 1
    decreases |b| - pos
  {
    if pos < |b| {
      assert (b + [NUL])[pos] == b[pos];
      UnfinishedString(b, pos + 1);
    }
  }

  lemma MoreStrings(b: Bytes, pos: nat) returns (more: Bytes)
    requires pos <= |b|
    ensures ReadStrings(b + more, pos).Got?
  {
    hide ReadString;
    var m1 := MoreString(b, pos);
    var m2 := MoreString(b + m1, ReadString(b + m1, pos).next);
    more := m1 + m2;
    Then(b, m1, m2);
    StringMore(b + m1, m2, pos);
  }

  lemma MoreNotification(b: Bytes, pos: nat) returns (more: Bytes)
    requires pos <= |b|
    ensures ReadNotification(b + more, pos).Got?
  {
    hide ReadStrings, ReadInt4;
    var m1 := MoreInts(b, pos);
    var m2 := MoreStrings(b + m1, ReadInt4(b + m1, pos).next);
    more := m1 + m2;
    Then(b, m1, m2);
    IntsMore(b + m1, m2, pos);
  }

  lemma MoreRowDescription(b: Bytes, pos: nat) returns (more: Bytes)
    requires pos <= |b|
    ensures ReadRowDescription(b + more, pos).Got?
  {
    hide ReadColumns;
    var m1 := MoreInts(b, pos);
    var n := ReadInt2(b + m1, pos);
    var m2 := MoreColumns(b + m1, n.next, n.value);
    more := m1 + m2;
    Then(b, m1, m2);
    IntsMore(b + m1, m2, pos);
  }

  lemma MoreParameters(b: Bytes, pos: nat) returns (more: Bytes)
    requires pos <= |b|
    ensures ReadParameters(b + more, pos).Got?
  {
    hide ReadInt4s;
    var m1 := MoreInts(b, pos);
    var n := ReadInt2(b + m1, pos);
    var m2 := MoreInt4s(b + m1, n.next, n.value);
    more := m1 + m2;
    Then(b, m1, m2);
    IntsMore(b + m1, m2, pos);
  }

  lemma MoreRow(b: Bytes, pos: nat) returns (more: Bytes)
    requires pos <= |b|
    ensures ReadInt2(b + more, pos).Got? && ReadRow(b + more, pos).Got?
  {
    hide ReadValues;
    var m1 := MoreInts(b, pos);
    var n := ReadInt2(b + m1, pos);
    var m2 := MoreValues(b + m1, n.next, n.value);
    more := m1 + m2;
    Then(b, m1, m2);
    IntsMore(b + m1, m2, pos);
  }

  lemma MoreCopyFormat(b: Bytes, pos: nat) returns (more: Bytes)
    requires pos <= |b|
    ensures ReadCopyFormat(b + more, pos).Got?
  {
    hide ReadFormats;
    var m1 := Blank(3);
    var n := ReadInt2(b + m1, pos + 1);
    var m2 := MoreFormats(b + m1, pos + 3, n.value);
    more := m1 + m2;
    Then(b, m1, m2);
    IntsMore(b + m1, m2, pos);
    IntsMore(b + m1, m2, pos + 1);
  }

  // ---- exactly the contained messages are safe ---------------------------

  /** The handler of this message reads its body in this state. */
  predicate Inspects(st: State, m: Bytes, pos: nat, id: Byte, description: Option<seq<Column>>) {
    if id == 'A' || id == 'N' then true
    else if st.async == Busy then
      match id
      case 'C' => true
      case 'E' => true
      case 'Z' => true
      case 'S' => true
      case 'K' => true
      case 'T' => !Failed(st) && (st.result.None? || st.queryClass == Describe)
      case 't' => true
      case 'D' =>
        && RowExpected(st, description)
        && (ReadInt2(m, pos).NoData? || ReadInt2(m, pos).value == Width(st, description))
      case 'G' => true
      case 'H' => true
      case 'W' => true
      case _ => false
    else st.async == Idle && (id == 'E' || id == 'S')
  }

  /** A data row goes to a row result, present or to be made from the description. */
  predicate RowExpected(st: State, description: Option<seq<Column>>) {
    if st.result.Some? then st.result.value.status == TuplesOk else description.Some?
  }

  function Width(st: State, description: Option<seq<Column>>): nat
    requires RowExpected(st, description)
  {
    if st.result.Some? then |st.result.value.columns| else |description.value|
  }

  ghost predicate HandledAlike(st: State, m: Bytes, pos: nat, id: Byte, description: Option<seq<Column>>, more: Bytes) {
    Handle(st, m + more, pos, |m|, id, description) == Handle(st, m, pos, |m|, id, description)
  }

  lemma UninspectedIsAlike(st: State, m: Bytes, pos: nat, id: Byte, description: Option<seq<Column>>, more: Bytes)
    requires !Inspects(st, m, pos, id, description)
    ensures HandledAlike(st, m, pos, id, description, more)
  {
    hide ReadNotification, ReadFields, ReadStrings, ReadString, ReadRowDescription, ReadParameters, ReadValues;
    hide ReadCopyFormat, ReadInt4, ReadByte, ReadInt2, SaveError;
    IntsMore(m, more, pos);
  }

  /** A message that lacks a field its handler reads is handled differently once enough bytes follow. */
  lemma UncontainedDiffers(st: State, m: Bytes, pos: nat, id: Byte, description: Option<seq<Column>>)
    returns (more: Bytes)
    requires pos <= |m| && Inspects(st, m, pos, id, description) && !BodyContained(id, m, pos)
    ensures !HandledAlike(st, m, pos, id, description, more)
  {
    hide ReadNotification, ReadFields, ReadStrings, ReadString, ReadRowDescription, ReadParameters, ReadCopyFormat;
    hide ReadValues, ReadRow;
    match id
    case 'A' => more := MoreNotification(m, pos);
    case 'N' => more := MoreFields(m, pos);
    case 'E' => more := MoreFields(m, pos);
    case 'S' => more := MoreStrings(m, pos);
    case 'C' => more := MoreString(m, pos);
    case 'Z' => more := MoreInts(m, pos);
    case 'K' => more := Blank(8);
    case 'T' => more := MoreRowDescription(m, pos);
    case 't' => more := MoreParameters(m, pos);
    case 'D' => more := RowDiffers(st, m, pos, description);
    case 'G' => more := MoreCopyFormat(m, pos);
    case 'H' => more := MoreCopyFormat(m, pos);
    case 'W' => more := MoreCopyFormat(m, pos);
  }

  lemma RowDiffers(st: State, m: Bytes, pos: nat, description: Option<seq<Column>>) returns (more: Bytes)
    requires pos <= |m| && st.async == Busy && Inspects(st, m, pos, 'D', description) && ReadRow(m, pos).NoData?
    ensures !HandledAlike(st, m, pos, 'D', description, more)
  {
    hide ReadValues;
    more := MoreRow(m, pos);
    IntsMore(m, more, pos);
  }

  /**
    * A message is handled alike whatever follows it if and only if its handler does not look at its
    * body or the body holds every field that is read.
    */
  lemma HandledAlikeIff(st: State, m: Bytes, pos: nat, id: Byte, description: Option<seq<Column>>)
    requires pos <= |m|
    ensures (forall more :: HandledAlike(st, m, pos, id, description, more))
            <==> !Inspects(st, m, pos, id, description) || BodyContained(id, m, pos)
  {
    hide Handle, BodyContained, Inspects;
    if !Inspects(st, m, pos, id, description) {
      forall more ensures HandledAlike(st, m, pos, id, description, more) {
        UninspectedIsAlike(st, m, pos, id, description, more);
      }
    } else if BodyContained(id, m, pos) {
      forall more ensures HandledAlike(st, m, pos, id, description, more) {
        HandleMore(st, m, more, pos, id, description);
      }
    } else {
      var more := UncontainedDiffers(st, m, pos, id, description);
    }
  }
}
