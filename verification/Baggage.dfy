/** The class `Baggage`: a header, its entries, and a printed form that replaces an unclean header. */
module Baggage {
  import opened Options
  import opened Octets
  import opened UrlCodec
  import opened Splitting
  import opened BaggageText

  datatype AddResult = Added | NotAllowed | TooManyEntries | TooLong

  /** A result header can be left over from an earlier, shorter list. */
  ghost predicate Leftover(resultHeader: Bytes, es: seq<Entry>) {
    resultHeader == [] || exists m :: 0 < m <= |es| && resultHeader == Render(es[..m])
  }

  /** The text is read as the entries with a leftover rendering of the first `m` glued in front of them. */
  ghost predicate GluedTo(text: Bytes, es: seq<Entry>, allowed: set<Bytes>) {
    exists m :: 0 < m <= |es| && Parse(text, allowed) == Entries(GluedList(es, m, allowed), GluedClean(es, m, allowed))
  }

  class Baggage {
    var headerValue: Bytes
    var resultHeader: Bytes
    var isValidHeader: bool
    var entries: seq<Entry>
    const allowedKeys: set<Bytes>

    function ToString(): Bytes
      reads this
    {
      if isValidHeader then headerValue else resultHeader
    }

    /** The text sent on is read back, with nothing rejected, as the stored entries. */
    ghost predicate Reparses()
      reads this
    {
      Parse(ToString(), allowedKeys) == Entries(entries, true)
    }

    ghost predicate Valid()
      reads this
    {
      && Reparses() && Leftover(resultHeader, entries)
      && GoodEntries(entries, allowedKeys) && |entries| <= ENTITIES_LIMIT
      && (!isValidHeader ==> resultHeader == Render(entries))
    }

    /** The members as they are before the body of a C++ constructor. */
    constructor (header: Bytes, allowed: set<Bytes>)
      ensures headerValue == header && allowedKeys == allowed
      ensures resultHeader == [] && isValidHeader && entries == []
    {
      headerValue, allowedKeys := header, allowed;
      resultHeader, isValidHeader, entries := [], true, [];
    }

    method TryMakeBaggageEntry(entry: Bytes) returns (threw: bool, parsed: Option<Entry>)
      modifies this`isValidHeader
      ensures threw <==> ParseEntry(entry, allowedKeys).Throws?
      ensures parsed == EntryOf(ParseEntry(entry, allowedKeys))
      ensures isValidHeader == (old(isValidHeader) && Untouched(ParseEntry(entry, allowedKeys)))
    {
      hide ParseEntry, ParseProperties, Split, Decode, Find, HasSpace;
      threw, parsed := false, None;
      EntryByPosition(entry, allowedKeys);
      if Find(entry, ',', 0) != NPOS || HasSpace(entry) {
        return;
      }
      var delimiter := Find(entry, '=', 0);
      if delimiter == NPOS {
        return;
      }
      var key := entry[..delimiter];
      var decoded := UrlDecode(key);
      if decoded.BadPercent? {
        threw := true;
        return;
      }
      if decoded.text !in allowedKeys {
        return;
      }
      var value := entry[delimiter + 1..];
      var propertyPos := Find(entry, ';', delimiter);
      if value == [] || key == [] {
        return;
      }
      if propertyPos == NPOS {
        if '=' !in value {
          parsed := Some(Entry(key, value, []));
        }
        return;
      }
      value := entry[delimiter + 1..propertyPos];
      if value == [] || '=' in value {
        return;
      }
      var properties := ReadProperties(entry, propertyPos);
      parsed := Some(Entry(key, value, properties));
    }

    method ReadProperties(entry: Bytes, start: nat) returns (properties: seq<Property>)
      requires start < |entry|
      modifies this`isValidHeader
      ensures var p := ParseProperties(Split(entry[start + 1..], ';'));
              properties == p.list && isValidHeader == (old(isValidHeader) && p.clean)
    {
      hide ParseProperty, ParseProperties, Split, Find, Gather;
      properties := [];
      var pos: int := start;
      ghost var todo := Split(entry[start + 1..], ';');
      ghost var all := Gather([], isValidHeader, ParseProperties(todo));
      while pos != NPOS
        invariant pos == NPOS || 0 <= pos < |entry|
        invariant todo == if pos == NPOS then [] else Split(entry[pos + 1..], ';')
        invariant Gather(properties, isValidHeader, ParseProperties(todo)) == all
        decreases if pos == NPOS then 0 else |entry| - pos
      {
        var from := pos + 1;
        SplitFrom(entry, ';', from);
        GatherStep(properties, isValidHeader, todo);
        pos := Find(entry, ';', from);
        var property := if pos == NPOS then entry[from..] else entry[from..pos];
        assert todo[0] == property;
        todo := todo[1..];
        assert todo == if pos == NPOS then [] else Split(entry[pos + 1..], ';');
        if property != [] {
          var parsed := TryMakeBaggageEntryProperty(property);
          if parsed.Some? {
            properties := properties + [parsed.value];
          } else {
            isValidHeader := false;
          }
        }
      }
      assert todo == [];
      Gathered(properties, isValidHeader);
      assert all == Properties(properties, isValidHeader);
      Gathers(old(isValidHeader), ParseProperties(Split(entry[start + 1..], ';')));
    }

    method FillEntries() returns (threw: bool)
      requires entries == [] && isValidHeader
      modifies this`entries, this`isValidHeader
      ensures threw <==> Parse(headerValue, allowedKeys).Failed?
      ensures !threw ==> Parse(headerValue, allowedKeys) == Entries(entries, isValidHeader)
    {
      hide ParseEntry, Split, ParseEntries, Combine, Find;
      var headerPos: int := 0;
      ghost var todo := Split(headerValue, ',');
      assert headerValue[0..] == headerValue;
      CombineNothing(ParseEntries(todo, allowedKeys, ENTITIES_LIMIT));
      while headerPos != NPOS && |entries| < ENTITIES_LIMIT
        invariant headerPos == NPOS || 0 <= headerPos <= |headerValue|
        invariant todo == if headerPos == NPOS then [] else Split(headerValue[headerPos..], ',')
        invariant |entries| <= ENTITIES_LIMIT
        invariant Combine(entries, isValidHeader, ParseEntries(todo, allowedKeys, ENTITIES_LIMIT - |entries|))
                  == Parse(headerValue, allowedKeys)
        decreases if headerPos == NPOS then 0 else |headerValue| - headerPos + 1
      {
        SplitFrom(headerValue, ',', headerPos);
        FillStep(entries, isValidHeader, todo, allowedKeys, ENTITIES_LIMIT - |entries|);
        var from := headerPos;
        headerPos := Find(headerValue, ',', headerPos);
        var entry := if headerPos == NPOS then headerValue[from..] else headerValue[from..headerPos];
        assert todo[0] == entry;
        todo := todo[1..];
        if entry != [] {
          var failed, parsed := TryMakeBaggageEntry(entry);
          if failed {
            return true;
          }
          if parsed.Some? {
            entries := entries + [parsed.value];
          } else {
            isValidHeader := false;
          }
        }
        if headerPos != NPOS {
          headerPos := headerPos + 1;
        }
      }
      threw := false;
      NothingToDo(entries, isValidHeader, todo, allowedKeys, ENTITIES_LIMIT - |entries|);
    }

    /** Appends to the result header; it does not start afresh. */
    method CreateResultHeader()
      modifies this`resultHeader
      ensures resultHeader == old(resultHeader) + Render(entries)
    {
      hide EntryText, Render;
      assert Render(entries[..0]) == [] by { NothingRendered(); }
      for i := 0 to |entries|
        invariant resultHeader == old(resultHeader) + Render(entries[..i])
      {
        RenderOneMore(entries, i);
        if i != 0 {
          resultHeader := resultHeader + [','];
        }
        resultHeader := ConcatenateWith(entries[i], resultHeader);
      }
      assert entries[..|entries|] == entries;
    }

    /** What every constructor, and AddEntry, does with a new header value. */
    method Refill() returns (threw: bool)
      requires entries == [] && isValidHeader
      modifies this`entries, this`isValidHeader, this`resultHeader
      ensures threw <==> Parse(headerValue, allowedKeys).Failed?
      ensures !threw ==> Parse(headerValue, allowedKeys) == Entries(entries, isValidHeader)
      ensures !threw ==> resultHeader == old(resultHeader) + if isValidHeader then [] else Render(entries)
    {
      threw := FillEntries();
      if !threw && !isValidHeader {
        CreateResultHeader();
      }
    }

    method AddEntry(key: Bytes, value: Bytes, properties: seq<Property>) returns (r: AddResult)
      requires Valid()
      modifies this`headerValue, this`resultHeader, this`isValidHeader, this`entries
      ensures r == Admitted(key, value, properties, allowedKeys, old(entries), old(ToString()))
      ensures r == NotAllowed <==> key !in allowedKeys
      ensures r == TooManyEntries <==> key in allowedKeys && |old(entries)| >= 64
      ensures r == TooLong ==> key in allowedKeys && |old(entries)| < 64
      ensures r.Added? ==> |old(ToString())| + |Comma(old(entries))|
                           + |EntryText(EncodedEntry(key, value, properties))| < 8192
      ensures !r.Added? ==> unchanged(this)
      ensures r.Added? && NonEmptyParts(key, value, properties) ==>
                |entries| == |old(entries)| + 1 && Reads(entries[|old(entries)|], key, value, properties)
      ensures r.Added? ==> entries == old(entries) + KeptEntry(key, value, properties) && |entries| <= ENTITIES_LIMIT
      ensures r.Added? ==>
                (entries == old(entries) + [EncodedEntry(key, value, properties)]
                 <==> NonEmptyParts(key, value, properties))
      ensures r.Added? ==> (Reparses() <==> HarmlessParts(key, value, properties) || old(resultHeader) == [])
      ensures r.Added? && !HarmlessParts(key, value, properties) && old(resultHeader) != [] ==>
                GluedTo(ToString(), entries, allowedKeys)
      ensures r.Added? && (HarmlessParts(key, value, properties) || old(resultHeader) == []) ==> Valid()
      ensures r.Added? ==>
                && isValidHeader == HarmlessParts(key, value, properties)
                && headerValue ==
                   old(ToString()) + Comma(old(entries)) + EntryText(EncodedEntry(key, value, properties))
                && resultHeader == old(resultHeader) + if isValidHeader then [] else Render(entries)
    {
      hide GluedTo, Reads;
      EncodedReads(key, value, properties);
      hide Parse, Leftover, GoodEntries, KeptEntry, EntryText, EncodedEntry, HarmlessParts, NonEmptyParts, Render;
      ghost var base, es, stale := ToString(), entries, resultHeader;
      var text := EncodedText(key, value, properties);
      if key !in allowedKeys {
        return NotAllowed;
      }
      if |entries| >= ENTITIES_LIMIT {
        return TooManyEntries;
      }
      var entry := Comma(entries) + text;
      if isValidHeader {
        if |headerValue| + |entry| >= HEADER_LENGTH_LIMIT {
          return TooLong;
        }
        headerValue := headerValue + entry;
      } else {
        if |resultHeader| + |entry| >= HEADER_LENGTH_LIMIT {
          return TooLong;
        }
        headerValue := resultHeader + entry;
        isValidHeader := true;
      }
      entries := [];
      assert headerValue == base + Comma(es) + text;
      Appended(base, es, key, value, properties, allowedKeys);
      var threw := Refill();
      assert !threw;
      AfterAppend(base, es, stale, key, value, properties, allowedKeys);
      KeptExactly(key, value, properties);
      assert entries == es + KeptEntry(key, value, properties);
      assert isValidHeader == HarmlessParts(key, value, properties);
      assert isValidHeader || stale == [] ==> Leftover(resultHeader, entries);
      SameTail(es, KeptEntry(key, value, properties), [EncodedEntry(key, value, properties)]);
      r := Added;
    }
  }

  function EntryOf(p: ParsedEntry): Option<Entry> { if p.Accepted? then Some(p.entry) else None }

  /** Nothing within the entry was dropped. */
  predicate Untouched(p: ParsedEntry) { p.Accepted? ==> p.clean }

  function Admitted(key: Bytes, value: Bytes, properties: seq<Property>, allowed: set<Bytes>,
                    es: seq<Entry>, text: Bytes): AddResult
  {
    if key !in allowed then NotAllowed
    else if |es| >= ENTITIES_LIMIT then TooManyEntries
    else if |text| + |Comma(es) + EntryText(EncodedEntry(key, value, properties))| >= HEADER_LENGTH_LIMIT then TooLong
    else Added
  }

  /** ParseEntry, told by the positions of '=' and of the first ';' after it. */
  lemma EntryByPosition(t: Bytes, allowed: set<Bytes>)
    ensures Find(t, ',', 0) != NPOS || HasSpace(t) || Find(t, '=', 0) == NPOS ==> ParseEntry(t, allowed).Rejected?
    ensures Find(t, ',', 0) == NPOS && !HasSpace(t) && Find(t, '=', 0) != NPOS ==>
              var d := Find(t, '=', 0);
              var pos := Find(t, ';', d);
              var value := if pos == NPOS then t[d + 1..] else t[d + 1..pos];
              var properties := if pos == NPOS then Properties([], true) else ParseProperties(Split(t[pos + 1..], ';'));
              ParseEntry(t, allowed) == Assemble(t[..d], value, properties, allowed)
  {
    hide ParseProperty, Split, Decode, HasSpace, Assemble;
    FindAny(t, ',');
    FindFirst(t, '=', 0);
    if Find(t, ',', 0) == NPOS && !HasSpace(t) && Find(t, '=', 0) != NPOS {
      var d := Find(t, '=', 0);
      assert Find(t, ';', d) == Find(t, ';', d + 1);
      SplitFrom(t, ';', d + 1);
    }
  }

  function Gather(ps: seq<Property>, clean: bool, rest: Properties): Properties {
    Properties(ps + rest.list, clean && rest.clean)
  }

  /** One turn of the loop over the properties of an entry. */
  lemma GatherStep(ps: seq<Property>, clean: bool, todo: seq<Bytes>)
    requires todo != []
    ensures Gather(ps, clean, ParseProperties(todo)) ==
            if todo[0] == [] then Gather(ps, clean, ParseProperties(todo[1..]))
            else
              match ParseProperty(todo[0])
              case None => Gather(ps, false, ParseProperties(todo[1..]))
              case Some(p) => Gather(ps + [p], clean, ParseProperties(todo[1..]))
  {
    hide ParseProperty;
    var rest := ParseProperties(todo[1..]).list;
    var one := ParseProperty(todo[0]);
    if one.Some? { assert ps + ([one.value] + rest) == ps + [one.value] + rest; }
  }

  lemma Gathered(ps: seq<Property>, clean: bool)
    ensures Gather(ps, clean, ParseProperties([])) == Properties(ps, clean)
  {
  }

  lemma Gathers(clean: bool, p: Properties)
    ensures Gather([], clean, p) == Properties(p.list, clean && p.clean)
  {
  }

  /** One turn of the loop over the header. */
  lemma FillStep(es: seq<Entry>, clean: bool, todo: seq<Bytes>, allowed: set<Bytes>, room: nat)
    requires todo != [] && room > 0
    ensures Combine(es, clean, ParseEntries(todo, allowed, room)) ==
            if todo[0] == [] then Combine(es, clean, ParseEntries(todo[1..], allowed, room))
            else
              match ParseEntry(todo[0], allowed)
              case Throws => Failed
              case Rejected => Combine(es, false, ParseEntries(todo[1..], allowed, room))
              case Accepted(e, ok) => Combine(es + [e], clean && ok, ParseEntries(todo[1..], allowed, room - 1))
  {
    hide ParseEntry;
    var one := ParseEntry(todo[0], allowed);
    CombineTwice(es, clean, if one.Accepted? then [one.entry] else [], one.Accepted? && one.clean,
                 ParseEntries(todo[1..], allowed, if one.Accepted? then room - 1 else room));
    assert es + [] == es;
  }

  lemma NothingToDo(es: seq<Entry>, clean: bool, todo: seq<Bytes>, allowed: set<Bytes>, room: nat)
    requires todo == [] || room == 0
    ensures Combine(es, clean, ParseEntries(todo, allowed, room)) == Entries(es, clean)
  {
  }

  lemma SameTail(es: seq<Entry>, fs: seq<Entry>, gs: seq<Entry>)
    ensures es + fs == es + gs <==> fs == gs
  {
    assert (es + fs)[|es|..] == fs && (es + gs)[|es|..] == gs;
  }

  lemma NothingRendered()
    ensures Render([]) == []
  {
  }

  lemma {:induction false} TextsSnoc(es: seq<Entry>, e: Entry)
    ensures EntryTexts(es + [e]) == EntryTexts(es) + [EntryText(e)]
  {
    if es != [] {
      TextsSnoc(es[1..], e);
      assert (es + [e])[1..] == es[1..] + [e];
    }
  }

  lemma RenderOneMore(es: seq<Entry>, i: nat)
    requires i < |es|
    ensures Render(es[..i + 1]) == Render(es[..i]) + (if i == 0 then [] else [',']) + EntryText(es[i])
  {
    assert es[..i + 1] == es[..i] + [es[i]];
    TextsSnoc(es[..i], es[i]);
    if i > 0 {
      JoinSnoc(EntryTexts(es[..i]), EntryText(es[i]), ',');
    }
  }

  lemma {:induction false} PropertyTextsSnoc(ps: seq<Property>, p: Property)
    ensures PropertyTexts(ps + [p]) == PropertyTexts(ps) + [PropertyText(p)]
  {
    if ps != [] {
      PropertyTextsSnoc(ps[1..], p);
      assert (ps + [p])[1..] == ps[1..] + [p];
    }
  }

  lemma EntryTextOneMore(e: Entry, i: nat)
    requires i < |e.properties|
    ensures EntryText(e.(properties := e.properties[..i + 1]))
            == EntryText(e.(properties := e.properties[..i])) + [';'] + PropertyText(e.properties[i])
  {
    var ps := e.properties;
    assert ps[..i + 1] == ps[..i] + [ps[i]];
    PropertyTextsSnoc(ps[..i], ps[i]);
    JoinSnoc([e.value] + PropertyTexts(ps[..i]), PropertyText(ps[i]), ';');
    assert [e.value] + (PropertyTexts(ps[..i]) + [PropertyText(ps[i])])
        == [e.value] + PropertyTexts(ps[..i]) + [PropertyText(ps[i])];
  }

  lemma EntryTextBare(e: Entry)
    ensures EntryText(e.(properties := [])) == e.key + ['='] + e.value
  {
    assert PropertyTexts([]) == [];
  }

  method ConcatenateWith(e: Entry, header: Bytes) returns (r: Bytes)
    ensures r == header + EntryText(e)
  {
    hide EntryText;
    EntryTextBare(e);
    r := header + (e.key + ['='] + e.value);
    assert e.properties[..0] == [];
    for i := 0 to |e.properties|
      invariant r == header + EntryText(e.(properties := e.properties[..i]))
    {
      EntryTextOneMore(e, i);
      r := r + ([';'] + PropertyText(e.properties[i]));
    }
    assert e.properties[..|e.properties|] == e.properties;
  }

  /** The text of a new entry, encoded piece by piece. */
  method EncodedText(key: Bytes, value: Bytes, properties: seq<Property>) returns (text: Bytes)
    ensures text == EntryText(EncodedEntry(key, value, properties))
  {
    hide EntryText, Encode, EncodedProperties, PropertyText, EncodedProperty;
    var encodedKey := UrlEncode(key);
    var encodedValue := UrlEncode(value);
    ghost var e := EncodedEntry(key, value, properties);
    text := encodedKey + ['='] + encodedValue;
    EntryTextBare(e);
    assert e.properties[..0] == [];
    for i := 0 to |properties|
      invariant text == EntryText(e.(properties := e.properties[..i]))
    {
      EntryTextOneMore(e, i);
      EncodedAt(properties, i);
      var piece := EncodedPropertyPiece(properties[i]);
      text := text + [';'] + piece;
    }
    assert e.properties[..|e.properties|] == e.properties;
  }

  method EncodedPropertyPiece(p: Property) returns (text: Bytes)
    ensures text == PropertyText(EncodedProperty(p))
  {
    hide Encode;
    text := UrlEncode(p.key);
    if p.value.Some? {
      var encodedValue := UrlEncode(p.value.value);
      text := text + ['='] + encodedValue;
    }
  }

  lemma {:induction false} EncodedAt(ps: seq<Property>, i: nat)
    requires i < |ps|
    ensures EncodedProperties(ps)[i] == EncodedProperty(ps[i])
  {
    if i > 0 { EncodedAt(ps[1..], i - 1); }
  }

  method TryMakeBaggageEntryProperty(property: Bytes) returns (r: Option<Property>)
    ensures r == ParseProperty(property)
  {
    FindAny(property, ',');
    FindAny(property, ';');
    if property == [] || HasSpace(property) {
      return None;
    }
    if Find(property, ',', 0) != NPOS || Find(property, ';', 0) != NPOS {
      return None;
    }
    var delimiter := Find(property, '=', 0);
    if delimiter == NPOS {
      return Some(Property(property, None));
    }
    var key, value := property[..delimiter], property[delimiter + 1..];
    if '=' in value || value == [] || key == [] {
      return None;
    }
    return Some(Property(key, Some(value)));
  }

  /** The longer header is never rejected by an exception and yields the old entries and the new one. */
  lemma Appended(base: Bytes, es: seq<Entry>, key: Bytes, value: Bytes, ps: seq<Property>, allowed: set<Bytes>)
    requires Parse(base, allowed) == Entries(es, true) && |es| < ENTITIES_LIMIT && key in allowed
    ensures Parse(base + Comma(es) + EntryText(EncodedEntry(key, value, ps)), allowed)
            == Entries(es + KeptEntry(key, value, ps), HarmlessParts(key, value, ps))
  {
    hide ParseEntry, EntryText, EncodedEntry, Harmless, KeptProperties, Parse;
    var t := EntryText(EncodedEntry(key, value, ps));
    ParseEncodedEntry(key, value, ps, allowed);
    ParseAppended(base, es, t, allowed);
    assert ParseEntries([t][1..], allowed, ENTITIES_LIMIT - |es|) == Entries([], true);
    assert ParseEntries([t][1..], allowed, ENTITIES_LIMIT - |es| - 1) == Entries([], true);
  }

  /** Which of the two printed forms can be read back after AddEntry. */
  lemma AfterAppend(base: Bytes, es: seq<Entry>, stale: Bytes, key: Bytes, value: Bytes, ps: seq<Property>,
                    allowed: set<Bytes>)
    requires Parse(base, allowed) == Entries(es, true) && |es| < ENTITIES_LIMIT && key in allowed
    requires Leftover(stale, es)
    ensures var es' := es + KeptEntry(key, value, ps);
            && |es'| <= ENTITIES_LIMIT && GoodEntries(es', allowed)
            && Leftover(stale, es') && Leftover(stale + [], es')
            && (stale == [] ==> Leftover(stale + Render(es'), es') && stale + Render(es') == Render(es'))
            && (stale == [] <==> Parse(stale + Render(es'), allowed) == Entries(es', true))
            && (stale != [] ==> GluedTo(stale + Render(es'), es', allowed))
  {
    hide ParseEntries, KeptProperties, GoodEntries, Render, GluedList, GluedClean;
    var es' := es + KeptEntry(key, value, ps);
    var t := EntryText(EncodedEntry(key, value, ps));
    Appended(base, es, key, value, ps, allowed);
    ParsedEntriesAreGood(Split(base + Comma(es) + t, ','), allowed, ENTITIES_LIMIT);
    assert stale + [] == stale;
    if stale == [] {
      assert stale + Render(es') == Render(es');
      ParseRender(es', allowed);
      WholeIsLeftover(es');
    } else {
      var m :| 0 < m <= |es| && stale == Render(es[..m]);
      assert es'[..m] == es[..m];
      GluedIsNotClean(es', m, allowed);
      GluedParse(es', m, allowed);
    }
  }

  lemma WholeIsLeftover(es: seq<Entry>)
    ensures Leftover(Render(es), es)
  {
    if es == [] {
      NothingRendered();
    } else {
      assert es[..|es|] == es;
    }
  }

  // ---- making baggage -----------------------------------------------------

  /** The constructor from a header: whitespace goes, then the entries are read. */
  method Construct(header: Bytes, allowed: set<Bytes>) returns (threw: bool, b: Baggage)
    ensures fresh(b) && b.allowedKeys == allowed
    ensures threw <==> Parse(Strip(header), allowed).Failed?
    ensures !threw ==> b.Valid() && Parse(Strip(header), allowed) == Entries(b.entries, b.isValidHeader)
    ensures b.headerValue == Strip(header)
    ensures !threw ==> b.resultHeader == if b.isValidHeader then [] else Render(b.entries)
    ensures forall es :: GoodEntries(es, allowed) && |es| <= ENTITIES_LIMIT && Spaced(Render(es), header) ==>
              !threw && b.entries == es && b.isValidHeader && b.headerValue == Render(es)
  {
    hide Parse, Render, GoodEntries, Spaced, Strip;
    forall es | GoodEntries(es, allowed) && |es| <= ENTITIES_LIMIT && Spaced(Render(es), header)
      ensures Strip(header) == Render(es) && Parse(Strip(header), allowed) == Entries(es, true)
    {
      ParseSpaced(es, allowed, header);
    }
    b := new Baggage(Strip(header), allowed);
    threw := b.Refill();
    if !threw {
      Settled(Strip(header), allowed);
    }
  }

  /** The copy constructor; the move constructor builds its object the same way. */
  method Copy(source: Baggage) returns (threw: bool, b: Baggage)
    requires source.Valid()
    ensures fresh(b) && b.allowedKeys == source.allowedKeys
    ensures !threw && b.Valid() && b.isValidHeader
    ensures b.entries == source.entries && b.ToString() == source.ToString()
  {
    hide Parse, Render;
    b := new Baggage(source.ToString(), source.allowedKeys);
    threw := b.Refill();
    Settled(source.ToString(), source.allowedKeys);
  }

  lemma Settled(header: Bytes, allowed: set<Bytes>)
    requires Parse(header, allowed).Entries?
    ensures var es := Parse(header, allowed).list;
            && GoodEntries(es, allowed) && |es| <= ENTITIES_LIMIT
            && Parse(Render(es), allowed) == Entries(es, true)
            && Leftover([], es) && Leftover([] + Render(es), es) && Leftover([] + [], es)
            && [] + Render(es) == Render(es)
  {
    hide Render;
    var es := Parse(header, allowed).list;
    ParsedEntriesAreGood(Split(header, ','), allowed, ENTITIES_LIMIT);
    ParseRender(es, allowed);
    WholeIsLeftover(es);
    assert [] + Render(es) == Render(es);
  }

  method TryMakeBaggage(header: Bytes, allowed: set<Bytes>) returns (threw: bool, r: Option<Baggage>)
    ensures r.Some? <==> |header| <= HEADER_LENGTH_LIMIT && Parse(Strip(header), allowed).Entries?
    ensures threw <==> |header| <= HEADER_LENGTH_LIMIT && Parse(Strip(header), allowed).Failed?
    ensures r.Some? ==> fresh(r.value) && r.value.Valid() && r.value.allowedKeys == allowed
                        && Parse(Strip(header), allowed) == Entries(r.value.entries, r.value.isValidHeader)
    ensures forall es :: GoodEntries(es, allowed) && |es| <= ENTITIES_LIMIT && Spaced(Render(es), header)
                         && |header| <= HEADER_LENGTH_LIMIT ==>
              r.Some? && r.value.entries == es && r.value.isValidHeader
  {
    hide Parse, Render, GoodEntries, Spaced, Strip;
    if |header| > HEADER_LENGTH_LIMIT {
      return false, None;
    }
    var b;
    threw, b := Construct(header, allowed);
    r := if threw then None else Some(b);
  }

  // ---- many additions -----------------------------------------------------

  datatype Addition = Addition(key: Bytes, value: Bytes, properties: seq<Property>)

  function EncodedAll(list: seq<Addition>): (es: seq<Entry>)
    ensures |es| == |list|
  {
    if list == [] then []
    else
      var last := list[|list| - 1];
      EncodedAll(list[..|list| - 1]) + [EncodedEntry(last.key, last.value, last.properties)]
  }

  method AddOne(b: Baggage, a: Addition) returns (r: AddResult)
    requires b.Valid() && NonEmptyParts(a.key, a.value, a.properties)
    modifies b
    ensures b.Valid()
    ensures r == old(Admitted(a.key, a.value, a.properties, b.allowedKeys, b.entries, b.ToString()))
    ensures r.Added? ==> b.entries == old(b.entries) + [EncodedEntry(a.key, a.value, a.properties)]
    ensures !r.Added? ==> b.entries == old(b.entries) && b.ToString() == old(b.ToString())
  {
    hide Parse, Leftover, GoodEntries, Render, EntryText, EncodedEntry, Harmless, NonEmptyProperty;
    hide Reads, GluedTo, Comma, HarmlessParts, NonEmptyParts, KeptEntry, Admitted;
    NonEmptyPartsAreHarmless(a.key, a.value, a.properties);
    r := b.AddEntry(a.key, a.value, a.properties);
  }

  /** Any number of additions without empty parts, up to the first that is refused. */
  method AddAll(b: Baggage, list: seq<Addition>) returns (added: nat)
    requires b.Valid() && forall a :: a in list ==> NonEmptyParts(a.key, a.value, a.properties)
    modifies b
    ensures added <= |list| && b.Valid() && b.Reparses()
    ensures b.entries == old(b.entries) + EncodedAll(list[..added]) && |b.entries| <= ENTITIES_LIMIT
    ensures added < |list| ==>
              var a := list[added];
              !Admitted(a.key, a.value, a.properties, b.allowedKeys, b.entries, b.ToString()).Added?
  {
    hide Parse, Leftover, GoodEntries, Render, EntryText, EncodedEntry, Harmless, NonEmptyProperty;
    hide Reads, GluedTo, Comma, HarmlessParts, NonEmptyParts, KeptEntry, Admitted;
    added := 0;
    while added < |list|
      invariant added <= |list| && b.Valid()
      invariant b.entries == old(b.entries) + EncodedAll(list[..added])
    {
      var a := list[added];
      assert NonEmptyParts(a.key, a.value, a.properties);
      var r := AddOne(b, a);
      if r != Added {
        return;
      }
      assert list[..added + 1][..added] == list[..added];
      added := added + 1;
    }
  }

  lemma NonEmptyPartsAreHarmless(key: Bytes, value: Bytes, ps: seq<Property>)
    requires NonEmptyParts(key, value, ps)
    ensures HarmlessParts(key, value, ps)
  {
  }

  // ---- a leftover result header does harm --------------------------------

  lemma ShortText(key: Bytes, value: Bytes)
    ensures |EntryText(EncodedEntry(key, value, []))| <= 3 * |key| + 1 + 3 * |value|
    ensures Render([EncodedEntry(key, value, [])]) == EntryText(EncodedEntry(key, value, [])) != []
  {
    EncodedBytes(key);
    EncodedBytes(value);
    EntryTextBare(EncodedEntry(key, value, []));
  }

  /** An entry without properties, glued to itself, is refused. */
  lemma GluedAlone(e: Entry, allowed: set<Bytes>)
    requires GoodEntry(e, allowed)
    ensures e.properties == [] && ';' !in e.key ==> Parse(Render([e]) + Render([e]), allowed) == Entries([], false)
  {
    hide GoodEntry, Parse, Render, EntryText, ParseEntry;
    GluedEntry(e, e, allowed);
    assert [e][..1] == [e] && [e][..0] == [] && [e][1..] == [];
    GluedParse([e], 1, allowed);
  }

  /** Two entries with empty values in a row: the second one garbles the text that is sent on. */
  method EmptyValueTwice(key: Bytes, value: Bytes) returns (b: Baggage)
    requires key != [] && value != [] && |key| < 100 && |value| < 100
    ensures b.entries == [EncodedEntry(key, value, [])] && !b.Reparses()
    ensures Parse(b.ToString(), b.allowedKeys) == Entries([], false)
  {
    hide Parse, Render, EntryText;
    var threw;
    assert Strip([]) == [];
    NothingRendered();
    ParseRender([], {key});
    threw, b := Construct([], {key});
    assert b.entries == [] && b.ToString() == [];
    assert Comma([]) + EntryText(EncodedEntry(key, value, [])) == EntryText(EncodedEntry(key, value, []));
    ShortText(key, value);
    ShortText(key, []);
    var r := b.AddEntry(key, value, []);
    assert b.entries == [EncodedEntry(key, value, [])] && b.resultHeader == [];
    r := b.AddEntry(key, [], []);
    var e := EncodedEntry(key, value, []);
    assert b.entries == [e] && b.resultHeader == Render([e]) != [];
    assert GoodEntry(e, b.allowedKeys) by { assert e in b.entries; }
    r := b.AddEntry(key, [], []);
    GluedAlone(e, b.allowedKeys);
    assert ';' !in e.key by { EncodedPlain(key); }
  }
}
