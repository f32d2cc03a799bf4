/** The text of a W3C Baggage header: what parsing accepts, and how it relates to printing. */
module BaggageText {
  import opened Options
  import opened Octets
  import opened UrlCodec
  import opened Splitting

  const ENTITIES_LIMIT := 64
  const HEADER_LENGTH_LIMIT := 8192

  /** Keys and values are kept percent-encoded, as they stand in the header. */
  datatype Property = Property(key: Bytes, value: Option<Bytes>)

  datatype Entry = Entry(key: Bytes, value: Bytes, properties: seq<Property>)

  predicate IsSpace(c: Byte) { c == ' ' || 9 <= c as int <= 13 }

  predicate HasSpace(s: Bytes) { exists i :: 0 <= i < |s| && IsSpace(s[i]) }

  function Strip(s: Bytes): Bytes {
    if s == [] then [] else if IsSpace(s[0]) then Strip(s[1..]) else [s[0]] + Strip(s[1..])
  }

  // ---- printing -----------------------------------------------------------

  function PropertyText(p: Property): Bytes {
    if p.value.Some? then p.key + ['='] + p.value.value else p.key
  }

  function PropertyTexts(ps: seq<Property>): (ts: seq<Bytes>)
    ensures |ts| == |ps|
  {
    if ps == [] then [] else [PropertyText(ps[0])] + PropertyTexts(ps[1..])
  }

  function EntryText(e: Entry): Bytes {
    e.key + ['='] + Join([e.value] + PropertyTexts(e.properties), ';')
  }

  function EntryTexts(es: seq<Entry>): (ts: seq<Bytes>)
    ensures |ts| == |es|
  {
    if es == [] then [] else [EntryText(es[0])] + EntryTexts(es[1..])
  }

  function Render(es: seq<Entry>): Bytes { Join(EntryTexts(es), ',') }

  // ---- parsing, in terms of pieces ---------------------------------------

  function ParseProperty(p: Bytes): Option<Property> {
    if p == [] || HasSpace(p) || ',' in p || ';' in p then None
    else
      var d := Find(p, '=', 0);
      if d == NPOS then Some(Property(p, None))
      else
        var key, value := p[..d], p[d + 1..];
        if '=' in value || value == [] || key == [] then None else Some(Property(key, Some(value)))
  }

  datatype Properties = Properties(list: seq<Property>, clean: bool)

  /** Empty pieces are skipped in silence, bad ones are dropped and make the text unclean. */
  function ParseProperties(pieces: seq<Bytes>): Properties {
    if pieces == [] then Properties([], true)
    else
      var rest := ParseProperties(pieces[1..]);
      if pieces[0] == [] then rest
      else
        match ParseProperty(pieces[0])
        case None => Properties(rest.list, false)
        case Some(p) => Properties([p] + rest.list, rest.clean)
  }

  datatype ParsedEntry = Throws | Rejected | Accepted(entry: Entry, clean: bool)

  /** The checks on the parts of an entry, once it is cut up. */
  function Assemble(key: Bytes, value: Bytes, properties: Properties, allowed: set<Bytes>): ParsedEntry {
    if Decode(key).BadPercent? then Throws
    else if Decode(key).text !in allowed || key == [] || value == [] || '=' in value then Rejected
    else Accepted(Entry(key, value, properties.list), properties.clean)
  }

  function ParseEntry(t: Bytes, allowed: set<Bytes>): ParsedEntry {
    if ',' in t || HasSpace(t) then Rejected
    else
      var d := Find(t, '=', 0);
      if d == NPOS then Rejected
      else
        var pieces := Split(t[d + 1..], ';');
        Assemble(t[..d], pieces[0], ParseProperties(pieces[1..]), allowed)
  }

  datatype Parsed = Failed | Entries(list: seq<Entry>, clean: bool)

  /** What was parsed so far, and what the rest of the text adds to it. */
  function Combine(es: seq<Entry>, clean: bool, rest: Parsed): Parsed {
    if rest.Failed? then Failed else Entries(es + rest.list, clean && rest.clean)
  }

  /** At most `room` entries; pieces after the last of those are not looked at. */
  function ParseEntries(pieces: seq<Bytes>, allowed: set<Bytes>, room: nat): Parsed {
    if pieces == [] || room == 0 then Entries([], true)
    else if pieces[0] == [] then ParseEntries(pieces[1..], allowed, room)
    else
      match ParseEntry(pieces[0], allowed)
      case Throws => Failed
      case Rejected => Combine([], false, ParseEntries(pieces[1..], allowed, room))
      case Accepted(e, clean) => Combine([e], clean, ParseEntries(pieces[1..], allowed, room - 1))
  }

  function Parse(header: Bytes, allowed: set<Bytes>): Parsed {
    ParseEntries(Split(header, ','), allowed, ENTITIES_LIMIT)
  }

  /** A piece that is no entry costs the others nothing; only an empty one goes without notice. */
  lemma {:induction false} PieceDropped(ps: seq<Bytes>, t: Bytes, qs: seq<Bytes>, allowed: set<Bytes>, room: nat)
    requires ParseEntry(t, allowed).Rejected?
    requires ParseEntries(ps, allowed, room).Entries? && |ParseEntries(ps, allowed, room).list| < room
    ensures var with, without := ParseEntries(ps + [t] + qs, allowed, room), ParseEntries(ps + qs, allowed, room);
            && (with.Failed? <==> without.Failed?)
            && (with.Entries? ==> with.list == without.list && (with.clean <==> without.clean && t == []))
    decreases |ps|
  {
    hide ParseEntry;
    var with, without := ps + [t] + qs, ps + qs;
    if ps == [] {
      assert with[0] == t && with[1..] == qs && without == qs;
    } else {
      assert with[1..] == ps[1..] + [t] + qs && without[1..] == ps[1..] + qs;
      var taken := ps[0] != [] && ParseEntry(ps[0], allowed).Accepted?;
      PieceDropped(ps[1..], t, qs, allowed, if taken then room - 1 else room);
    }
  }

  // ---- entries that come out of the parser -------------------------------

  predicate Plain(s: Bytes) { s != [] && ',' !in s && '=' !in s && !HasSpace(s) }

  predicate GoodProperty(p: Property) {
    && Plain(p.key) && ';' !in p.key
    && (p.value.Some? ==> Plain(p.value.value) && ';' !in p.value.value)
  }

  /** A key may hold ';' because the parser looks for '=' first. */
  predicate GoodEntry(e: Entry, allowed: set<Bytes>) {
    && Plain(e.key) && Decode(e.key).Decoded? && Decode(e.key).text in allowed
    && Plain(e.value) && ';' !in e.value
    && forall p :: p in e.properties ==> GoodProperty(p)
  }

  ghost predicate GoodEntries(es: seq<Entry>, allowed: set<Bytes>) {
    forall e :: e in es ==> GoodEntry(e, allowed)
  }

  // ---- what makes the parser throw ---------------------------------------

  /** The text before the first equals sign holds a percent sign that starts no escape. */
  ghost predicate BadKey(t: Bytes) {
    && ',' !in t && !HasSpace(t)
    && exists d :: 0 <= d < |t| && t[d] == '=' && '=' !in t[..d] && Decode(t[..d]).BadPercent?
  }

  lemma ThrowsAtKey(t: Bytes, allowed: set<Bytes>)
    ensures var d := Find(t, '=', 0);
            ParseEntry(t, allowed).Throws? <==>
            ',' !in t && !HasSpace(t) && d != NPOS && Decode(t[..d]).BadPercent?
  {
    hide HasSpace, Decode, ParseProperties, Split, Find;
  }

  lemma ThrowsIsBadKey(t: Bytes, allowed: set<Bytes>)
    ensures ParseEntry(t, allowed).Throws? <==> BadKey(t)
  {
    hide HasSpace, Decode, ParseEntry;
    ThrowsAtKey(t, allowed);
    FindFirst(t, '=', 0);
    var d := Find(t, '=', 0);
    if d != NPOS { assert t[0..d] == t[..d]; }
    if BadKey(t) {
      var e :| 0 <= e < |t| && t[e] == '=' && '=' !in t[..e] && Decode(t[..e]).BadPercent?;
      assert t == t[..e] + ['='] + t[e + 1..];
      FindAfter(t[..e], '=', t[e + 1..]);
    }
  }

  /** A bad key is reached: fewer than `room` entries were taken from the pieces before it. */
  ghost predicate BadKeyReached(pieces: seq<Bytes>, allowed: set<Bytes>, room: nat) {
    exists i :: 0 <= i < |pieces| && BadKeyAt(pieces, i, allowed, room)
  }

  ghost predicate BadKeyAt(pieces: seq<Bytes>, i: nat, allowed: set<Bytes>, room: nat)
    requires i < |pieces|
  {
    BadKey(pieces[i]) && TakenFrom(pieces[..i], allowed) < room
  }

  /** How many entries the pieces hold. */
  function TakenFrom(pieces: seq<Bytes>, allowed: set<Bytes>): nat {
    if pieces == [] then 0
    else TakenFrom(pieces[1..], allowed) + if ParseEntry(pieces[0], allowed).Accepted? then 1 else 0
  }

  lemma {:induction false} ParseThrowsIff(pieces: seq<Bytes>, allowed: set<Bytes>, room: nat)
    ensures ParseEntries(pieces, allowed, room).Failed? <==> BadKeyReached(pieces, allowed, room)
    decreases |pieces|
  {
    hide ParseEntry, BadKey;
    if pieces != [] && room > 0 {
      var rest := pieces[1..];
      ThrowsIsBadKey(pieces[0], allowed);
      NothingIsNoKey(allowed);
      var left := if ParseEntry(pieces[0], allowed).Accepted? then room - 1 else room;
      ParseThrowsIff(rest, allowed, left);
      assert pieces[..0] == [];
      if BadKey(pieces[0]) { assert BadKeyAt(pieces, 0, allowed, room); }
      if BadKeyReached(rest, allowed, left) {
        var i :| 0 <= i < |rest| && BadKeyAt(rest, i, allowed, left);
        BadKeyLater(pieces, i + 1, allowed, room);
      }
      if BadKeyReached(pieces, allowed, room) && !BadKey(pieces[0]) {
        var i :| 0 <= i < |pieces| && BadKeyAt(pieces, i, allowed, room);
        BadKeyLater(pieces, i, allowed, room);
      }
    }
  }

  lemma NothingIsNoKey(allowed: set<Bytes>)
    ensures !BadKey([]) && ParseEntry([], allowed).Rejected?
  {
    FindAny([], '=');
  }

  lemma BadKeyLater(pieces: seq<Bytes>, i: nat, allowed: set<Bytes>, room: nat)
    requires 0 < i < |pieces| && room > 0
    ensures var left := room - if ParseEntry(pieces[0], allowed).Accepted? then 1 else 0;
            BadKeyAt(pieces, i, allowed, room) <==> BadKeyAt(pieces[1..], i - 1, allowed, left)
  {
    hide ParseEntry, BadKey;
    assert pieces[..i][1..] == pieces[1..][..i - 1];
  }

  lemma NoSpaceWithin(s: Bytes, i: nat, j: nat)
    requires !HasSpace(s) && i <= j <= |s|
    ensures !HasSpace(s[i..j])
  {
  }

  lemma NoSpaceAppend(s: Bytes, t: Bytes)
    requires !HasSpace(s) && !HasSpace(t)
    ensures !HasSpace(s + t)
  {
  }

  lemma NoSpaceMembers(s: Bytes, t: Bytes)
    requires !HasSpace(s) && forall x :: x in t ==> x in s
    ensures !HasSpace(t)
  {
    forall i | 0 <= i < |t| ensures !IsSpace(t[i]) { assert t[i] in s; }
  }

  lemma ParsedPropertyIsGood(p: Bytes)
    requires ParseProperty(p).Some?
    ensures GoodProperty(ParseProperty(p).value) && PropertyText(ParseProperty(p).value) == p
  {
    var d := Find(p, '=', 0);
    FindFirst(p, '=', 0);
    assert p[0..] == p;
    if d != NPOS {
      assert p == p[..d] + ['='] + p[d + 1..];
      NoSpaceWithin(p, 0, d);
      NoSpaceWithin(p, d + 1, |p|);
      assert p[0..d] == p[..d];
    }
  }

  lemma {:induction false} ParsedPropertiesAreGood(pieces: seq<Bytes>)
    ensures forall p :: p in ParseProperties(pieces).list ==> GoodProperty(p)
  {
    if pieces != [] {
      ParsedPropertiesAreGood(pieces[1..]);
      if ParseProperty(pieces[0]).Some? { ParsedPropertyIsGood(pieces[0]); }
    }
  }

  lemma ParsedEntryIsGood(t: Bytes, allowed: set<Bytes>)
    requires ParseEntry(t, allowed).Accepted?
    ensures GoodEntry(ParseEntry(t, allowed).entry, allowed)
  {
    hide GoodProperty, ParseProperty, ParseProperties;
    var d := Find(t, '=', 0);
    FindFirst(t, '=', 0);
    var rest := t[d + 1..];
    NoSpaceWithin(t, 0, d);
    assert t[0..d] == t[..d];
    NoSpaceWithin(t, d + 1, |t|);
    PiecesClean(rest, ';');
    assert Split(rest, ';')[0] in Split(rest, ';');
    NoSpaceMembers(rest, Split(rest, ';')[0]);
    ParsedPropertiesAreGood(Split(rest, ';')[1..]);
  }

  lemma {:induction false} ParsedEntriesAreGood(pieces: seq<Bytes>, allowed: set<Bytes>, room: nat)
    requires ParseEntries(pieces, allowed, room).Entries?
    ensures GoodEntries(ParseEntries(pieces, allowed, room).list, allowed)
    ensures |ParseEntries(pieces, allowed, room).list| <= room
  {
    hide GoodEntry, ParseEntry;
    if pieces != [] && room != 0 {
      if pieces[0] == [] || ParseEntry(pieces[0], allowed).Rejected? {
        ParsedEntriesAreGood(pieces[1..], allowed, room);
      } else {
        ParsedEntryIsGood(pieces[0], allowed);
        ParsedEntriesAreGood(pieces[1..], allowed, room - 1);
      }
    }
  }

  // ---- printing, then parsing --------------------------------------------

  lemma FindAfter(s: Bytes, c: Byte, t: Bytes)
    requires c !in s
    ensures Find(s + [c] + t, c, 0) == |s|
    ensures (s + [c] + t)[..|s|] == s && (s + [c] + t)[|s| + 1..] == t
  {
    var u := s + [c] + t;
    var r := Find(u, c, 0);
    FindFirst(u, c, 0);
    assert u[|s|] == c && u[0..] == u;
    assert forall k :: 0 <= k < |s| ==> u[k] == s[k];
    assert forall k :: 0 <= k < r ==> u[0..r][k] == u[k];
  }

  lemma ParsePropertyText(p: Property)
    requires GoodProperty(p)
    ensures ParseProperty(PropertyText(p)) == Some(p)
    ensures PropertyText(p) != [] && ';' !in PropertyText(p) && ',' !in PropertyText(p) && !HasSpace(PropertyText(p))
  {
    if p.value.Some? {
      FindAfter(p.key, '=', p.value.value);
      NoSpaceAppend(p.key, ['=']);
      NoSpaceAppend(p.key + ['='], p.value.value);
    } else {
      FindAny(p.key, '=');
    }
  }

  lemma {:induction false} ParsePropertyTexts(ps: seq<Property>)
    requires forall p :: p in ps ==> GoodProperty(p)
    ensures ParseProperties(PropertyTexts(ps)) == Properties(ps, true)
    ensures forall t :: t in PropertyTexts(ps) ==> ';' !in t && ',' !in t && !HasSpace(t)
  {
    hide ParseProperty, GoodProperty, PropertyText, HasSpace;
    if ps != [] {
      ParsePropertyText(ps[0]);
      ParsePropertyTexts(ps[1..]);
      assert PropertyTexts(ps)[1..] == PropertyTexts(ps[1..]);
    }
  }

  lemma {:induction false} NoSpaceJoin(ps: seq<Bytes>, c: Byte)
    requires !IsSpace(c) && forall p :: p in ps ==> !HasSpace(p)
    ensures !HasSpace(Join(ps, c))
  {
    if |ps| > 1 {
      NoSpaceJoin(ps[1..], c);
      NoSpaceAppend(ps[0], [c]);
      NoSpaceAppend(ps[0] + [c], Join(ps[1..], c));
    }
  }

  lemma ParseEntryText(e: Entry, allowed: set<Bytes>)
    requires GoodEntry(e, allowed)
    ensures ParseEntry(EntryText(e), allowed) == Accepted(e, true)
    ensures EntryText(e) != [] && ',' !in EntryText(e) && !HasSpace(EntryText(e))
  {
    hide ParseProperty, GoodProperty, PropertyText, PropertyTexts, ParseProperties, HasSpace, Decode, Join;
    var parts := [e.value] + PropertyTexts(e.properties);
    var rest := Join(parts, ';');
    ParsePropertyTexts(e.properties);
    SplitJoin(parts, ';');
    FindAfter(e.key, '=', rest);
    JoinBytes(parts, ';', ',');
    NoSpaceJoin(parts, ';');
    assert !HasSpace(['=']) by { NoSpaceEq(); }
    NoSpaceAppend(e.key, ['=']);
    NoSpaceAppend(e.key + ['='], rest);
    assert parts[1..] == PropertyTexts(e.properties);
  }

  lemma NoSpaceEq()
    ensures !HasSpace(['='])
  {
  }

  lemma {:induction false} ParseEntryTexts(es: seq<Entry>, allowed: set<Bytes>, room: nat)
    requires GoodEntries(es, allowed) && |es| <= room
    ensures ParseEntries(EntryTexts(es), allowed, room) == Entries(es, true)
    ensures forall t :: t in EntryTexts(es) ==> ',' !in t
  {
    hide ParseEntry, GoodEntry, EntryText, HasSpace;
    if es != [] {
      ParseEntryText(es[0], allowed);
      ParseEntryTexts(es[1..], allowed, room - 1);
      assert EntryTexts(es)[1..] == EntryTexts(es[1..]);
      assert [es[0]] + es[1..] == es;
    }
  }

  /** Printing good entries and parsing the text gives the entries back, with nothing rejected. */
  lemma ParseRender(es: seq<Entry>, allowed: set<Bytes>)
    requires GoodEntries(es, allowed) && |es| <= ENTITIES_LIMIT
    ensures Parse(Render(es), allowed) == Entries(es, true)
  {
    hide ParseEntry, GoodEntry, GoodEntries;
    if es == [] {
      assert Split([], ',') == [[]];
      assert ParseEntries([[]], allowed, ENTITIES_LIMIT) == ParseEntries([[]][1..], allowed, ENTITIES_LIMIT);
    } else {
      ParseEntryTexts(es, allowed, ENTITIES_LIMIT);
      SplitJoin(EntryTexts(es), ',');
    }
  }

  // ---- whitespace ---------------------------------------------------------

  lemma Spaces(c: Byte)
    ensures IsSpace(c) <==> c in {' ', '\t', '\n', '\U{0B}', '\U{0C}', '\r'}
    ensures Strip([c]) == if c in {' ', '\t', '\n', '\U{0B}', '\U{0C}', '\r'} then [] else [c]
  {
    assert Strip([]) == [];
    assert [c][1..] == [];
    assert '\t' as int == 9 && '\n' as int == 10 && '\U{0B}' as int == 11 && '\U{0C}' as int == 12 && '\r' as int == 13;
  }

  /** Whitespace goes byte by byte, wherever it stands. */
  lemma {:induction false} StripConcat(s: Bytes, t: Bytes)
    ensures Strip(s + t) == Strip(s) + Strip(t)
  {
    if s == [] {
      assert s + t == t;
    } else {
      assert (s + t)[1..] == s[1..] + t;
      StripConcat(s[1..], t);
    }
  }

  /** `t` is `s` with whitespace put in anywhere. */
  ghost predicate Spaced(s: Bytes, t: Bytes) {
    if t == [] then s == []
    else
      || (IsSpace(t[0]) && Spaced(s, t[1..]))
      || (s != [] && s[0] == t[0] && Spaced(s[1..], t[1..]))
  }

  lemma {:induction false} StripSpaced(s: Bytes, t: Bytes)
    requires !HasSpace(s)
    ensures Spaced(s, t) <==> Strip(t) == s
  {
    if t != [] {
      StripSpaced(s, t[1..]);
      if s != [] {
        assert !IsSpace(s[0]);
        NoSpaceWithin(s, 1, |s|);
        assert s[1..|s|] == s[1..];
        StripSpaced(s[1..], t[1..]);
        assert s == [s[0]] + s[1..];
      }
    }
  }

  lemma RenderHasNoSpace(es: seq<Entry>, allowed: set<Bytes>)
    requires GoodEntries(es, allowed)
    ensures !HasSpace(Render(es))
  {
    hide GoodEntry, EntryText, HasSpace, ParseEntry;
    forall t | t in EntryTexts(es) ensures !HasSpace(t) {
      var i :| 0 <= i < |es| && EntryTexts(es)[i] == t;
      TextAt(es, i);
      ParseEntryText(es[i], allowed);
    }
    NoSpaceJoin(EntryTexts(es), ',');
  }

  /** A printed list is read back through any whitespace. */
  lemma ParseSpaced(es: seq<Entry>, allowed: set<Bytes>, header: Bytes)
    requires GoodEntries(es, allowed) && |es| <= ENTITIES_LIMIT && Spaced(Render(es), header)
    ensures Strip(header) == Render(es) && Parse(Strip(header), allowed) == Entries(es, true)
  {
    hide Render, Parse, HasSpace, GoodEntry;
    RenderHasNoSpace(es, allowed);
    StripSpaced(Render(es), header);
    ParseRender(es, allowed);
  }

  // ---- text after text ----------------------------------------------------

  lemma {:induction false} ParseConcat(ps: seq<Bytes>, qs: seq<Bytes>, allowed: set<Bytes>, room: nat)
    requires ParseEntries(ps, allowed, room).Entries? && |ParseEntries(ps, allowed, room).list| < room
    ensures var p := ParseEntries(ps, allowed, room);
            ParseEntries(ps + qs, allowed, room) == Combine(p.list, p.clean, ParseEntries(qs, allowed, room - |p.list|))
  {
    hide ParseEntry;
    if ps == [] {
      assert ps + qs == qs;
      CombineNothing(ParseEntries(qs, allowed, room));
    } else {
      assert (ps + qs)[1..] == ps[1..] + qs;
      var front := ParseEntry(ps[0], allowed);
      var left := if ps[0] == [] || front.Rejected? then room else room - 1;
      ParseConcat(ps[1..], qs, allowed, left);
      var p := ParseEntries(ps[1..], allowed, left);
      var q := ParseEntries(qs, allowed, left - |p.list|);
      if ps[0] != [] {
        CombineTwice(if front.Rejected? then [] else [front.entry], front.Accepted? && front.clean, p.list, p.clean, q);
      }
    }
  }

  lemma CombineNothing(p: Parsed)
    ensures Combine([], true, p) == p
  {
  }

  lemma CombineTwice(es: seq<Entry>, c: bool, fs: seq<Entry>, d: bool, p: Parsed)
    ensures Combine(es, c, Combine(fs, d, p)) == Combine(es + fs, c && d, p)
  {
    if p.Entries? { assert es + (fs + p.list) == es + fs + p.list; }
  }

  /** Text that yields nothing, cleanly, is made of separators only. */
  lemma {:induction false} AllEmpty(ps: seq<Bytes>, allowed: set<Bytes>, room: nat)
    requires room > 0 && ParseEntries(ps, allowed, room) == Entries([], true)
    ensures forall i :: 0 <= i < |ps| ==> ps[i] == []
  {
    hide ParseEntry;
    if ps != [] {
      assert ps[0] == [];
      AllEmpty(ps[1..], allowed, room);
      assert forall i :: 0 < i < |ps| ==> ps[i] == ps[1..][i - 1];
    }
  }

  /** What AddEntry puts between the old text and the new entry. */
  function Comma(es: seq<Entry>): Bytes { if es == [] then [] else [','] }

  lemma ParseAppended(base: Bytes, es: seq<Entry>, t: Bytes, allowed: set<Bytes>)
    requires Parse(base, allowed) == Entries(es, true) && |es| < ENTITIES_LIMIT
    requires t != [] && ',' !in t
    ensures Parse(base + Comma(es) + t, allowed)
            == Combine(es, true, ParseEntries([t], allowed, ENTITIES_LIMIT - |es|))
  {
    hide ParseEntries, Split;
    var ps := Split(base, ',');
    if es == [] {
      AllEmpty(ps, allowed, ENTITIES_LIMIT);
      SplitTail(base, t, ',');
      assert base + [] + t == base + t;
      var last := |ps| - 1;
      assert ps[last] + t == t;
      assert ps == ps[..last] + [[]];
      Silent(ps[..last], allowed, ENTITIES_LIMIT);
      ParseConcat(ps[..last], [t], allowed, ENTITIES_LIMIT);
    } else {
      SplitAppend(base, t, ',');
      SplitNone(t, ',');
      ParseConcat(ps, [t], allowed, ENTITIES_LIMIT);
    }
  }

  lemma {:induction false} Silent(ps: seq<Bytes>, allowed: set<Bytes>, room: nat)
    requires forall i :: 0 <= i < |ps| ==> ps[i] == []
    ensures ParseEntries(ps, allowed, room) == Entries([], true)
  {
    if ps != [] {
      Silent(ps[1..], allowed, room);
    }
  }

  // ---- encoded arguments --------------------------------------------------

  function EncodedProperty(p: Property): Property {
    Property(Encode(p.key), if p.value.Some? then Some(Encode(p.value.value)) else None)
  }

  function EncodedProperties(ps: seq<Property>): (es: seq<Property>)
    ensures |es| == |ps|
  {
    if ps == [] then [] else [EncodedProperty(ps[0])] + EncodedProperties(ps[1..])
  }

  function EncodedEntry(key: Bytes, value: Bytes, ps: seq<Property>): Entry {
    Entry(Encode(key), Encode(value), EncodedProperties(ps))
  }

  /** Decoded, the stored entry is what was asked for. */
  ghost predicate Reads(e: Entry, key: Bytes, value: Bytes, ps: seq<Property>) {
    && Decode(e.key) == Decoded(key) && Decode(e.value) == Decoded(value)
    && |e.properties| == |ps|
    && forall i :: 0 <= i < |ps| ==> ReadsProperty(e.properties[i], ps[i])
  }

  ghost predicate ReadsProperty(e: Property, p: Property) {
    && Decode(e.key) == Decoded(p.key)
    && (e.value.Some? <==> p.value.Some?)
    && (p.value.Some? ==> Decode(e.value.value) == Decoded(p.value.value))
  }

  lemma {:induction false} EncodedPropertyReads(ps: seq<Property>, i: nat)
    requires i < |ps|
    ensures ReadsProperty(EncodedProperties(ps)[i], ps[i])
  {
    if i == 0 {
      DecodeEncode(ps[0].key);
      if ps[0].value.Some? { DecodeEncode(ps[0].value.value); }
    } else {
      EncodedPropertyReads(ps[1..], i - 1);
    }
  }

  lemma EncodedReads(key: Bytes, value: Bytes, ps: seq<Property>)
    ensures Reads(EncodedEntry(key, value, ps), key, value, ps)
  {
    hide ReadsProperty;
    DecodeEncode(key);
    DecodeEncode(value);
    forall i | 0 <= i < |ps| ensures ReadsProperty(EncodedProperties(ps)[i], ps[i]) {
      EncodedPropertyReads(ps, i);
    }
  }

  predicate NonEmptyProperty(p: Property) { p.key != [] && (p.value.Some? ==> p.value.value != []) }

  /** A property with no key and no value leaves no trace in the text. */
  predicate Harmless(p: Property) { NonEmptyProperty(p) || (p.key == [] && p.value.None?) }

  predicate NonEmptyParts(key: Bytes, value: Bytes, ps: seq<Property>) {
    key != [] && value != [] && forall p :: p in ps ==> NonEmptyProperty(p)
  }

  predicate HarmlessParts(key: Bytes, value: Bytes, ps: seq<Property>) {
    key != [] && value != [] && forall p :: p in ps ==> Harmless(p)
  }

  /** The properties that survive the trip through the header. */
  function KeptProperties(ps: seq<Property>): seq<Property> {
    if ps == [] then []
    else (if NonEmptyProperty(ps[0]) then [EncodedProperty(ps[0])] else []) + KeptProperties(ps[1..])
  }

  /** The entry that survives, if any. */
  function KeptEntry(key: Bytes, value: Bytes, ps: seq<Property>): seq<Entry> {
    if key == [] || value == [] then [] else [Entry(Encode(key), Encode(value), KeptProperties(ps))]
  }

  lemma {:induction false} KeptAll(ps: seq<Property>)
    ensures |KeptProperties(ps)| <= |ps|
    ensures KeptProperties(ps) == EncodedProperties(ps) <==> forall p :: p in ps ==> NonEmptyProperty(p)
    ensures |KeptProperties(ps)| == |ps| <==> forall p :: p in ps ==> NonEmptyProperty(p)
  {
    if ps != [] {
      KeptAll(ps[1..]);
      assert ps == [ps[0]] + ps[1..];
    }
  }

  /** An entry arrives exactly as given if and only if none of its parts is empty. */
  lemma KeptExactly(key: Bytes, value: Bytes, ps: seq<Property>)
    ensures KeptEntry(key, value, ps) == [EncodedEntry(key, value, ps)] <==> NonEmptyParts(key, value, ps)
  {
    KeptAll(ps);
  }

  lemma EncodedPlain(s: Bytes)
    ensures ',' !in Encode(s) && ';' !in Encode(s) && '=' !in Encode(s) && !HasSpace(Encode(s))
    ensures Encode(s) == [] <==> s == []
  {
    EncodedBytes(s);
    forall i | 0 <= i < |Encode(s)| ensures !IsSpace(Encode(s)[i]) { assert Encode(s)[i] in Encode(s); }
  }

  lemma EncodedPropertyText(p: Property)
    ensures var t := PropertyText(EncodedProperty(p));
            && ';' !in t && ',' !in t && !HasSpace(t)
            && (NonEmptyProperty(p) ==> t != [] && ParseProperty(t) == Some(EncodedProperty(p)))
            && (!NonEmptyProperty(p) && Harmless(p) ==> t == [])
            && (!Harmless(p) ==> t != [] && ParseProperty(t).None?)
  {
    hide Encode, HasSpace;
    var q := EncodedProperty(p);
    EncodedPlain(p.key);
    if p.value.Some? {
      EncodedPlain(p.value.value);
      FindAfter(q.key, '=', q.value.value);
      NoSpaceEq();
      NoSpaceAppend(q.key, ['=']);
      NoSpaceAppend(q.key + ['='], q.value.value);
    }
    if NonEmptyProperty(p) {
      ParsePropertyText(q);
    }
  }

  lemma {:induction false} EncodedPropertyTexts(ps: seq<Property>)
    ensures var ts := PropertyTexts(EncodedProperties(ps));
            && ParseProperties(ts) == Properties(KeptProperties(ps), forall p :: p in ps ==> Harmless(p))
            && (forall t :: t in ts ==> ';' !in t && ',' !in t && !HasSpace(t))
  {
    hide ParseProperty, PropertyText, EncodedProperty, HasSpace, Harmless, NonEmptyProperty;
    if ps != [] {
      EncodedPropertyText(ps[0]);
      EncodedPropertyTexts(ps[1..]);
      assert ps == [ps[0]] + ps[1..];
      assert PropertyTexts(EncodedProperties(ps))[1..] == PropertyTexts(EncodedProperties(ps[1..]));
      assert NonEmptyProperty(ps[0]) ==> Harmless(ps[0]) by { NonEmptyIsHarmless(ps[0]); }
    }
  }

  lemma NonEmptyIsHarmless(p: Property)
    ensures NonEmptyProperty(p) ==> Harmless(p)
  {
  }

  /** How the parser reads the text that AddEntry writes. */
  lemma ParseEncodedEntry(key: Bytes, value: Bytes, ps: seq<Property>, allowed: set<Bytes>)
    requires key in allowed
    ensures var t := EntryText(EncodedEntry(key, value, ps));
            && t != [] && ',' !in t
            && ParseEntry(t, allowed) == if key == [] || value == [] then Rejected
                                         else Accepted(Entry(Encode(key), Encode(value), KeptProperties(ps)),
                                                       forall p :: p in ps ==> Harmless(p))
  {
    hide Encode, Decode, HasSpace, Join, ParseProperties, PropertyTexts, KeptProperties, EncodedProperties;
    hide Harmless, Split;
    var e := EncodedEntry(key, value, ps);
    var parts := [e.value] + PropertyTexts(e.properties);
    var rest := Join(parts, ';');
    EncodedPlain(key);
    EncodedPlain(value);
    EncodedPropertyTexts(ps);
    SplitJoin(parts, ';');
    FindAfter(e.key, '=', rest);
    JoinBytes(parts, ';', ',');
    NoSpaceJoin(parts, ';');
    NoSpaceEq();
    NoSpaceAppend(e.key, ['=']);
    NoSpaceAppend(e.key + ['='], rest);
    DecodeEncode(key);
    assert parts[1..] == PropertyTexts(e.properties);
  }

  // ---- a second rendering after a first ----------------------------------

  lemma {:induction false} CleanPropertiesCount(pieces: seq<Bytes>)
    requires ParseProperties(pieces).clean
    ensures CountAll(PropertyTexts(ParseProperties(pieces).list), '=') == CountAll(pieces, '=')
  {
    hide ParseProperty, PropertyText, Count;
    if pieces != [] {
      CleanPropertiesCount(pieces[1..]);
      var ps, qs := ParseProperties(pieces), ParseProperties(pieces[1..]);
      if pieces[0] == [] {
        NothingCounted('=');
      } else {
        ParsedPropertyIsGood(pieces[0]);
        assert PropertyTexts(ps.list)[1..] == PropertyTexts(qs.list) by { assert ps.list[1..] == qs.list; }
      }
    }
  }

  lemma NothingCounted(c: Byte)
    ensures Count([], c) == 0
  {
  }

  /** A text accepted cleanly has as many '=' as the entry printed. */
  lemma CleanEntryCount(t: Bytes, allowed: set<Bytes>)
    requires ParseEntry(t, allowed).Accepted? && ParseEntry(t, allowed).clean
    ensures Count(EntryText(ParseEntry(t, allowed).entry), '=') == Count(t, '=')
  {
    hide ParseProperties, PropertyTexts, Count, Split, Decode, HasSpace, Join, CountAll;
    var d := Find(t, '=', 0);
    FindFirst(t, '=', 0);
    var e := ParseEntry(t, allowed).entry;
    var rest := t[d + 1..];
    var pieces := Split(rest, ';');
    CleanPropertiesCount(pieces[1..]);
    JoinSplit(rest, ';');
    CountJoin(pieces, ';', '=');
    var printed := [e.value] + PropertyTexts(e.properties);
    CountJoin(printed, ';', '=');
    CountFirst(pieces, '=');
    CountFirst(printed, '=');
    assert printed[1..] == PropertyTexts(e.properties);
    assert t == e.key + ['='] + rest;
    CountAppend(e.key + ['='], rest, '=');
    CountAppend(e.key + ['='], Join(printed, ';'), '=');
  }

  lemma CountFirst(ps: seq<Bytes>, c: Byte)
    requires ps != []
    ensures CountAll(ps, c) == Count(ps[0], c) + CountAll(ps[1..], c)
  {
  }

  lemma JoinCons(p: Bytes, ps: seq<Bytes>, c: Byte)
    ensures Join([p] + ps, c) == if ps == [] then p else p + [c] + Join(ps, c)
  {
    assert ([p] + ps)[1..] == ps;
  }

  lemma {:induction false} JoinMerged(ps: seq<Bytes>, qs: seq<Bytes>, c: Byte)
    requires ps != [] && qs != []
    ensures Join(ps, c) + Join(qs, c) == Join(ps[..|ps| - 1] + [ps[|ps| - 1] + qs[0]] + qs[1..], c)
  {
    hide Join;
    var rs := ps[..|ps| - 1] + [ps[|ps| - 1] + qs[0]] + qs[1..];
    JoinCons(ps[0], ps[1..], c);
    assert ps == [ps[0]] + ps[1..];
    if |ps| == 1 {
      JoinCons(qs[0], qs[1..], c);
      assert qs == [qs[0]] + qs[1..];
      assert rs == [ps[0] + qs[0]] + qs[1..];
      JoinCons(ps[0] + qs[0], qs[1..], c);
      assert ps[0] + (qs[0] + [c] + Join(qs[1..], c)) == ps[0] + qs[0] + [c] + Join(qs[1..], c);
    } else {
      var tail := ps[1..][..|ps| - 2] + [ps[1..][|ps| - 2] + qs[0]] + qs[1..];
      JoinMerged(ps[1..], qs, c);
      assert rs == [ps[0]] + tail;
      JoinCons(ps[0], tail, c);
      assert ps[0] + [c] + Join(ps[1..], c) + Join(qs, c) == ps[0] + [c] + (Join(ps[1..], c) + Join(qs, c));
    }
  }

  lemma EntryHasEquals(e: Entry)
    ensures Count(EntryText(e), '=') > 0
  {
    hide Join, PropertyTexts;
    var rest := Join([e.value] + PropertyTexts(e.properties), ';');
    CountAppend(e.key + ['='], rest, '=');
    CountAppend(e.key, ['='], '=');
    assert Count(['='], '=') == 1;
  }

  lemma {:induction false} TextsOfPrefix(es: seq<Entry>, m: nat)
    requires m <= |es|
    ensures EntryTexts(es[..m]) == EntryTexts(es)[..m]
  {
    if m > 0 {
      TextsOfPrefix(es[1..], m - 1);
      assert es[..m][1..] == es[1..][..m - 1];
    }
  }

  lemma {:induction false} TextAt(es: seq<Entry>, i: nat)
    requires i < |es|
    ensures EntryTexts(es)[i] == EntryText(es[i])
  {
    if i > 0 { TextAt(es[1..], i - 1); }
  }

  /** A rendering glued in front of a rendering, piece by piece: only the seam is new. */
  lemma GluedPieces(es: seq<Entry>, m: nat, allowed: set<Bytes>)
    requires GoodEntries(es, allowed) && 0 < m <= |es| <= ENTITIES_LIMIT
    ensures Parse(Render(es[..m]) + Render(es), allowed)
            == Combine(es[..m - 1], true,
                       ParseEntries([EntryText(es[m - 1]) + EntryText(es[0])] + EntryTexts(es)[1..], allowed,
                                    ENTITIES_LIMIT - (m - 1)))
  {
    hide ParseEntry, GoodEntry, EntryText, EntryTexts, ParseEntries, Join, Split;
    var ts := EntryTexts(es);
    var rest := [ts[m - 1] + ts[0]] + ts[1..];
    TextsOfPrefix(es, m);
    JoinMerged(ts[..m], ts, ',');
    assert ts[..m][..m - 1] == ts[..m - 1];
    assert ts[..m - 1] + [ts[m - 1] + ts[0]] + ts[1..] == ts[..m - 1] + rest;
    ParseEntryTexts(es, allowed, ENTITIES_LIMIT);
    SplitJoin(ts[..m - 1] + rest, ',');
    TextsOfPrefix(es, m - 1);
    ParseEntryTexts(es[..m - 1], allowed, ENTITIES_LIMIT);
    ParseConcat(ts[..m - 1], rest, allowed, ENTITIES_LIMIT);
    TextAt(es, m - 1);
    TextAt(es, 0);
  }

  /** A rendering glued in front of a rendering is never read back cleanly as the latter. */
  lemma GluedIsNotClean(es: seq<Entry>, m: nat, allowed: set<Bytes>)
    requires GoodEntries(es, allowed) && 0 < m <= |es| <= ENTITIES_LIMIT
    ensures Parse(Render(es[..m]) + Render(es), allowed) != Entries(es, true)
  {
    hide EntryText, EntryTexts, ParseEntries, Parse, Render, GoodEntries;
    GluedPieces(es, m, allowed);
    var room := ENTITIES_LIMIT - (m - 1);
    MergedDiffers(es[m - 1], es[0], EntryTexts(es)[1..], allowed, room);
    var p := ParseEntries([EntryText(es[m - 1]) + EntryText(es[0])] + EntryTexts(es)[1..], allowed, room);
    if p.Entries? && p.clean {
      assert (es[..m - 1] + p.list)[m - 1] == p.list[0];
    }
  }

  lemma MergedDiffers(e: Entry, f: Entry, ts: seq<Bytes>, allowed: set<Bytes>, room: nat)
    requires room > 0
    ensures var p := ParseEntries([EntryText(e) + EntryText(f)] + ts, allowed, room);
            p.Entries? && p.clean ==> p.list != [] && p.list[0] != e
  {
    hide EntryText, ParseEntry;
    var merged := EntryText(e) + EntryText(f);
    CountAppend(EntryText(e), EntryText(f), '=');
    EntryHasEquals(f);
    assert merged != [];
    var front := ParseEntry(merged, allowed);
    if front.Accepted? && front.clean {
      CleanEntryCount(merged, allowed);
    }
  }

  // ---- what glued text reads as ------------------------------------------

  function Take(es: seq<Entry>, n: nat): seq<Entry> { if |es| <= n then es else es[..n] }

  lemma {:induction false} ParseTextsTake(es: seq<Entry>, allowed: set<Bytes>, room: nat)
    requires GoodEntries(es, allowed)
    ensures ParseEntries(EntryTexts(es), allowed, room) == Entries(Take(es, room), true)
    decreases |es|
  {
    hide ParseEntry, GoodEntry, EntryText, HasSpace;
    if es != [] && room > 0 {
      ParseEntryText(es[0], allowed);
      ParseTextsTake(es[1..], allowed, room - 1);
      assert EntryTexts(es)[1..] == EntryTexts(es[1..]);
      assert Take(es, room) == [es[0]] + Take(es[1..], room - 1);
    }
  }

  /** The first piece of a text. */
  lemma FirstPiece(s: Bytes, c: Byte)
    ensures var p := Split(s, c)[0];
            |p| <= |s| && p == s[..|p|] && c !in p && (|p| < |s| ==> s[|p|] == c)
  {
    FindFirst(s, c, 0);
    SplitFrom(s, c, 0);
    assert s[0..] == s;
  }

  /**
    * Two entries printed without a comma between them are refused if and only if the first has no
    * property and the key of the second no semicolon; they never make the parser throw.
    */
  lemma GluedEntry(e: Entry, f: Entry, allowed: set<Bytes>)
    requires GoodEntry(e, allowed) && GoodEntry(f, allowed)
    ensures !ParseEntry(EntryText(e) + EntryText(f), allowed).Throws?
    ensures ParseEntry(EntryText(e) + EntryText(f), allowed).Rejected? <==> e.properties == [] && ';' !in f.key
  {
    hide ParseProperties, Decode, HasSpace, PropertyTexts, Join;
    var t := EntryText(e) + EntryText(f);
    var head := Join([e.value] + PropertyTexts(e.properties), ';');
    var rest := head + EntryText(f);
    assert t == e.key + ['='] + rest;
    FindAfter(e.key, '=', rest);
    ParseEntryText(e, allowed);
    ParseEntryText(f, allowed);
    NoSpaceAppend(EntryText(e), EntryText(f));
    FirstPiece(rest, ';');
    GluedValue(e, f, allowed);
  }

  /** What stands where the value of the first entry is looked for. */
  lemma GluedValue(e: Entry, f: Entry, allowed: set<Bytes>)
    requires GoodEntry(e, allowed) && GoodEntry(f, allowed)
    ensures var rest := Join([e.value] + PropertyTexts(e.properties), ';') + EntryText(f);
            var p := Split(rest, ';')[0];
            p != [] && ('=' in p <==> e.properties == [] && ';' !in f.key)
  {
    hide Decode, HasSpace, GoodProperty, PropertyText;
    var parts := [e.value] + PropertyTexts(e.properties);
    var rest := Join(parts, ';') + EntryText(f);
    var p := Split(rest, ';')[0];
    FirstPiece(rest, ';');
    if e.properties != [] {
      assert rest == e.value + [';'] + (Join(parts[1..], ';') + EntryText(f));
      SplitAppend(e.value, Join(parts[1..], ';') + EntryText(f), ';');
      SplitNone(e.value, ';');
    } else {
      assert parts == [e.value];
      var more := Join([f.value] + PropertyTexts(f.properties), ';');
      assert rest == (e.value + f.key) + (['='] + more);
      GluedPlainValue(e.value, f.key, more, p);
    }
  }

  lemma GluedPlainValue(value: Bytes, key: Bytes, more: Bytes, p: Bytes)
    requires Plain(value) && ';' !in value && Plain(key)
    requires var rest := (value + key) + (['='] + more);
             |p| <= |rest| && p == rest[..|p|] && ';' !in p && (|p| < |rest| ==> rest[|p|] == ';')
    ensures p != [] && ('=' in p <==> ';' !in key)
  {
    var vk := value + key;
    var rest := vk + (['='] + more);
    if |p| <= |vk| {
      assert p == vk[..|p|];
      assert |p| < |rest| && rest[|p|] == ';';
      assert |p| < |vk| && vk[|p|] == ';' && |p| >= |value|;
      assert key[|p| - |value|] == ';';
      assert forall c :: c in p ==> c in value || c in key;
    } else {
      assert p[|vk|] == '=';
      assert forall i :: 0 <= i < |key| ==> key[i] == p[|value| + i];
    }
  }

  /** The list that a rendering glued behind the rendering of its first `m` entries reads as. */
  function GluedList(es: seq<Entry>, m: nat, allowed: set<Bytes>): seq<Entry>
    requires 0 < m <= |es|
  {
    var p := ParseEntry(EntryText(es[m - 1]) + EntryText(es[0]), allowed);
    Take(es[..m - 1] + (if p.Accepted? then [p.entry] else []) + es[1..], ENTITIES_LIMIT)
  }

  /** The seam was read without losing anything. */
  predicate GluedClean(es: seq<Entry>, m: nat, allowed: set<Bytes>)
    requires 0 < m <= |es|
  {
    var p := ParseEntry(EntryText(es[m - 1]) + EntryText(es[0]), allowed);
    p.Accepted? && p.clean
  }

  lemma GluedParse(es: seq<Entry>, m: nat, allowed: set<Bytes>)
    requires GoodEntries(es, allowed) && 0 < m <= |es| <= ENTITIES_LIMIT
    ensures Parse(Render(es[..m]) + Render(es), allowed)
            == Entries(GluedList(es, m, allowed), GluedClean(es, m, allowed))
  {
    hide EntryText, EntryTexts, ParseEntries, ParseEntry, Parse, Render, GoodEntries, Take;
    GluedPieces(es, m, allowed);
    GluedRest(es, m, allowed, ENTITIES_LIMIT - (m - 1));
    var p := ParseEntry(EntryText(es[m - 1]) + EntryText(es[0]), allowed);
    TakeAfter(es[..m - 1], (if p.Accepted? then [p.entry] else []) + es[1..], ENTITIES_LIMIT);
  }

  lemma TakeAfter(es: seq<Entry>, fs: seq<Entry>, n: nat)
    requires |es| <= n
    ensures es + Take(fs, n - |es|) == Take(es + fs, n)
    ensures forall gs, hs :: fs == gs + hs ==> es + gs + hs == es + fs
  {
    forall gs, hs | fs == gs + hs ensures es + gs + hs == es + fs {
      assert es + gs + hs == es + (gs + hs);
    }
  }

  lemma OneMorePiece(t: Bytes, ts: seq<Bytes>, fs: seq<Entry>, allowed: set<Bytes>, room: nat)
    requires t != [] && room > 0 && !ParseEntry(t, allowed).Throws?
    requires ParseEntries(ts, allowed, room) == Entries(Take(fs, room), true)
    requires ParseEntries(ts, allowed, room - 1) == Entries(Take(fs, room - 1), true)
    ensures var p := ParseEntry(t, allowed);
            ParseEntries([t] + ts, allowed, room)
            == Entries(Take((if p.Accepted? then [p.entry] else []) + fs, room), p.Accepted? && p.clean)
  {
    hide ParseEntry;
    var p := ParseEntry(t, allowed);
    assert ([t] + ts)[1..] == ts;
    if p.Accepted? {
      assert Take([p.entry] + fs, room) == [p.entry] + Take(fs, room - 1);
    } else {
      assert [] + fs == fs && [] + Take(fs, room) == Take(fs, room);
    }
  }

  lemma TextsTail(es: seq<Entry>)
    requires es != []
    ensures EntryTexts(es)[1..] == EntryTexts(es[1..])
  {
  }

  lemma GluedRest(es: seq<Entry>, m: nat, allowed: set<Bytes>, room: nat)
    requires GoodEntries(es, allowed) && 0 < m <= |es| && room > 0
    ensures var p := ParseEntry(EntryText(es[m - 1]) + EntryText(es[0]), allowed);
            ParseEntries([EntryText(es[m - 1]) + EntryText(es[0])] + EntryTexts(es)[1..], allowed, room)
            == Entries(Take((if p.Accepted? then [p.entry] else []) + es[1..], room), GluedClean(es, m, allowed))
  {
    hide ParseEntry, GoodEntry, EntryText, EntryTexts, ParseEntries, Take;
    assert es[m - 1] in es && es[0] in es;
    GluedEntry(es[m - 1], es[0], allowed);
    NotEmptyText(es[m - 1]);
    TextsTail(es);
    ParseTextsTake(es[1..], allowed, room);
    ParseTextsTake(es[1..], allowed, room - 1);
    OneMorePiece(EntryText(es[m - 1]) + EntryText(es[0]), EntryTexts(es)[1..], es[1..], allowed, room);
  }

  lemma NotEmptyText(e: Entry)
    ensures EntryText(e) != []
  {
  }

  // ---- an entry glued to itself ------------------------------------------

  lemma {:induction false} PropertiesAppend(ps: seq<Bytes>, qs: seq<Bytes>)
    ensures ParseProperties(ps + qs).list == ParseProperties(ps).list + ParseProperties(qs).list
  {
    hide ParseProperty;
    if ps == [] {
      assert ps + qs == qs;
    } else {
      PropertiesAppend(ps[1..], qs);
      assert (ps + qs)[1..] == ps[1..] + qs;
    }
  }

  lemma {:induction false} PropertyTextsPrefix(ps: seq<Property>, m: nat)
    requires m <= |ps|
    ensures PropertyTexts(ps[..m]) == PropertyTexts(ps)[..m]
    ensures m < |ps| ==> PropertyTexts(ps)[m] == PropertyText(ps[m])
  {
    hide PropertyText;
    if m > 0 {
      PropertyTextsPrefix(ps[1..], m - 1);
      assert ps[..m][1..] == ps[1..][..m - 1];
    }
  }

  /** A key and a value that are read as properties leave nothing exactly if the key is all semicolons. */
  lemma {:induction false} KeyAsProperties(key: Bytes, value: Bytes)
    requires ',' !in key && '=' !in key && !HasSpace(key) && Plain(value) && ';' !in value
    ensures ParseProperties(Split(key + ['='] + value, ';')).list == [] <==> forall c :: c in key ==> c == ';'
  {
    var s := key + ['='] + value;
    if key == [] {
      SplitNone(s, ';');
      FindAfter([], '=', value);
    } else if key[0] == ';' {
      NoSpaceWithin(key, 1, |key|);
      KeyAsProperties(key[1..], value);
      assert s[1..] == key[1..] + ['='] + value;
      assert Split(s, ';') == [[]] + Split(s[1..], ';');
      assert ParseProperties(Split(s, ';')) == ParseProperties(Split(s[1..], ';'));
      assert forall c :: c in key <==> c == ';' || c in key[1..];
    } else {
      assert [] + key == key && key[0] in key;
      FirstOfKey([], key, value);
    }
  }

  /** A good text in front of a key and a value makes the first property, unless both have an equals sign. */
  lemma FirstOfKey(front: Bytes, key: Bytes, value: Bytes)
    requires ',' !in key && '=' !in key && !HasSpace(key) && Plain(value) && ';' !in value
    requires front == [] ==> key != [] && key[0] != ';'
    requires front != [] ==> ParseProperty(front).Some?
    ensures ParseProperties(Split(front + key + ['='] + value, ';')).list == [] <==> '=' in front && ';' !in key
  {
    hide ParseProperty, ParseProperties, HasSpace, Split;
    var s := front + key + ['='] + value;
    FrontIsPlain(front);
    if ';' in key {
      var i := FirstSemicolon(key);
      assert front + key[..i] == s[..|front| + i];
      SplitFirst(s, ';', |front| + i);
      NoSpaceWithin(key, 0, i);
      assert key[0..i] == key[..i];
      LongerProperty(front, key[..i]);
      FirstPropertyRead(Split(s, ';'));
    } else {
      SplitNone(s, ';');
      assert s == (front + key) + ['='] + value;
      NoSpaceAppend(front, key);
      assert !HasSpace(['=']) by { NoSpaceEquals(); }
      NoSpaceAppend(front + key, ['=']);
      NoSpaceAppend(front + key + ['='], value);
      SeamProperty(front, key, value);
      FirstPropertyRead([s]);
    }
  }

  lemma NoSpaceEquals()
    ensures !HasSpace(['='])
  {
  }

  lemma FirstPropertyRead(pieces: seq<Bytes>)
    requires pieces != [] && pieces[0] != []
    ensures ParseProperty(pieces[0]).Some? ==> ParseProperties(pieces).list != []
    ensures ParseProperty(pieces[0]).None? && |pieces| == 1 ==> ParseProperties(pieces).list == []
  {
  }

  lemma FirstSemicolon(key: Bytes) returns (i: nat)
    requires ';' in key
    ensures i < |key| && key[i] == ';' && ';' !in key[..i]
  {
    FindFirst(key, ';', 0);
    FindAny(key, ';');
    i := Find(key, ';', 0);
    assert key[0..i] == key[..i];
  }

  lemma FrontIsPlain(front: Bytes)
    requires front != [] ==> ParseProperty(front).Some?
    ensures ',' !in front && ';' !in front && !HasSpace(front)
  {
  }

  lemma LongerProperty(front: Bytes, more: Bytes)
    requires front != [] ==> ParseProperty(front).Some?
    requires ',' !in more && '=' !in more && ';' !in more && !HasSpace(more) && front + more != []
    ensures ParseProperty(front + more).Some?
  {
    NoSpaceAppend(front, more);
    FindAny(front + more, '=');
    FindAny(front, '=');
    if '=' in front {
      FindFirst(front, '=', 0);
      var d := Find(front, '=', 0);
      assert front[0..d] == front[..d];
      assert front + more == front[..d] + ['='] + (front[d + 1..] + more);
      FindAfter(front[..d], '=', front[d + 1..] + more);
    }
  }

  lemma SeamProperty(front: Bytes, key: Bytes, value: Bytes)
    requires front != [] ==> ParseProperty(front).Some?
    requires ',' !in key && '=' !in key && ';' !in key && !HasSpace(key) && Plain(value) && ';' !in value
    requires front + key != [] && !HasSpace(front + key + ['='] + value)
    ensures ParseProperty(front + key + ['='] + value).None? <==> '=' in front
  {
    var s := front + key + ['='] + value;
    if '=' in front {
      FindAny(front, '=');
      FindFirst(front, '=', 0);
      var d := Find(front, '=', 0);
      assert front[0..d] == front[..d];
      assert s == front[..d] + ['='] + (front[d + 1..] + key + ['='] + value);
      FindAfter(front[..d], '=', front[d + 1..] + key + ['='] + value);
    } else {
      FindAfter(front + key, '=', value);
    }
  }

  /** The text after the first equals sign of an entry glued to itself, cut at semicolons. */
  lemma GluedPiecesOf(e: Entry, allowed: set<Bytes>)
    requires GoodEntry(e, allowed)
    ensures var ts := [e.value] + PropertyTexts(e.properties);
            Split(Join(ts, ';') + EntryText(e), ';')
            == ts[..|ts| - 1] + Split(ts[|ts| - 1] + e.key + ['='] + e.value, ';') + ts[1..]
  {
    hide GoodProperty, PropertyText, PropertyTexts, HasSpace, Decode;
    var ts := [e.value] + PropertyTexts(e.properties);
    var n := |ts| - 1;
    ParsePropertyTexts(e.properties);
    var qs := [e.key + ['='] + e.value] + ts[1..];
    assert qs[1..] == ts[1..];
    assert EntryText(e) == Join(qs, ';');
    JoinMerged(ts, qs, ';');
    assert ts[n] + qs[0] == ts[n] + e.key + ['='] + e.value;
    SplitJoinAround(ts[..n], ts[n] + qs[0], ts[1..], ';');
  }

  /** Written twice without a comma, the entry is read back: the seam is lost as a bad property or as empty ones. */
  predicate SwallowsCopy(e: Entry) {
    || (|e.properties| == 1 && e.properties[0].value.Some? && ';' !in e.key)
    || (e.properties == [] && forall c :: c in e.key ==> c == ';')
  }

  lemma GluedToItself(e: Entry, allowed: set<Bytes>)
    requires GoodEntry(e, allowed)
    ensures var p := ParseEntry(EntryText(e) + EntryText(e), allowed);
            p.Accepted? && p.entry == e <==> SwallowsCopy(e)
  {
    hide Join, HasSpace, PropertyTexts, ParseProperties, Split, Decode, GoodProperty, PropertyText;
    var ts := [e.value] + PropertyTexts(e.properties);
    var rest := Join(ts, ';') + EntryText(e);
    var t := EntryText(e) + EntryText(e);
    assert t == e.key + ['='] + rest;
    FindAfter(e.key, '=', rest);
    ParseEntryText(e, allowed);
    NoSpaceAppend(EntryText(e), EntryText(e));
    var pieces := Split(rest, ';');
    assert ParseEntry(t, allowed) == Assemble(e.key, pieces[0], ParseProperties(pieces[1..]), allowed);
    if e.properties == [] {
      CopyWithoutProperties(e, allowed);
    } else {
      CopyWithProperties(e, allowed);
    }
  }

  lemma CopyWithoutProperties(e: Entry, allowed: set<Bytes>)
    requires GoodEntry(e, allowed) && e.properties == []
    ensures var pieces := Split(Join([e.value] + PropertyTexts(e.properties), ';') + EntryText(e), ';');
            pieces[0] == e.value && ParseProperties(pieces[1..]).list == [] <==> SwallowsCopy(e)
  {
    hide ParseProperties, Decode, HasSpace, Split, Join, EntryText;
    var s := e.value + e.key + ['='] + e.value;
    assert s == [e.value][0] + e.key + ['='] + e.value;
    GluedPiecesOf(e, allowed);
    var pieces := Split(s, ';');
    assert Split(Join([e.value] + PropertyTexts(e.properties), ';') + EntryText(e), ';') == pieces;
    if ';' in e.key {
      var i := FirstSemicolon(e.key);
      SplitFirst(s, ';', |e.value| + i);
      assert s[..|e.value| + i] == e.value + e.key[..i];
      assert s[|e.value| + i + 1..] == e.key[i + 1..] + ['='] + e.value;
      if i == 0 {
        NoSpaceWithin(e.key, 1, |e.key|);
        assert e.key[1..|e.key|] == e.key[1..];
        KeyAsProperties(e.key[1..], e.value);
        assert pieces[0] == e.value && pieces[1..] == Split(e.key[1..] + ['='] + e.value, ';');
        assert forall c :: c in e.key <==> c == ';' || c in e.key[1..];
      } else {
        assert e.key[0] in e.key && e.key[0] == e.key[..i][0] != ';';
        assert |pieces[0]| == |e.value| + i;
      }
    } else {
      SplitNone(s, ';');
      assert e.key[0] in e.key && |pieces[0]| > |e.value|;
    }
  }

  lemma CopyWithProperties(e: Entry, allowed: set<Bytes>)
    requires GoodEntry(e, allowed) && e.properties != []
    ensures var pieces := Split(Join([e.value] + PropertyTexts(e.properties), ';') + EntryText(e), ';');
            pieces[0] == e.value && ParseProperties(pieces[1..]).list == e.properties <==> SwallowsCopy(e)
  {
    hide ParseProperties, Decode, HasSpace, PropertyTexts, ParseProperty, Split, Join, EntryText;
    var n := |e.properties| - 1;
    var last := e.properties[n];
    var ps := PropertyTexts(e.properties);
    var ts := [e.value] + ps;
    GluedPiecesOf(e, allowed);
    PropertyTextsPrefix(e.properties, n);
    var seam := Split(PropertyText(last) + e.key + ['='] + e.value, ';');
    var pieces := Split(Join(ts, ';') + EntryText(e), ';');
    assert ts[..|ts| - 1] == [e.value] + ps[..n] && ts[1..] == ps;
    assert pieces == [e.value] + (ps[..n] + seam + ps);
    PropertiesAppend(ps[..n] + seam, ps);
    PropertiesAppend(ps[..n], seam);
    ParsePropertyTexts(e.properties);
    ParsePropertyTexts(e.properties[..n]);
    ParsePropertyText(last);
    FirstOfKey(PropertyText(last), e.key, e.value);
  }

  /** Short of the limit, glued text reads as the stored list in two cases only. */
  lemma GluedReadsSame(es: seq<Entry>, m: nat, allowed: set<Bytes>)
    requires GoodEntries(es, allowed) && 0 < m <= |es| && |es| + m - 1 <= ENTITIES_LIMIT
    ensures var q := Parse(Render(es[..m]) + Render(es), allowed);
            && q.Entries?
            && (q.list == es <==>
                || (m == 2 && es[1].properties == [] && ';' !in es[0].key)
                || (m == 1 && SwallowsCopy(es[0])))
  {
    hide ParseEntry, GoodEntry, EntryText, Parse, Render, SwallowsCopy;
    GluedParse(es, m, allowed);
    GluedToItself(es[0], allowed);
    assert es[m - 1] in es && es[0] in es;
    GluedEntry(es[m - 1], es[0], allowed);
    var p := ParseEntry(EntryText(es[m - 1]) + EntryText(es[0]), allowed);
    var list := es[..m - 1] + (if p.Accepted? then [p.entry] else []) + es[1..];
    assert GluedList(es, m, allowed) == list;
    if m == 2 && p.Rejected? { assert list == es; }
    if m == 1 && p.Accepted? { assert list[0] == p.entry; assert list[1..] == es[1..]; }
  }
}
