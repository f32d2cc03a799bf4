/** Percent-encoding of byte strings: `http::UrlEncode` and `http::parser::UrlDecode`. */
module UrlCodec {
  import opened Octets

  predicate IsAlnum(c: Byte) { '0' <= c <= '9' || 'A' <= c <= 'Z' || 'a' <= c <= 'z' }

  /** Bytes that stand for themselves. */
  predicate Unreserved(c: Byte) {
    || IsAlnum(c)
    || c == '-' || c == '_' || c == '.' || c == '!' || c == '~' || c == '*' || c == '(' || c == ')' || c == '\''
  }

  function HexDigit(n: nat): Byte
    requires n < 16
  {
    if n > 9 then ('A' as int - 10 + n) as char else ('0' as int + n) as char
  }

  const NOT_HEX := 255

  function HexValue(c: Byte): (n: nat)
    ensures n < 16 || n == NOT_HEX
  {
    if '0' <= c <= '9' then c as int - '0' as int
    else if 'a' <= c <= 'f' then c as int - 'a' as int + 10
    else if 'A' <= c <= 'F' then c as int - 'A' as int + 10
    else NOT_HEX
  }

  function EncodeByte(c: Byte): Bytes {
    if Unreserved(c) then [c] else ['%', HexDigit(c as int / 16), HexDigit(c as int % 16)]
  }

  function Encode(s: Bytes): Bytes {
    if s == [] then [] else EncodeByte(s[0]) + Encode(s[1..])
  }

  datatype Decoded = Decoded(text: Bytes) | BadPercent

  function Prepend(t: Bytes, d: Decoded): Decoded {
    if d.Decoded? then Decoded(t + d.text) else BadPercent
  }

  /** The byte a percent triple at the head of `s` stands for. */
  predicate Triple(s: Bytes) {
    |s| >= 3 && s[0] == '%' && HexValue(s[1]) != NOT_HEX && HexValue(s[2]) != NOT_HEX
  }

  function TripleValue(s: Bytes): Byte
    requires Triple(s)
  {
    (HexValue(s[1]) * 16 + HexValue(s[2])) as char
  }

  function Decode(s: Bytes): Decoded {
    if s == [] then Decoded([])
    else if s[0] == '%' then
      if Triple(s) then Prepend([TripleValue(s)], Decode(s[3..])) else BadPercent
    else Prepend([if s[0] == '+' then ' ' else s[0]], Decode(s[1..]))
  }

  // ---- round trip ---------------------------------------------------------

  lemma HexRoundTrip(n: nat)
    requires n < 16
    ensures HexValue(HexDigit(n)) == n
  {
  }

  /** Decoding undoes one encoded byte, whatever follows it. */
  lemma DecodeOne(c: Byte, rest: Bytes)
    ensures Decode(EncodeByte(c) + rest) == Prepend([c], Decode(rest))
  {
    var s := EncodeByte(c) + rest;
    if Unreserved(c) {
      assert s[1..] == rest;
    } else {
      HexRoundTrip(c as int / 16);
      HexRoundTrip(c as int % 16);
      assert s[3..] == rest;
    }
  }

  lemma {:induction false} DecodeEncode(s: Bytes)
    ensures Decode(Encode(s)) == Decoded(s)
  {
    if s != [] {
      DecodeOne(s[0], Encode(s[1..]));
      DecodeEncode(s[1..]);
      assert [s[0]] + s[1..] == s;
    }
  }

  /** Encoded text holds unreserved bytes and percent signs only, and is empty only for empty text. */
  lemma {:induction false} EncodedBytes(s: Bytes)
    ensures forall c :: c in Encode(s) ==> Unreserved(c) || c == '%'
    ensures |s| <= |Encode(s)| <= 3 * |s|
  {
    if s != [] {
      EncodedBytes(s[1..]);
    }
  }

  // ---- the loops ----------------------------------------------------------

  lemma {:induction false} EncodeAppend(s: Bytes, t: Bytes)
    ensures Encode(s + t) == Encode(s) + Encode(t)
  {
    hide EncodeByte;
    if s == [] {
      assert s + t == t;
    } else {
      EncodeAppend(s[1..], t);
      assert (s + t)[1..] == s[1..] + t;
      assert EncodeByte(s[0]) + (Encode(s[1..]) + Encode(t)) == EncodeByte(s[0]) + Encode(s[1..]) + Encode(t);
    }
  }

  method UrlEncode(input: Bytes) returns (result: Bytes)
    ensures result == Encode(input)
    ensures Decode(result) == Decoded(input)
  {
    result := [];
    for i := 0 to |input|
      invariant result == Encode(input[..i])
    {
      var symbol := input[i];
      EncodeAppend(input[..i], [symbol]);
      assert input[..i + 1] == input[..i] + [symbol];
      assert Encode([symbol]) == EncodeByte(symbol);
      if IsAlnum(symbol) {
        result := result + [symbol];
      } else if symbol in {'-', '_', '.', '!', '~', '*', '(', ')', '\''} {
        result := result + [symbol];
      } else {
        result := result + ['%', HexDigit(symbol as int / 16), HexDigit(symbol as int % 16)];
      }
    }
    assert input[..|input|] == input;
    DecodeEncode(input);
  }

  lemma {:induction false} DecodePlain(s: Bytes)
    requires '%' !in s && '+' !in s
    ensures Decode(s) == Decoded(s)
  {
    if s != [] {
      DecodePlain(s[1..]);
      assert [s[0]] + s[1..] == s;
    }
  }

  lemma PrependTwice(t: Bytes, u: Bytes, d: Decoded)
    ensures Prepend(t, Prepend(u, d)) == Prepend(t + u, d)
  {
    if d.Decoded? { assert t + (u + d.text) == t + u + d.text; }
  }

  /** With its fast path for text that holds nothing to decode. */
  method UrlDecode(url: Bytes) returns (result: Decoded)
    ensures result == Decode(url)
  {
    if '%' !in url && '+' !in url {
      DecodePlain(url);
      return Decoded(url);
    }
    var res: Bytes := [];
    var ptr := 0;
    while ptr < |url|
      invariant 0 <= ptr <= |url|
      invariant Prepend(res, Decode(url[ptr..])) == Decode(url)
    {
      if url[ptr] == '%' {
        if ptr + 2 < |url| && HexValue(url[ptr + 1]) != NOT_HEX && HexValue(url[ptr + 2]) != NOT_HEX {
          PrependTwice(res, [TripleValue(url[ptr..])], Decode(url[ptr + 3..]));
          assert url[ptr..][3..] == url[ptr + 3..];
          res := res + [(HexValue(url[ptr + 1]) * 16 + HexValue(url[ptr + 2])) as char];
          ptr := ptr + 2;
        } else {
          return BadPercent;
        }
      } else {
        var c: Byte := if url[ptr] == '+' then ' ' else url[ptr];
        PrependTwice(res, [c], Decode(url[ptr + 1..]));
        assert url[ptr..][1..] == url[ptr + 1..];
        res := res + [c];
      }
      ptr := ptr + 1;
    }
    return Decoded(res);
  }

  // ---- what encoded text is made of --------------------------------------

  const UPPER := "0123456789ABCDEF"
  const LOWER := "0123456789abcdef"

  /** The pieces of encoded text; each digit of an escape may be written in either case. */
  datatype Piece = Literal(c: Byte) | Plus | Escape(hi: nat, lo: nat, hiUpper: bool, loUpper: bool)

  predicate ValidPiece(p: Piece) {
    && (p.Literal? ==> p.c != '%' && p.c != '+')
    && (p.Escape? ==> p.hi < 16 && p.lo < 16)
  }

  function PieceText(p: Piece): Bytes
    requires ValidPiece(p)
  {
    match p
    case Literal(c) => [c]
    case Plus => ['+']
    case Escape(hi, lo, hiUpper, loUpper) =>
      ['%', (if hiUpper then UPPER else LOWER)[hi], (if loUpper then UPPER else LOWER)[lo]]
  }

  function PieceByte(p: Piece): Byte
    requires ValidPiece(p)
  {
    match p
    case Literal(c) => c
    case Plus => ' '
    case Escape(hi, lo, _, _) => (16 * hi + lo) as char
  }

  ghost predicate ValidPieces(ps: seq<Piece>) { forall p :: p in ps ==> ValidPiece(p) }

  function PiecesText(ps: seq<Piece>): Bytes
    requires ValidPieces(ps)
  {
    if ps == [] then [] else PieceText(ps[0]) + PiecesText(ps[1..])
  }

  function PiecesBytes(ps: seq<Piece>): Bytes
    requires ValidPieces(ps)
  {
    if ps == [] then [] else [PieceByte(ps[0])] + PiecesBytes(ps[1..])
  }

  lemma DigitValue(n: nat)
    requires n < 16
    ensures HexValue(UPPER[n]) == n && HexValue(LOWER[n]) == n && HexDigit(n) == UPPER[n]
  {
  }

  lemma DecodePiece(p: Piece, rest: Bytes)
    requires ValidPiece(p)
    ensures Decode(PieceText(p) + rest) == Prepend([PieceByte(p)], Decode(rest))
  {
    hide HexValue;
    var s := PieceText(p) + rest;
    match p
    case Literal(c) => assert s[1..] == rest;
    case Plus => assert s[1..] == rest;
    case Escape(hi, lo, _, _) =>
      DigitValue(hi);
      DigitValue(lo);
      assert s[3..] == rest;
  }

  /** Text in pieces decodes to the bytes of the pieces. */
  lemma {:induction false} DecodePieces(ps: seq<Piece>)
    requires ValidPieces(ps)
    ensures Decode(PiecesText(ps)) == Decoded(PiecesBytes(ps))
  {
    hide ValidPiece, PieceText, PieceByte;
    if ps != [] {
      assert ps[0] in ps;
      DecodePieces(ps[1..]);
      DecodePiece(ps[0], PiecesText(ps[1..]));
    }
  }

  lemma DigitOf(c: Byte) returns (n: nat, upper: bool)
    requires HexValue(c) != NOT_HEX
    ensures n < 16 && c == (if upper then UPPER else LOWER)[n]
  {
    n, upper := HexValue(c), 'A' <= c <= 'F';
  }

  /** All text that decodes at all is made of such pieces: nothing else is let through. */
  lemma {:induction false} DecodedIsPieces(s: Bytes) returns (ps: seq<Piece>)
    requires Decode(s).Decoded?
    ensures ValidPieces(ps) && PiecesText(ps) == s
    decreases |s|
  {
    if s == [] {
      ps := [];
    } else if s[0] == '%' {
      var rest := DecodedIsPieces(s[3..]);
      var hi, hiUpper := DigitOf(s[1]);
      var lo, loUpper := DigitOf(s[2]);
      ps := [Escape(hi, lo, hiUpper, loUpper)] + rest;
      assert s == s[..3] + s[3..] && s[..3] == PieceText(ps[0]) && ps[1..] == rest;
    } else {
      var rest := DecodedIsPieces(s[1..]);
      ps := [if s[0] == '+' then Plus else Literal(s[0])] + rest;
      assert s == [s[0]] + s[1..] && ps[1..] == rest;
    }
  }

  /** How a single byte is written; text is written byte by byte. */
  lemma EncodedByte(c: Byte)
    ensures Encode([c]) ==
            if || '0' <= c <= '9' || 'A' <= c <= 'Z' || 'a' <= c <= 'z'
               || c in {'-', '_', '.', '!', '~', '*', '(', ')', '\''}
            then [c] else ['%', UPPER[c as int / 16], UPPER[c as int % 16]]
  {
    assert Encode([c]) == EncodeByte(c) + Encode([]);
    DigitValue(c as int / 16);
    DigitValue(c as int % 16);
  }
}
