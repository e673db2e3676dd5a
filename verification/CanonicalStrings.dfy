/** Which cipher strings printing gives back after parsing. */
module CanonicalStrings {
  import opened Wrappers
  import opened GoStrings
  import opened Base64
  import opened CipherStrings
  import opened SealedStrings

  // ---- Base64 ----

  predicate IsDigit64(c: char) {
    Value(c).Some?
  }

  /** Whole quanta of digits, at most the last one padded, the bits that padding leaves
      unused zero (section 3.5 of RFC 4648), and no line breaks. */
  predicate Canonical64(t: string) {
    if t == "" then true
    else if |t| < 4 then false
    else if |t| == 4 && t[3] == '=' then
      && IsDigit64(t[0]) && IsDigit64(t[1])
      && if t[2] == '=' then Value(t[1]).value % 16 == 0 else IsDigit64(t[2]) && Value(t[2]).value % 4 == 0
    else
      IsDigit64(t[0]) && IsDigit64(t[1]) && IsDigit64(t[2]) && IsDigit64(t[3]) && Canonical64(t[4..])
  }

  lemma DigitOfValue(c: char)
    requires IsDigit64(c)
    ensures Digit(Value(c).value) == c
  {
  }

  lemma {:induction false} EncodingIsCanonical(b: seq<byte>)
    ensures Canonical64(Encode(b))
  {
    if |b| >= 3 {
      EncodingIsCanonical(b[3..]);
      assert Encode(b)[4..] == Encode(b[3..]);
    }
  }

  /** The sextets of three octets are the sextets the octets were made of. */
  lemma SextetsOfOctets(a: sextet, b: sextet, c: sextet, d: sextet)
    ensures var o := Octets(a, b, c, d);
            && o[0] / 4 == a && o[0] % 4 * 16 + o[1] / 16 == b
            && o[1] % 16 * 4 + o[2] / 64 == c && o[2] % 64 == d
  {
  }

  lemma {:induction false} CanonicalHasNoBreaks(t: string)
    requires Canonical64(t)
    ensures forall c | c in t :: IsDigit64(c) || c == '='
  {
    if t != "" && !(|t| == 4 && t[3] == '=') {
      CanonicalHasNoBreaks(t[4..]);
      assert t == t[..4] + t[4..];
    }
  }

  lemma OneOctetBack(t: string)
    requires |t| == 4 && Canonical64(t) && t[3] == '=' && t[2] == '='
    ensures DecodeQuanta(t).Some? && Encode(DecodeQuanta(t).value) == t
  {
    var a, b := Value(t[0]).value, Value(t[1]).value;
    SextetsOfOctets(a, b, 0, 0);
    DigitOfValue(t[0]);
    DigitOfValue(t[1]);
    assert t == [t[0], t[1], t[2], t[3]];
  }

  lemma PaddedQuantumBack(a: sextet, b: sextet, c: sextet)
    requires c % 4 == 0
    ensures var t := [Digit(a), Digit(b), Digit(c), '='];
            DecodeQuanta(t) == Some(Octets(a, b, c, 0)[..2]) && Encode(Octets(a, b, c, 0)[..2]) == t
  {
    PaddedQuantum(a, b, c);
    SextetsOfOctets(a, b, c, 0);
  }

  lemma TwoOctetsBack(t: string)
    requires |t| == 4 && Canonical64(t) && t[3] == '=' && t[2] != '='
    ensures DecodeQuanta(t).Some? && Encode(DecodeQuanta(t).value) == t
  {
    var a, b, c := Value(t[0]).value, Value(t[1]).value, Value(t[2]).value;
    PaddedQuantumBack(a, b, c);
    DigitOfValue(t[0]);
    DigitOfValue(t[1]);
    DigitOfValue(t[2]);
    assert t == [Digit(a), Digit(b), Digit(c), '='];
  }

  lemma EncodeQuantum(o: seq<byte>, tail: seq<byte>)
    requires |o| == 3
    ensures Encode(o + tail)
         == [Digit(o[0] / 4), Digit(o[0] % 4 * 16 + o[1] / 16), Digit(o[1] % 16 * 4 + o[2] / 64), Digit(o[2] % 64)]
            + Encode(tail)
  {
    var b := o + tail;
    assert b[0] == o[0] && b[1] == o[1] && b[2] == o[2] && b[3..] == tail;
  }

  lemma QuantumBack(a: sextet, b: sextet, c: sextet, d: sextet, rest: string, tail: seq<byte>)
    requires DecodeQuanta(rest) == Some(tail) && Encode(tail) == rest
    ensures var t := [Digit(a), Digit(b), Digit(c), Digit(d)] + rest;
            DecodeQuanta(t).Some? && Encode(DecodeQuanta(t).value) == t
  {
    FullQuantum(a, b, c, d, rest, tail);
    EncodeQuantum(Octets(a, b, c, d), tail);
    SextetsOfOctets(a, b, c, d);
  }

  lemma ThreeOctetsBack(t: string, tail: seq<byte>)
    requires |t| >= 4 && forall i | 0 <= i < 4 :: IsDigit64(t[i])
    requires DecodeQuanta(t[4..]) == Some(tail) && Encode(tail) == t[4..]
    ensures DecodeQuanta(t).Some? && Encode(DecodeQuanta(t).value) == t
  {
    var a, b, c, d := Value(t[0]).value, Value(t[1]).value, Value(t[2]).value, Value(t[3]).value;
    QuantumBack(a, b, c, d, t[4..], tail);
    assert Digit(a) == t[0] && Digit(b) == t[1] && Digit(c) == t[2] && Digit(d) == t[3] by {
      DigitOfValue(t[0]);
      DigitOfValue(t[1]);
      DigitOfValue(t[2]);
      DigitOfValue(t[3]);
    }
    assert t == [t[0], t[1], t[2], t[3]] + t[4..];
  }

  lemma {:induction false} CanonicalDecodes(t: string)
    requires Canonical64(t)
    ensures DecodeQuanta(t).Some? && Encode(DecodeQuanta(t).value) == t
  {
    if t == "" {
    } else if |t| == 4 && t[3] == '=' {
      if t[2] == '=' {
        OneOctetBack(t);
      } else {
        TwoOctetsBack(t);
      }
    } else {
      CanonicalDecodes(t[4..]);
      ThreeOctetsBack(t, DecodeQuanta(t[4..]).value);
    }
  }

  lemma CanonicalIsWhole(t: string)
    requires Canonical64(t)
    ensures Decode(t) == DecodeQuanta(t)
  {
    CanonicalHasNoBreaks(t);
    SkipNothing(t);
  }

  /** Encoding gives back exactly the canonical encodings it decodes. */
  lemma EncodeDecodeIff(t: string)
    requires Decode(t).Some?
    ensures Encode(Decode(t).value) == t <==> Canonical64(t)
  {
    EncodingIsCanonical(Decode(t).value);
    if Canonical64(t) {
      CanonicalIsWhole(t);
      CanonicalDecodes(t);
    }
  }

  /** Whole quanta of digits, at most the last one padded. */
  predicate Quanta(t: string) {
    if t == "" then true
    else if |t| < 4 then false
    else if |t| == 4 && t[3] == '=' then IsDigit64(t[0]) && IsDigit64(t[1]) && (t[2] == '=' || IsDigit64(t[2]))
    else IsDigit64(t[0]) && IsDigit64(t[1]) && IsDigit64(t[2]) && IsDigit64(t[3]) && Quanta(t[4..])
  }

  lemma {:induction false} QuantaDecodeIff(t: string)
    ensures DecodeQuanta(t).Some? <==> Quanta(t)
  {
    if |t| > 4 || (|t| == 4 && t[3] != '=') {
      QuantaDecodeIff(t[4..]);
    }
  }

  /** Exactly the strings decode that are made of whole quanta once line breaks are gone. */
  lemma DecodesIff(s: string)
    ensures Decode(s).Some? <==> Quanta(SkipLineBreaks(s))
  {
    QuantaDecodeIff(SkipLineBreaks(s));
  }

  // ---- Cipher strings ----

  predicate CanonicalBody(tag: char, body: string) {
    if tag == '0' || tag == '2' then forall t | t in Split(body, '|') :: Canonical64(t) else Canonical64(body)
  }

  /** One digit, a dot, and canonical encodings: three or two of them for the symmetric
      types, one for the RSA types. */
  predicate Canonical(s: string) {
    |s| >= 2 && IsDigit(s[0]) && s[1] == '.' && CanonicalBody(s[0], s[2..])
  }

  lemma ParsedIsWellFormed(s: string)
    requires Parse(s).Ok?
    ensures WellFormed(Parse(s).value)
  {
  }

  lemma TagIsZeroOrTwo(cs: CipherString)
    requires WellFormed(cs)
    ensures Tag(cs.encType) == '0' <==> cs.encType == AES_CBC_256
    ensures Tag(cs.encType) == '2' <==> cs.encType == AES_CBC_256_HMAC_SHA_256
  {
  }

  lemma PrintedIsCanonical(cs: CipherString)
    requires WellFormed(cs)
    ensures Canonical(Print(cs))
  {
    var s, pieces := Print(cs), Pieces(cs);
    assert s[2..] == Join(pieces, '|');
    EncodedIsAtomic(cs.iv);
    EncodedIsAtomic(cs.ct);
    EncodedIsAtomic(cs.mac);
    SplitJoin(pieces, '|');
    AtomsStayWhole(pieces);
    EncodingIsCanonical(cs.iv);
    EncodingIsCanonical(cs.ct);
    EncodingIsCanonical(cs.mac);
    TagIsZeroOrTwo(cs);
  }

  /** The pieces of a symmetric type, encoded again. */
  lemma TwoPiecesBack(pieces: seq<string>)
    requires ParsePieces(AES_CBC_256, pieces).Ok? && forall t | t in pieces :: Canonical64(t)
    ensures var cs := ParsePieces(AES_CBC_256, pieces).value; WellFormed(cs) && Pieces(cs) == pieces
  {
    EncodeDecodeIff(pieces[0]);
    EncodeDecodeIff(pieces[1]);
  }

  lemma ThreePiecesBack(pieces: seq<string>)
    requires ParsePieces(AES_CBC_256_HMAC_SHA_256, pieces).Ok? && forall t | t in pieces :: Canonical64(t)
    ensures var cs := ParsePieces(AES_CBC_256_HMAC_SHA_256, pieces).value; WellFormed(cs) && Pieces(cs) == pieces
  {
    EncodeDecodeIff(pieces[0]);
    EncodeDecodeIff(pieces[1]);
    EncodeDecodeIff(pieces[2]);
  }

  /** The ciphertext of an RSA type, encoded again. */
  lemma BodyBack(encType: int, body: string)
    requires encType != AES_CBC_256 && encType != AES_CBC_256_HMAC_SHA_256
    requires ParsePieces(encType, Split(body, '|')).Ok? && Canonical64(body)
    ensures var cs := ParsePieces(encType, Split(body, '|')).value; WellFormed(cs) && Pieces(cs) == [body]
  {
    JoinSplit(body, '|');
    EncodeDecodeIff(body);
  }

  lemma PartsBack(tag: char, body: string)
    requires IsDigit(tag) && ParsePieces(DigitValue(tag), Split(body, '|')).Ok? && CanonicalBody(tag, body)
    ensures var cs := ParsePieces(DigitValue(tag), Split(body, '|')).value;
            WellFormed(cs) && cs.encType == DigitValue(tag) && Join(Pieces(cs), '|') == body
  {
    JoinSplit(body, '|');
    if tag == '0' {
      TwoPiecesBack(Split(body, '|'));
    } else if tag == '2' {
      ThreePiecesBack(Split(body, '|'));
    } else {
      BodyBack(DigitValue(tag), body);
    }
  }

  /** The printed form of what a canonical string parses to. */
  lemma CanonicalIsPrinted(s: string)
    requires Parse(s).Ok? && Canonical(s)
    ensures WellFormed(Parse(s).value) && Print(Parse(s).value) == s
  {
    var tag, body := s[0], s[2..];
    assert s == [tag] + "." + body;
    ParseTagged(tag, body);
    PartsBack(tag, body);
  }

  /** Printing gives back exactly the canonical strings. */
  lemma PrintParseIff(s: string)
    requires Parse(s).Ok?
    ensures WellFormed(Parse(s).value)
    ensures Print(Parse(s).value) == s <==> Canonical(s)
  {
    ParsedIsWellFormed(s);
    PrintedIsCanonical(Parse(s).value);
    if Canonical(s) {
      CanonicalIsPrinted(s);
    }
  }

  lemma ParseRsa(body: string)
    requires '|' !in body && Decode(body).Some?
    ensures Parse("3." + body) == Ok(CipherString(RSA_2048_OAEP_SHA_256, [], Decode(body).value, []))
  {
    ParseTagged('3', body);
    SplitAtom(body, '|');
    assert Join([body], '|') == body;
    assert "3." + body == ['3'] + "." + body;
  }

  lemma ParseOneOctet(c: char, v: sextet)
    requires (c == 'Q' && v == 16) || (c == 'R' && v == 17)
    ensures Parse("3." + ['A', c, '=', '=']) == Ok(CipherString(RSA_2048_OAEP_SHA_256, [], [1], []))
  {
    assert Digit(0) == 'A' && Digit(v) == c;
    PaddedQuantum(0, v, 0);
    assert Octets(0, v, 0, 0)[..1] == [1];
    SkipNothing(['A', c, '=', '=']);
    ParseRsa(['A', c, '=', '=']);
  }

  /** Beside signs and zeros in the type, the parser ignores line breaks */
  lemma ParseIgnoresBreaks()
    ensures Parse("3.\n") == Parse("3.") == Ok(CipherString(RSA_2048_OAEP_SHA_256, [], [], []))
  {
    assert "\n"[1..] == "" && Decode("\n") == Some([]);
    ParseRsa("\n");
    ParseRsa("");
    assert "3." + "\n" == "3.\n" && "3." + "" == "3.";
  }

  /** and the bits that padding leaves unused. */
  lemma ParseIgnoresSpareBits()
    ensures Parse("3.AR==") == Parse("3.AQ==") == Ok(CipherString(RSA_2048_OAEP_SHA_256, [], [1], []))
  {
    assert "3.AQ==" == "3." + ['A', 'Q', '=', '='] && "3.AR==" == "3." + ['A', 'R', '=', '='];
    ParseOneOctet('Q', 16);
    ParseOneOctet('R', 17);
  }
}
