/** Printing and sealing, the inverses of parsing and decrypting, and what a
    successful decryption proves about the string it came from. */
module SealedStrings {
  import opened Wrappers
  import opened GoStrings
  import opened Base64
  import opened CipherStrings

  ghost predicate WellFormed(cs: CipherString) {
    || cs.encType == AES_CBC_256_HMAC_SHA_256
    || (cs.encType == AES_CBC_256 && cs.mac == [])
    || (cs.encType in {RSA_2048_OAEP_SHA_256, RSA_2048_OAEP_SHA_1} && cs.iv == [] && cs.mac == [])
  }

  function Tag(encType: int): (tag: char)
    requires encType in {AES_CBC_256, AES_CBC_256_HMAC_SHA_256, RSA_2048_OAEP_SHA_256, RSA_2048_OAEP_SHA_1}
    ensures IsDigit(tag) && DigitValue(tag) == encType
  {
    '0' + encType as char
  }

  ghost function Pieces(cs: CipherString): (pieces: seq<string>)
    ensures pieces != []
  {
    if cs.encType == AES_CBC_256_HMAC_SHA_256 then [Encode(cs.iv), Encode(cs.ct), Encode(cs.mac)]
    else if cs.encType == AES_CBC_256 then [Encode(cs.iv), Encode(cs.ct)]
    else [Encode(cs.ct)]
  }

  /** The type, a dot, and the base64 pieces between bars. */
  ghost function Print(cs: CipherString): string
    requires WellFormed(cs)
  {
    [Tag(cs.encType)] + "." + Join(Pieces(cs), '|')
  }

  lemma ParseTagged(tag: char, body: string)
    requires IsDigit(tag)
    ensures Parse([tag] + "." + body) == ParsePieces(DigitValue(tag), Split(body, '|'))
  {
    var s := [tag] + "." + body;
    assert s[0] == tag && s[1] == '.';
    var dot := IndexByte(s, '.').value;
    assert dot == 1;
    assert s[..1] == [tag] && s[2..] == body;
    assert [tag][..0] == "" && Decimal("") == 0;
    assert Atoi([tag]) == Some(DigitValue(tag));
  }

  lemma EncodedIsAtomic(b: seq<byte>)
    ensures Split(Encode(b), '|') == [Encode(b)]
  {
    NoLineBreaks(b);
    SplitAtom(Encode(b), '|');
  }

  lemma {:induction false} AtomsStayWhole(parts: seq<string>)
    requires forall s | s in parts :: Split(s, '|') == [s]
    ensures SplitAll(parts, '|') == parts
  {
    if parts != [] {
      AtomsStayWhole(parts[1..]);
      assert parts == [parts[0]] + parts[1..];
    }
  }

  lemma ParseJoined(tag: char, parts: seq<string>)
    requires IsDigit(tag) && parts != []
    requires forall s | s in parts :: Split(s, '|') == [s]
    ensures Parse([tag] + "." + Join(parts, '|')) == ParsePieces(DigitValue(tag), parts)
  {
    SplitJoin(parts, '|');
    AtomsStayWhole(parts);
    ParseTagged(tag, Join(parts, '|'));
  }

  lemma ParsePiecesPrinted(cs: CipherString)
    requires WellFormed(cs)
    ensures ParsePieces(cs.encType, Pieces(cs)) == Ok(cs)
  {
    DecodeEncode(cs.iv);
    DecodeEncode(cs.ct);
    DecodeEncode(cs.mac);
    assert Join([Encode(cs.ct)], '|') == Encode(cs.ct);
  }

  /** Parsing inverts printing for every supported type. */
  lemma ParsePrint(cs: CipherString)
    requires WellFormed(cs)
    ensures Parse(Print(cs)) == Ok(cs)
  {
    var pieces := Pieces(cs);
    assert forall s | s in pieces :: Split(s, '|') == [s] by {
      EncodedIsAtomic(cs.iv);
      EncodedIsAtomic(cs.ct);
      EncodedIsAtomic(cs.mac);
    }
    ParseJoined(Tag(cs.encType), pieces);
    ParsePiecesPrinted(cs);
  }

  lemma JoinTwo(a: string, b: string)
    ensures Join([a, b], '|') == a + "|" + b
  {
    assert [a, b][1..] == [b];
  }

  lemma JoinThree(a: string, b: string, c: string)
    ensures Join([a, b, c], '|') == a + "|" + b + "|" + c
  {
    assert [a, b, c][1..] == [b, c];
    JoinTwo(b, c);
    assert a + "|" + (b + "|" + c) == a + "|" + b + "|" + c;
  }

  lemma PrintedParses(cs: CipherString, s: string)
    requires WellFormed(cs) && s == Print(cs)
    ensures Parse(s) == Ok(cs)
  {
    ParsePrint(cs);
  }

  lemma Type0Printed(iv: seq<byte>, ct: seq<byte>)
    ensures Print(CipherString(0, iv, ct, [])) == "0." + Encode(iv) + "|" + Encode(ct)
  {
    var a, b := Encode(iv), Encode(ct);
    JoinTwo(a, b);
    assert ['0'] + "." + (a + "|" + b) == "0." + a + "|" + b;
  }

  lemma Regrouped(a: string, b: string, c: string)
    ensures "2." + (a + "|" + b + "|" + c) == "2." + a + "|" + b + "|" + c
  {
    var front := a + "|" + b;
    assert "2." + (front + "|" + c) == "2." + front + "|" + c;
    assert "2." + front == "2." + a + "|" + b;
  }

  lemma Type2Printed(iv: seq<byte>, ct: seq<byte>, mac: seq<byte>)
    ensures Print(CipherString(2, iv, ct, mac)) == "2." + Encode(iv) + "|" + Encode(ct) + "|" + Encode(mac)
  {
    var cs := CipherString(2, iv, ct, mac);
    JoinThree(Encode(iv), Encode(ct), Encode(mac));
    Regrouped(Encode(iv), Encode(ct), Encode(mac));
    assert [Tag(2)] + "." == "2.";
    assert Pieces(cs) == [Encode(iv), Encode(ct), Encode(mac)];
  }

  lemma RsaPrinted(encType: int, ct: seq<byte>)
    requires encType == 3 || encType == 4
    ensures Print(CipherString(encType, [], ct, [])) == (if encType == 3 then "3." else "4.") + Encode(ct)
  {
    var a := Encode(ct);
    assert Join([a], '|') == a;
    assert ['3'] + "." + a == "3." + a && ['4'] + "." + a == "4." + a;
  }

  /** The formats, written out: the type, a dot, and base64 pieces between bars. */
  lemma WrittenFormats(iv: seq<byte>, ct: seq<byte>, mac: seq<byte>)
    ensures Parse("0." + Encode(iv) + "|" + Encode(ct)) == Ok(CipherString(0, iv, ct, []))
    ensures Parse("2." + Encode(iv) + "|" + Encode(ct) + "|" + Encode(mac)) == Ok(CipherString(2, iv, ct, mac))
    ensures Parse("3." + Encode(ct)) == Ok(CipherString(3, [], ct, []))
    ensures Parse("4." + Encode(ct)) == Ok(CipherString(4, [], ct, []))
  {
    Type0Printed(iv, ct);
    PrintedParses(CipherString(0, iv, ct, []), "0." + Encode(iv) + "|" + Encode(ct));
    Type2Printed(iv, ct, mac);
    PrintedParses(CipherString(2, iv, ct, mac), "2." + Encode(iv) + "|" + Encode(ct) + "|" + Encode(mac));
    RsaPrinted(3, ct);
    PrintedParses(CipherString(3, [], ct, []), "3." + Encode(ct));
    RsaPrinted(4, ct);
    PrintedParses(CipherString(4, [], ct, []), "4." + Encode(ct));
  }

  /** After the dot of an RSA string everything is base64, bars included, which are none of
      its digits; and no other one-digit type is supported. */
  lemma OneDigitTypes(tag: char, body: string)
    requires IsDigit(tag) && tag != '0' && tag != '2'
    ensures Parse([tag] + "." + body)
         == if tag == '3' || tag == '4' then
              match Decode(body)
              case Some(ct) => Ok(CipherString(if tag == '3' then 3 else 4, [], ct, []))
              case None => Err(InvalidBase64)
            else Err(UnsupportedType)
  {
    ParseTagged(tag, body);
    JoinSplit(body, '|');
  }

  /** The converse fails: a sign and leading zeros in the type are accepted. */
  lemma ParseIsNotInjective()
    ensures Parse("3.") == Ok(CipherString(3, [], [], []))
    ensures Parse("+03.") == Parse("3.")
  {
    ParseTagged('3', "");
    assert Decode("") == Some([]);
    var s := "+03.";
    assert IndexByte(s, '.').value == 3;
    assert s[..3] == "+03" && s[4..] == "";
    assert "+03"[1..] == "03";
    assert "03"[..1] == "0" && "0"[..0] == "";
    assert Decimal("0") == Decimal("") * 10 + 0;
    assert Decimal("03") == Decimal("0") * 10 + 3;
  }

  /** An authenticated (type 2) or legacy (type 0, for a key without a MAC half) string. */
  ghost function Sealed(p: Primitives, key: SymmetricKey, iv: seq<byte>, plain: seq<byte>): (cs: CipherString)
    ensures WellFormed(cs)
  {
    var ct := CbcEncrypted(p, key.encKey, iv, Pad(plain, BLOCK));
    if key.macKey != [] then CipherString(AES_CBC_256_HMAC_SHA_256, iv, ct, p.hmac(key.macKey, iv + ct))
    else CipherString(AES_CBC_256, iv, ct, [])
  }

  lemma DecryptedSealed(p: Primitives, key: SymmetricKey, iv: seq<byte>, plain: seq<byte>)
    requires p.Lawful() && |iv| == BLOCK && |key.encKey| in {16, 24, 32}
    ensures Decrypted(p, Sealed(p, key, iv, plain), key) == Ok(plain)
  {
    CbcInverse(p, key.encKey, iv, Pad(plain, BLOCK));
    UnpadIffPad(Pad(plain, BLOCK), plain, BLOCK);
  }

  /** For every plaintext, IV and key: parsing and decrypting the printed string gives
      the plaintext back. */
  lemma DecryptStrRoundTrip(p: Primitives, key: SymmetricKey, iv: seq<byte>, plain: seq<byte>)
    requires p.Lawful() && |iv| == BLOCK && |key.encKey| in {16, 24, 32}
    ensures DecryptStr(p, Print(Sealed(p, key, iv, plain)), key) == Ok(Text(plain))
  {
    ParsePrint(Sealed(p, key, iv, plain));
    DecryptedSealed(p, key, iv, plain);
  }

  /** s is a type 2 string whose MAC is the HMAC of its IV and ciphertext under key. */
  ghost predicate MacChecked(p: Primitives, s: string, key: SymmetricKey) {
    && Parse(s).Ok?
    && var cs := Parse(s).value;
       && cs.encType == AES_CBC_256_HMAC_SHA_256
       && cs.mac == p.hmac(key.macKey, cs.iv + cs.ct)
  }

  /** What the parser accepts and a key with a MAC half decrypts was authenticated. */
  lemma DecryptionAuthenticates(p: Primitives, s: string, key: SymmetricKey)
    requires s != "" && key.macKey != []
    requires DecryptStr(p, s, key).Ok?
    ensures MacChecked(p, s, key)
  {
  }

  /** Exactly which strings decrypt under a full key, and to what. */
  lemma DecryptsIff(p: Primitives, s: string, key: SymmetricKey, plain: seq<byte>)
    requires p.Lawful() && s != "" && key.Full()
    ensures (Parse(s).Ok? && Decrypted(p, Parse(s).value, key) == Ok(plain))
       <==> && MacChecked(p, s, key)
            && |Parse(s).value.iv| == BLOCK
            && |Parse(s).value.ct| % BLOCK == 0
            && CbcDecrypted(p, key.encKey, Parse(s).value.iv, Parse(s).value.ct) == Pad(plain, BLOCK)
  {
    if Parse(s).Ok? && |Parse(s).value.ct| % BLOCK == 0 {
      var cs := Parse(s).value;
      UnpadIffPad(CbcDecrypted(p, key.encKey, cs.iv, cs.ct), plain, BLOCK);
    }
  }
}

/** Unwrapping of the user key, the RSA private key and organization keys. */
module VaultKeys {
  import opened Wrappers
  import opened Base64
  import opened CipherStrings
  import opened SealedStrings

  function StretchKey(p: Primitives, masterKey: seq<byte>): SymmetricKey
  {
    SymmetricKey(p.hkdf(masterKey, "enc"), p.hkdf(masterKey, "mac"))
  }

  /** The fallback key: the master key itself, without a MAC half. */
  function LegacyKey(masterKey: seq<byte>): SymmetricKey
  {
    SymmetricKey(masterKey, [])
  }

  function SplitKey(b: seq<byte>): Result<SymmetricKey, CryptoError>
  {
    if |b| != 64 then Err(UnexpectedKeyLength) else Ok(SymmetricKey(b[..32], b[32..]))
  }

  function DecryptSymmetricKey(p: Primitives, encryptedKey: string, masterKey: seq<byte>): Result<SymmetricKey, CryptoError>
  {
    match Parse(encryptedKey)
    case Err(e) => Err(e)
    case Ok(cs) =>
      match Decrypted(p, cs, StretchKey(p, masterKey))
      case Ok(b) => SplitKey(b)
      case Err(_) =>
        match Decrypted(p, cs, LegacyKey(masterKey))
        case Ok(b) => SplitKey(b)
        case Err(e) => Err(e)
  }

  function DecryptRSA(p: Primitives, cs: CipherString, privateKey: PrivateKey): Result<seq<byte>, CryptoError>
  {
    if cs.encType != RSA_2048_OAEP_SHA_256 && cs.encType != RSA_2048_OAEP_SHA_1 then Err(NotRsa)
    else
      match p.oaep(cs.encType, privateKey, cs.ct)
      case None => Err(RsaFailure)
      case Some(b) => Ok(b)
  }

  function DecryptPrivateKey(p: Primitives, encrypted: string, key: SymmetricKey): Result<PrivateKey, CryptoError>
  {
    match Parse(encrypted)
    case Err(e) => Err(e)
    case Ok(cs) =>
      match Decrypted(p, cs, key)
      case Err(e) => Err(e)
      case Ok(der) =>
        match p.parsePkcs8(der)
        case None => Err(InvalidPrivateKey)
        case Some(k) => Ok(k)
  }

  function DecryptOrgKey(p: Primitives, encrypted: string, privateKey: PrivateKey): Result<SymmetricKey, CryptoError>
  {
    match Parse(encrypted)
    case Err(e) => Err(e)
    case Ok(cs) =>
      match DecryptRSA(p, cs, privateKey)
      case Err(e) => Err(e)
      case Ok(b) => SplitKey(b)
  }

  /** A wrapped user key opens exactly when it is a type 2 string that the stretched key
      decrypts or a type 0 string that the bare master key decrypts, to 64 bytes. */
  lemma SymmetricKeyPaths(p: Primitives, encryptedKey: string, masterKey: seq<byte>, key: SymmetricKey)
    requires p.Lawful()
    ensures DecryptSymmetricKey(p, encryptedKey, masterKey) == Ok(key)
       <==> && key.Full()
            && Parse(encryptedKey).Ok?
            && var cs := Parse(encryptedKey).value;
               || (cs.encType == 2
                   && Decrypted(p, cs, SymmetricKey(p.hkdf(masterKey, "enc"), p.hkdf(masterKey, "mac")))
                      == Ok(key.encKey + key.macKey))
               || (cs.encType == 0 && Decrypted(p, cs, SymmetricKey(masterKey, [])) == Ok(key.encKey + key.macKey))
  {
    forall b: seq<byte>
      ensures SplitKey(b) == Ok(key) <==> key.Full() && b == key.encKey + key.macKey
    {
      if |b| == 64 {
        assert b == b[..32] + b[32..];
      }
      var joined := key.encKey + key.macKey;
      if key.Full() {
        assert joined[..32] == key.encKey && joined[32..] == key.macKey;
      }
    }
  }

  /** A type 2 user key was authenticated under the stretched key before it was used. */
  lemma StretchedPathAuthenticates(p: Primitives, encryptedKey: string, masterKey: seq<byte>)
    requires p.Lawful() && DecryptSymmetricKey(p, encryptedKey, masterKey).Ok?
    ensures DecryptSymmetricKey(p, encryptedKey, masterKey).value.Full()
    ensures var stretched := SymmetricKey(p.hkdf(masterKey, "enc"), p.hkdf(masterKey, "mac"));
            Parse(encryptedKey).value.encType == 0 || MacChecked(p, encryptedKey, stretched)
  {
    SymmetricKeyPaths(p, encryptedKey, masterKey, DecryptSymmetricKey(p, encryptedKey, masterKey).value);
  }

  /** A wrapped organization key opens exactly when it is an RSA string that the private
      key opens to the two halves. */
  lemma OrgKeyIff(p: Primitives, encrypted: string, privateKey: PrivateKey, key: SymmetricKey)
    ensures DecryptOrgKey(p, encrypted, privateKey) == Ok(key)
       <==> && key.Full()
            && Parse(encrypted).Ok?
            && var cs := Parse(encrypted).value;
               (cs.encType == 3 || cs.encType == 4) && p.oaep(cs.encType, privateKey, cs.ct) == Some(key.encKey + key.macKey)
  {
    var joined := key.encKey + key.macKey;
    if key.Full() {
      assert joined[..32] == key.encKey && joined[32..] == key.macKey;
    }
    if DecryptOrgKey(p, encrypted, privateKey) == Ok(key) {
      var cs := Parse(encrypted).value;
      var b := p.oaep(cs.encType, privateKey, cs.ct).value;
      assert b == b[..32] + b[32..];
    }
  }

  /** The RSA private key of an account is what its decrypted string holds. */
  lemma PrivateKeyIff(p: Primitives, encrypted: string, key: SymmetricKey, privateKey: PrivateKey)
    ensures DecryptPrivateKey(p, encrypted, key) == Ok(privateKey)
       <==> && Parse(encrypted).Ok?
            && Decrypted(p, Parse(encrypted).value, key).Ok?
            && p.parsePkcs8(Decrypted(p, Parse(encrypted).value, key).value) == Some(privateKey)
  {
  }

  lemma OrgKeyIsFull(p: Primitives, encrypted: string, privateKey: PrivateKey)
    requires DecryptOrgKey(p, encrypted, privateKey).Ok?
    ensures DecryptOrgKey(p, encrypted, privateKey).value.Full()
    ensures Parse(encrypted).value.encType in {RSA_2048_OAEP_SHA_256, RSA_2048_OAEP_SHA_1}
  {
  }

  /** Wrapping a full key under the stretched key, or under a legacy master key, and
      unwrapping it gives the key back. */
  lemma UnwrapWrapped(p: Primitives, masterKey: seq<byte>, iv: seq<byte>, key: SymmetricKey, legacy: bool)
    requires p.Lawful() && key.Full() && |iv| == BLOCK
    requires legacy ==> |masterKey| in {16, 24, 32}
    ensures var wrapping := if legacy then SymmetricKey(masterKey, [])
                            else SymmetricKey(p.hkdf(masterKey, "enc"), p.hkdf(masterKey, "mac"));
            DecryptSymmetricKey(p, Print(Sealed(p, wrapping, iv, key.encKey + key.macKey)), masterKey) == Ok(key)
  {
    var wrapping := if legacy then LegacyKey(masterKey) else StretchKey(p, masterKey);
    var cs := Sealed(p, wrapping, iv, key.encKey + key.macKey);
    ParsePrint(cs);
    DecryptedSealed(p, wrapping, iv, key.encKey + key.macKey);
    SymmetricKeyPaths(p, Print(cs), masterKey, key);
  }
}
