/** Bitwarden cipher strings: parsing, AES-CBC with PKCS#7 padding behind an HMAC
    gate, and the unwrapping of user and organization keys. */
module CipherStrings {
  import opened Wrappers
  import opened GoStrings
  import opened Base64

  // ---- Library primitives ----

  type PrivateKey = seq<byte>

  const BLOCK := 16
  const HASH := 32

  const AES_CBC_256 := 0
  const AES_CBC_256_HMAC_SHA_256 := 2
  const RSA_2048_OAEP_SHA_256 := 3
  const RSA_2048_OAEP_SHA_1 := 4

  /** The block cipher, HMAC-SHA256, HKDF-Expand to 32 bytes, RSA-OAEP for a cipher
      type, and PKCS#8 parsing. */
  datatype Primitives = Primitives(
    aesEncrypt: (seq<byte>, seq<byte>) -> seq<byte>,
    aesDecrypt: (seq<byte>, seq<byte>) -> seq<byte>,
    hmac: (seq<byte>, seq<byte>) -> seq<byte>,
    hkdf: (seq<byte>, string) -> seq<byte>,
    oaep: (int, PrivateKey, seq<byte>) -> Option<seq<byte>>,
    parsePkcs8: seq<byte> -> Option<PrivateKey>)
  {
    ghost predicate Lawful() {
      && (forall k, b :: |b| == BLOCK ==> |aesEncrypt(k, b)| == BLOCK && aesDecrypt(k, aesEncrypt(k, b)) == b)
      && (forall k, b :: |b| == BLOCK ==> |aesDecrypt(k, b)| == BLOCK)
      && (forall k, m :: |hmac(k, m)| == HASH)
      && (forall k, info :: |hkdf(k, info)| == 32)
    }
  }

  datatype SymmetricKey = SymmetricKey(encKey: seq<byte>, macKey: seq<byte>) {
    /** Both halves of a 64-byte vault key are there. */
    predicate Full() {
      |encKey| == 32 && |macKey| == 32
    }
  }

  datatype CipherString = CipherString(encType: int, iv: seq<byte>, ct: seq<byte>, mac: seq<byte>)

  datatype CryptoError =
    | Empty
    | MissingSeparator
    | InvalidType
    | UnsupportedType
    | WrongPieceCount
    | InvalidBase64
    | InvalidIVLength
    | InvalidCiphertextLength
    | UnauthenticatedType0
    | MacKeyRequired
    | MacMismatch
    | InvalidAesKey
    | InvalidPadding
    | NotRsa
    | RsaFailure
    | InvalidPrivateKey
    | UnexpectedKeyLength

  // ---- Parsing ----

  predicate IsDigit(c: char) {
    '0' <= c <= '9'
  }

  function DigitValue(c: char): nat
    requires IsDigit(c)
  {
    c as int - '0' as int
  }

  function Decimal(digits: string): nat
    requires forall c | c in digits :: IsDigit(c)
  {
    if digits == "" then 0
    else Decimal(digits[..|digits| - 1]) * 10 + DigitValue(digits[|digits| - 1])
  }

  /** strconv.Atoi: an optional sign, at least one digit, and a value that fits 64 bits. */
  function Atoi(s: string): Option<int>
  {
    var digits := if s != "" && (s[0] == '+' || s[0] == '-') then s[1..] else s;
    if digits == "" || exists c | c in digits :: !IsDigit(c) then None
    else
      var magnitude: int := Decimal(digits);
      var v := if s[0] == '-' then -magnitude else magnitude;
      if -0x8000_0000_0000_0000 <= v < 0x8000_0000_0000_0000 then Some(v) else None
  }

  function ParsePieces(encType: int, pieces: seq<string>): Result<CipherString, CryptoError>
  {
    if encType == AES_CBC_256 then
      if |pieces| != 2 then Err(WrongPieceCount)
      else
        match (Decode(pieces[0]), Decode(pieces[1]))
        case (Some(iv), Some(ct)) => Ok(CipherString(encType, iv, ct, []))
        case _ => Err(InvalidBase64)
    else if encType == AES_CBC_256_HMAC_SHA_256 then
      if |pieces| != 3 then Err(WrongPieceCount)
      else
        match (Decode(pieces[0]), Decode(pieces[1]), Decode(pieces[2]))
        case (Some(iv), Some(ct), Some(mac)) => Ok(CipherString(encType, iv, ct, mac))
        case _ => Err(InvalidBase64)
    else if encType == RSA_2048_OAEP_SHA_256 || encType == RSA_2048_OAEP_SHA_1 then
      match Decode(Join(pieces, '|'))
      case Some(ct) => Ok(CipherString(encType, [], ct, []))
      case None => Err(InvalidBase64)
    else Err(UnsupportedType)
  }

  function Parse(s: string): Result<CipherString, CryptoError>
  {
    if s == "" then Err(Empty)
    else
      match IndexByte(s, '.')
      case None => Err(MissingSeparator)
      case Some(dot) =>
        match Atoi(s[..dot])
        case None => Err(InvalidType)
        case Some(encType) => ParsePieces(encType, Split(s[dot + 1..], '|'))
  }

  // ---- Padding ----

  function Repeat(n: nat, b: byte): (s: seq<byte>)
    ensures |s| == n && forall i | 0 <= i < n :: s[i] == b
  {
    seq(n, _ => b)
  }

  lemma MultipleOf(q: nat, blockSize: nat)
    requires 1 <= blockSize
    ensures q * blockSize % blockSize == 0
  {
    var x := q * blockSize;
    var d := q - x / blockSize;
    assert d * blockSize == x % blockSize;
    assert d >= 1 ==> d * blockSize >= blockSize;
    assert d <= -1 ==> d * blockSize <= -(blockSize as int);
  }

  lemma PaddedLength(n: nat, blockSize: nat)
    requires 1 <= blockSize
    ensures (n + (blockSize - n % blockSize)) % blockSize == 0
  {
    var q := n / blockSize;
    assert n + (blockSize - n % blockSize) == (q + 1) * blockSize;
    MultipleOf(q + 1, blockSize);
  }

  /** PKCS#7 padding (section 6.3 of RFC 5652). */
  function Pad(m: seq<byte>, blockSize: nat): (d: seq<byte>)
    requires 1 <= blockSize < 256
    ensures |d| % blockSize == 0 && |m| < |d| <= |m| + blockSize
  {
    var n := blockSize - |m| % blockSize;
    PaddedLength(|m|, blockSize);
    m + Repeat(n, n)
  }

  /** What padding adds: as many bytes as it takes to fill the last block, a whole one if
      that is full, each holding their number. */
  lemma PaddingIs(m: seq<byte>, blockSize: nat)
    requires 1 <= blockSize < 256
    ensures var d, n := Pad(m, blockSize), |Pad(m, blockSize)| - |m|;
            && |d| % blockSize == 0 && 1 <= n <= blockSize
            && d[..|m|] == m && forall i | |m| <= i < |d| :: d[i] == n
  {
  }

  lemma AtLeastOneBlock(n: nat, blockSize: nat)
    requires 1 <= blockSize && n > 0 && n % blockSize == 0
    ensures n >= blockSize
  {
  }

  function Unpadded(data: seq<byte>, blockSize: nat): Result<seq<byte>, CryptoError>
    requires 1 <= blockSize < 256
  {
    if data == [] || |data| % blockSize != 0 then Err(InvalidPadding)
    else
      var padLen: nat := data[|data| - 1];
      AtLeastOneBlock(|data|, blockSize);
      if padLen == 0 || padLen > blockSize then Err(InvalidPadding)
      else if data[|data| - padLen..] != Repeat(padLen, padLen) then Err(InvalidPadding)
      else Ok(data[..|data| - padLen])
  }

  lemma UnpadOfPad(m: seq<byte>, blockSize: nat)
    requires 1 <= blockSize < 256
    ensures Unpadded(Pad(m, blockSize), blockSize) == Ok(m)
  {
    var data, n := Pad(m, blockSize), blockSize - |m| % blockSize;
    assert data == m + Repeat(n, n);
    assert |data| - n == |m| && data[|data| - 1] == n;
    assert data[|data| - n..] == Repeat(n, n) && data[..|data| - n] == m;
  }

  lemma TailIsPadding(data: seq<byte>, m: seq<byte>, n: byte)
    requires n <= |data| && m == data[..|data| - n] && data[|data| - n..] == Repeat(n, n)
    ensures data == m + Repeat(n, n)
  {
    assert data == data[..|data| - n] + data[|data| - n..];
  }

  lemma UnpaddedIsAligned(data: seq<byte>, m: seq<byte>, blockSize: nat)
    requires 1 <= blockSize < 256 && Unpadded(data, blockSize) == Ok(m)
    ensures |data| % blockSize == 0
  {
  }

  lemma UnpaddedParts(data: seq<byte>, m: seq<byte>, blockSize: nat) returns (n: byte)
    requires 1 <= blockSize < 256 && Unpadded(data, blockSize) == Ok(m)
    ensures 1 <= n <= blockSize && data == m + Repeat(n, n)
  {
    AtLeastOneBlock(|data|, blockSize);
    n := data[|data| - 1];
    TailIsPadding(data, m, n);
  }

  lemma PadLengthUnique(len: nat, n: nat, blockSize: nat)
    requires 1 <= n <= blockSize
    requires (len + n) % blockSize == 0
    ensures n == blockSize - len % blockSize
  {
    var q, a := (len + n) / blockSize, len / blockSize;
    assert len + n == q * blockSize;
    assert len == a * blockSize + len % blockSize;
    var d := q - a;
    assert d * blockSize == n + len % blockSize;
    assert d <= 0 ==> d * blockSize <= 0;
    assert d >= 2 ==> d * blockSize >= 2 * blockSize;
  }

  lemma PadOfUnpad(data: seq<byte>, m: seq<byte>, blockSize: nat)
    requires 1 <= blockSize < 256 && Unpadded(data, blockSize) == Ok(m)
    ensures data == Pad(m, blockSize)
  {
    var n := UnpaddedParts(data, m, blockSize);
    UnpaddedIsAligned(data, m, blockSize);
    assert |data| == |m| + n;
    PadLengthUnique(|m|, n, blockSize);
  }

  /** Unpadding accepts exactly the padded messages and gives back the message. */
  lemma UnpadIffPad(data: seq<byte>, m: seq<byte>, blockSize: nat)
    requires 1 <= blockSize < 256
    ensures Unpadded(data, blockSize) == Ok(m) <==> data == Pad(m, blockSize)
  {
    if data == Pad(m, blockSize) {
      UnpadOfPad(m, blockSize);
    } else if Unpadded(data, blockSize) == Ok(m) {
      PadOfUnpad(data, m, blockSize);
    }
  }

  // ---- Block chaining ----

  function Pow2(k: nat): (p: nat)
    ensures p > 0
  {
    if k == 0 then 1 else 2 * Pow2(k - 1)
  }

  /** Exclusive or of the low k bits. */
  function XorBits(a: nat, b: nat, k: nat): (x: nat)
    ensures x < Pow2(k)
  {
    if k == 0 then 0 else (a + b) % 2 + 2 * XorBits(a / 2, b / 2, k - 1)
  }

  function Xor(a: byte, b: byte): byte
  {
    assert Pow2(8) == 256;
    XorBits(a, b, 8)
  }

  lemma HalfAndBit(rest: nat, bit: nat)
    requires bit < 2
    ensures (bit + 2 * rest) / 2 == rest
  {
  }

  lemma BitCancels(a: nat, b: nat, rest: nat)
    ensures ((a + b) % 2 + 2 * rest + b) % 2 == a % 2
  {
  }

  lemma {:induction false} XorBitsCancel(a: nat, b: nat, k: nat)
    requires a < Pow2(k)
    ensures XorBits(XorBits(a, b, k), b, k) == a
  {
    if k > 0 {
      var rest := XorBits(a / 2, b / 2, k - 1);
      var bit := (a + b) % 2;
      var x := bit + 2 * rest;
      XorBitsCancel(a / 2, b / 2, k - 1);
      HalfAndBit(rest, bit);
      assert XorBits(x, b, k) == (x + b) % 2 + 2 * XorBits(rest, b / 2, k - 1);
      BitCancels(a, b, rest);
    }
  }

  lemma XorCancels(a: byte, b: byte)
    ensures Xor(Xor(a, b), b) == a
  {
    assert Pow2(8) == 256;
    XorBitsCancel(a, b, 8);
  }

  lemma QuotientIs(x: nat, m: nat, q: nat, r: nat)
    requires x == q * m + r && r < m
    ensures x / m == q
  {
    var d := x / m - q;
    assert d * m == r - x % m;
    assert d >= 1 ==> d * m >= m;
    assert d <= -1 ==> d * m <= -(m as int);
  }

  lemma DivideTwice(x: nat, m: nat)
    requires m > 0
    ensures x / (2 * m) == x / 2 / m
  {
    var q := x / 2 / m;
    var r := x / 2 - q * m;
    assert x == 2 * (q * m + r) + x % 2;
    assert q * (2 * m) == 2 * (q * m);
    QuotientIs(x, 2 * m, q, 2 * r + x % 2);
  }

  lemma HigherBit(x: nat, i: nat)
    requires i > 0
    ensures x / Pow2(i) == x / 2 / Pow2(i - 1)
  {
    DivideTwice(x, Pow2(i - 1));
  }

  lemma LowBit(a: nat, b: nat, rest: nat)
    ensures ((a + b) % 2 + 2 * rest) % 2 == 1 <==> a % 2 != b % 2
  {
  }

  /** Bit i of an exclusive or is set exactly where the operands differ. */
  lemma {:induction false} XorBitsAt(a: nat, b: nat, k: nat, i: nat)
    requires i < k
    ensures XorBits(a, b, k) / Pow2(i) % 2 == 1 <==> a / Pow2(i) % 2 != b / Pow2(i) % 2
  {
    var x, rest, bit := XorBits(a, b, k), XorBits(a / 2, b / 2, k - 1), (a + b) % 2;
    if i == 0 {
      LowBit(a, b, rest);
    } else {
      HalfAndBit(rest, bit);
      assert x / 2 == rest;
      HigherBit(x, i);
      HigherBit(a, i);
      HigherBit(b, i);
      XorBitsAt(a / 2, b / 2, k - 1, i - 1);
    }
  }

  lemma XorAt(a: byte, b: byte, i: nat)
    requires i < 8
    ensures Xor(a, b) / Pow2(i) % 2 == 1 <==> a / Pow2(i) % 2 != b / Pow2(i) % 2
  {
    XorBitsAt(a, b, 8, i);
  }

  function XorBlock(a: seq<byte>, b: seq<byte>): (x: seq<byte>)
    ensures |x| == if |a| < |b| then |a| else |b|
  {
    seq(if |a| < |b| then |a| else |b|, i requires 0 <= i < |a| && i < |b| => Xor(a[i], b[i]))
  }

  /** CBC mode (section 6.2 of NIST SP 800-38A). */
  ghost function CbcEncrypted(p: Primitives, key: seq<byte>, iv: seq<byte>, plain: seq<byte>): seq<byte>
    requires |plain| % BLOCK == 0
    decreases |plain|
  {
    if plain == [] then []
    else
      var c := p.aesEncrypt(key, XorBlock(plain[..BLOCK], iv));
      c + CbcEncrypted(p, key, c, plain[BLOCK..])
  }

  function CbcDecrypted(p: Primitives, key: seq<byte>, iv: seq<byte>, ct: seq<byte>): seq<byte>
    requires |ct| % BLOCK == 0
    decreases |ct|
  {
    if ct == [] then []
    else XorBlock(p.aesDecrypt(key, ct[..BLOCK]), iv) + CbcDecrypted(p, key, ct[..BLOCK], ct[BLOCK..])
  }

  lemma {:induction false} CbcInverse(p: Primitives, key: seq<byte>, iv: seq<byte>, plain: seq<byte>)
    requires p.Lawful() && |iv| == BLOCK && |plain| % BLOCK == 0
    ensures |CbcEncrypted(p, key, iv, plain)| == |plain|
    ensures CbcDecrypted(p, key, iv, CbcEncrypted(p, key, iv, plain)) == plain
    decreases |plain|
  {
    if plain != [] {
      var x := XorBlock(plain[..BLOCK], iv);
      var c := p.aesEncrypt(key, x);
      var rest := CbcEncrypted(p, key, c, plain[BLOCK..]);
      CbcInverse(p, key, c, plain[BLOCK..]);
      assert (c + rest)[..BLOCK] == c && (c + rest)[BLOCK..] == rest;
      assert XorBlock(x, iv) == plain[..BLOCK] by {
        forall i | 0 <= i < BLOCK
          ensures XorBlock(x, iv)[i] == plain[i]
        {
          XorCancels(plain[i], iv[i]);
        }
      }
    }
  }

  lemma {:induction false} CbcLength(p: Primitives, key: seq<byte>, iv: seq<byte>, ct: seq<byte>)
    requires p.Lawful() && |iv| == BLOCK && |ct| % BLOCK == 0
    ensures |CbcDecrypted(p, key, iv, ct)| == |ct|
    decreases |ct|
  {
    if ct != [] {
      CbcLength(p, key, ct[..BLOCK], ct[BLOCK..]);
    }
  }

  lemma {:induction false} CbcByte(p: Primitives, key: seq<byte>, iv: seq<byte>, ct: seq<byte>, n: nat, i: nat)
    requires p.Lawful() && |iv| == BLOCK && |ct| % BLOCK == 0 && i < BLOCK && BLOCK * (n + 1) <= |ct|
    ensures |CbcDecrypted(p, key, iv, ct)| == |ct|
    ensures CbcDecrypted(p, key, iv, ct)[BLOCK * n + i]
         == Xor(p.aesDecrypt(key, ct[BLOCK * n..BLOCK * (n + 1)])[i], if n == 0 then iv[i] else ct[BLOCK * (n - 1) + i])
    decreases n
  {
    CbcLength(p, key, iv, ct);
    CbcLength(p, key, ct[..BLOCK], ct[BLOCK..]);
    if n > 0 {
      CbcByte(p, key, ct[..BLOCK], ct[BLOCK..], n - 1, i);
      assert ct[BLOCK..][BLOCK * (n - 1)..BLOCK * n] == ct[BLOCK * n..BLOCK * (n + 1)];
    }
  }

  /** CBC decryption (section 6.2 of NIST SP 800-38A), bit by bit: where byte i of block n
      differs from byte i of the deciphered block are the bits set in byte i of the
      ciphertext block before it, or of the IV. */
  lemma CbcBit(p: Primitives, key: seq<byte>, iv: seq<byte>, ct: seq<byte>, n: nat, i: nat, k: nat)
    requires p.Lawful() && |iv| == 16 && |ct| % 16 == 0 && i < 16 && 16 * (n + 1) <= |ct| && k < 8
    ensures |CbcDecrypted(p, key, iv, ct)| == |ct|
    ensures var bit := (b: byte) => b / Pow2(k) % 2;
            var deciphered := p.aesDecrypt(key, ct[16 * n..16 * (n + 1)])[i];
            bit(CbcDecrypted(p, key, iv, ct)[16 * n + i]) != bit(deciphered)
            <==> bit(if n == 0 then iv[i] else ct[16 * (n - 1) + i]) == 1
  {
    CbcByte(p, key, iv, ct, n, i);
    XorAt(p.aesDecrypt(key, ct[16 * n..16 * (n + 1)])[i], if n == 0 then iv[i] else ct[16 * (n - 1) + i], k);
  }

  // ---- Decryption ----

  function Decrypted(p: Primitives, cs: CipherString, key: SymmetricKey): Result<seq<byte>, CryptoError>
  {
    if |cs.iv| != BLOCK then Err(InvalidIVLength)
    else if |cs.ct| == 0 || |cs.ct| % BLOCK != 0 then Err(InvalidCiphertextLength)
    else if cs.encType == AES_CBC_256 && |key.macKey| > 0 then Err(UnauthenticatedType0)
    else if cs.encType == AES_CBC_256_HMAC_SHA_256 && |key.macKey| == 0 then Err(MacKeyRequired)
    else if cs.encType == AES_CBC_256_HMAC_SHA_256 && p.hmac(key.macKey, cs.iv + cs.ct) != cs.mac then Err(MacMismatch)
    else if |key.encKey| !in {16, 24, 32} then Err(InvalidAesKey)
    else Unpadded(CbcDecrypted(p, key.encKey, cs.iv, cs.ct), BLOCK)
  }

  /** Which cipher strings decrypt, under any key, and to what. */
  lemma DecryptedIff(p: Primitives, cs: CipherString, key: SymmetricKey, plain: seq<byte>)
    ensures Decrypted(p, cs, key) == Ok(plain)
       <==> && |cs.iv| == 16 && |cs.ct| % 16 == 0
            && (cs.encType == 0 ==> key.macKey == [])
            && (cs.encType == 2 ==> key.macKey != [] && p.hmac(key.macKey, cs.iv + cs.ct) == cs.mac)
            && (|key.encKey| == 16 || |key.encKey| == 24 || |key.encKey| == 32)
            && CbcDecrypted(p, key.encKey, cs.iv, cs.ct) == Pad(plain, 16)
  {
    if |cs.ct| % 16 == 0 {
      UnpadIffPad(CbcDecrypted(p, key.encKey, cs.iv, cs.ct), plain, 16);
    }
  }

  method Pkcs7Unpad(data: seq<byte>, blockSize: nat) returns (r: Result<seq<byte>, CryptoError>)
    requires 1 <= blockSize < 256
    ensures r == Unpadded(data, blockSize)
  {
    if |data| == 0 {
      return Err(InvalidPadding);
    }
    if |data| % blockSize != 0 {
      return Err(InvalidPadding);
    }
    AtLeastOneBlock(|data|, blockSize);
    var padLen: nat := data[|data| - 1];
    if padLen == 0 || padLen > blockSize {
      return Err(InvalidPadding);
    }
    for i := |data| - padLen to |data|
      invariant forall k | |data| - padLen <= k < i :: data[k] == padLen
    {
      if data[i] != padLen {
        assert data[|data| - padLen..][i - (|data| - padLen)] == data[i];
        return Err(InvalidPadding);
      }
    }
    assert data[|data| - padLen..] == Repeat(padLen, padLen);
    return Ok(data[..|data| - padLen]);
  }

  lemma CbcStep(p: Primitives, key: seq<byte>, prev: seq<byte>, ct: seq<byte>, n: nat, done: seq<byte>, block: seq<byte>)
    requires n + BLOCK <= |ct| && (|ct| - n) % BLOCK == 0
    requires block == XorBlock(p.aesDecrypt(key, ct[n..n + BLOCK]), prev)
    ensures done + CbcDecrypted(p, key, prev, ct[n..])
         == (done + block) + CbcDecrypted(p, key, ct[n..n + BLOCK], ct[n + BLOCK..])
  {
    assert ct[n..][..BLOCK] == ct[n..n + BLOCK] && ct[n..][BLOCK..] == ct[n + BLOCK..];
    var rest := CbcDecrypted(p, key, ct[n..n + BLOCK], ct[n + BLOCK..]);
    assert done + (block + rest) == (done + block) + rest;
  }

  method WriteBlock(buffer: array<byte>, n: nat, block: seq<byte>)
    requires n + |block| <= buffer.Length
    modifies buffer
    ensures buffer[..n + |block|] == old(buffer[..n]) + block
  {
    for i := 0 to |block|
      invariant buffer[..n + i] == old(buffer[..n]) + block[..i]
    {
      buffer[n + i] := block[i];
    }
  }

  /** Deciphers one block into the buffer. */
  method CryptBlock(p: Primitives, key: seq<byte>, prev: seq<byte>, ct: seq<byte>, n: nat, buffer: array<byte>)
    requires p.Lawful() && |prev| == BLOCK && n + BLOCK <= |ct| == buffer.Length
    modifies buffer
    ensures buffer[..n + BLOCK] == old(buffer[..n]) + XorBlock(p.aesDecrypt(key, ct[n..n + BLOCK]), prev)
  {
    var block := XorBlock(p.aesDecrypt(key, ct[n..n + BLOCK]), prev);
    WriteBlock(buffer, n, block);
  }

  lemma WholeBlockLeft(n: nat)
    requires n > 0 && n % BLOCK == 0
    ensures n >= BLOCK && (n - BLOCK) % BLOCK == 0
  {
  }

  /** Fills a buffer block by block, each block chained to the ciphertext before it. */
  method CryptBlocks(p: Primitives, key: seq<byte>, iv: seq<byte>, ct: seq<byte>) returns (buffer: array<byte>)
    requires p.Lawful() && |iv| == BLOCK && |ct| % BLOCK == 0
    ensures buffer[..] == CbcDecrypted(p, key, iv, ct)
  {
    buffer := new byte[|ct|];
    var n, prev := 0, iv;
    while n < |ct|
      invariant 0 <= n <= |ct| && (|ct| - n) % BLOCK == 0 && |prev| == BLOCK
      invariant buffer[..n] + CbcDecrypted(p, key, prev, ct[n..]) == CbcDecrypted(p, key, iv, ct)
    {
      WholeBlockLeft(|ct| - n);
      CbcStep(p, key, prev, ct, n, buffer[..n], XorBlock(p.aesDecrypt(key, ct[n..n + BLOCK]), prev));
      CryptBlock(p, key, prev, ct, n, buffer);
      n, prev := n + BLOCK, ct[n..n + BLOCK];
    }
    assert ct[n..] == [] && buffer[..] == buffer[..n];
  }

  method Decrypt(p: Primitives, cs: CipherString, key: SymmetricKey) returns (r: Result<seq<byte>, CryptoError>)
    requires p.Lawful()
    ensures r == Decrypted(p, cs, key)
  {
    if |cs.iv| != BLOCK {
      return Err(InvalidIVLength);
    }
    if |cs.ct| == 0 || |cs.ct| % BLOCK != 0 {
      return Err(InvalidCiphertextLength);
    }
    if cs.encType == AES_CBC_256 && |key.macKey| > 0 {
      return Err(UnauthenticatedType0);
    }
    if cs.encType == AES_CBC_256_HMAC_SHA_256 {
      if |key.macKey| == 0 {
        return Err(MacKeyRequired);
      }
      var expected := p.hmac(key.macKey, cs.iv + cs.ct);
      if expected != cs.mac {
        return Err(MacMismatch);
      }
    }
    if |key.encKey| !in {16, 24, 32} {
      return Err(InvalidAesKey);
    }
    var plaintext := CryptBlocks(p, key.encKey, cs.iv, cs.ct);
    r := Pkcs7Unpad(plaintext[..], BLOCK);
  }

  /** Go's string(b). */
  function Text(b: seq<byte>): (s: string)
    ensures |s| == |b|
  {
    seq(|b|, i requires 0 <= i < |b| => b[i] as char)
  }

  lemma TextIs(b: seq<byte>, s: string)
    ensures s == Text(b) <==> |s| == |b| && forall i | 0 <= i < |s| :: s[i] as int == b[i]
  {
    if |s| == |b| && forall i | 0 <= i < |s| :: s[i] as int == b[i] {
      assert forall i | 0 <= i < |s| :: s[i] == Text(b)[i];
    }
  }

  function DecryptStr(p: Primitives, s: string, key: SymmetricKey): Result<string, CryptoError>
  {
    if s == "" then Ok("")
    else
      match Parse(s)
      case Err(e) => Err(e)
      case Ok(cs) =>
        match Decrypted(p, cs, key)
        case Err(e) => Err(e)
        case Ok(b) => Ok(Text(b))
  }
}
