/** base64.StdEncoding (section 4 of RFC 4648), with the decoder's leniencies:
    line breaks are skipped and the unused bits of a padded quantum are ignored. */
module Base64 {
  import opened Wrappers

  type byte = x: int | 0 <= x < 256

  type sextet = x: int | 0 <= x < 64

  function Value(c: char): Option<sextet>
  {
    if 'A' <= c <= 'Z' then Some(c as int - 'A' as int)
    else if 'a' <= c <= 'z' then Some(c as int - 'a' as int + 26)
    else if '0' <= c <= '9' then Some(c as int - '0' as int + 52)
    else if c == '+' then Some(62)
    else if c == '/' then Some(63)
    else None
  }

  function Digit(v: sextet): (c: char)
    ensures Value(c) == Some(v)
  {
    if v < 26 then 'A' + v as char
    else if v < 52 then 'a' + (v - 26) as char
    else if v < 62 then '0' + (v - 52) as char
    else if v == 62 then '+'
    else '/'
  }

  /** The three octets four sextets carry. */
  function Octets(a: sextet, b: sextet, c: sextet, d: sextet): (o: seq<byte>)
    ensures |o| == 3
  {
    [a * 4 + b / 16, b % 16 * 16 + c / 4, c % 4 * 64 + d]
  }

  /** The alphabet (table 1 of RFC 4648): capital letters, small letters and digits, each
      in ascending order, then plus and slash. */
  lemma DigitsAreTheAlphabet(v: sextet)
    ensures Digit(0) == 'A' && Digit(26) == 'a' && Digit(52) == '0' && Digit(62) == '+' && Digit(63) == '/'
    ensures v < 61 && v != 25 && v != 51 ==> Digit(v + 1) as int == Digit(v) as int + 1
  {
  }

  /** Three octets and four sextets are the same 24-bit number, most significant part first. */
  lemma OctetsAreTheNumber(a: sextet, b: sextet, c: sextet, d: sextet)
    ensures var o := Octets(a, b, c, d);
            (o[0] as int * 256 + o[1] as int) * 256 + o[2] as int
            == ((a as int * 64 + b as int) * 64 + c as int) * 64 + d as int
  {
  }

  function Encode(b: seq<byte>): string
  {
    if b == [] then ""
    else if |b| == 1 then [Digit(b[0] / 4), Digit(b[0] % 4 * 16), '=', '=']
    else if |b| == 2 then
      [Digit(b[0] / 4), Digit(b[0] % 4 * 16 + b[1] / 16), Digit(b[1] % 16 * 4), '=']
    else
      [Digit(b[0] / 4), Digit(b[0] % 4 * 16 + b[1] / 16),
       Digit(b[1] % 16 * 4 + b[2] / 64), Digit(b[2] % 64)] + Encode(b[3..])
  }

  function DecodeQuanta(s: string): Option<seq<byte>>
  {
    if s == "" then Some([])
    else if |s| < 4 then None
    else
      match (Value(s[0]), Value(s[1]), Value(s[2]), Value(s[3]))
      case (Some(a), Some(b), Some(c), Some(d)) =>
        (match DecodeQuanta(s[4..])
         case None => None
         case Some(rest) => Some(Octets(a, b, c, d) + rest))
      case (Some(a), Some(b), Some(c), None) =>
        if s[3] == '=' && |s| == 4 then Some(Octets(a, b, c, 0)[..2]) else None
      case (Some(a), Some(b), None, None) =>
        if s[2] == '=' && s[3] == '=' && |s| == 4 then Some(Octets(a, b, 0, 0)[..1]) else None
      case _ => None
  }

  function SkipLineBreaks(s: string): string
  {
    if s == "" then ""
    else if s[0] == '\r' || s[0] == '\n' then SkipLineBreaks(s[1..])
    else [s[0]] + SkipLineBreaks(s[1..])
  }

  /** StdEncoding.DecodeString; None is a CorruptInputError. */
  function Decode(s: string): Option<seq<byte>>
  {
    DecodeQuanta(SkipLineBreaks(s))
  }

  /** An encoding holds digits and padding only. */
  lemma {:induction false} NoLineBreaks(b: seq<byte>)
    ensures forall c | c in Encode(b) :: Value(c).Some? || c == '='
  {
    if |b| >= 3 {
      NoLineBreaks(b[3..]);
    }
  }

  lemma {:induction false} SkipNothing(s: string)
    requires '\r' !in s && '\n' !in s
    ensures SkipLineBreaks(s) == s
  {
    if s != "" {
      SkipNothing(s[1..]);
    }
  }

  lemma SextetsCarryOctets(x: byte, y: byte, z: byte)
    ensures Octets(x / 4, x % 4 * 16 + y / 16, y % 16 * 4 + z / 64, z % 64) == [x, y, z]
  {
  }

  lemma PaddedQuantum(a: sextet, b: sextet, c: sextet)
    ensures DecodeQuanta([Digit(a), Digit(b), '=', '=']) == Some(Octets(a, b, 0, 0)[..1])
    ensures DecodeQuanta([Digit(a), Digit(b), Digit(c), '=']) == Some(Octets(a, b, c, 0)[..2])
  {
    assert Value('=') == None;
  }

  lemma OneOctet(x: byte)
    ensures DecodeQuanta([Digit(x / 4), Digit(x % 4 * 16), '=', '=']) == Some([x])
  {
    SextetsCarryOctets(x, 0, 0);
    PaddedQuantum(x / 4, x % 4 * 16, 0);
    assert [x, 0, 0][..1] == [x];
  }

  lemma TwoOctets(x: byte, y: byte)
    ensures DecodeQuanta([Digit(x / 4), Digit(x % 4 * 16 + y / 16), Digit(y % 16 * 4), '=']) == Some([x, y])
  {
    SextetsCarryOctets(x, y, 0);
    PaddedQuantum(x / 4, x % 4 * 16 + y / 16, y % 16 * 4);
    assert [x, y, 0][..2] == [x, y];
  }

  lemma FullQuantum(a: sextet, b: sextet, c: sextet, d: sextet, rest: string, tail: seq<byte>)
    requires DecodeQuanta(rest) == Some(tail)
    ensures DecodeQuanta([Digit(a), Digit(b), Digit(c), Digit(d)] + rest) == Some(Octets(a, b, c, d) + tail)
  {
    var s := [Digit(a), Digit(b), Digit(c), Digit(d)] + rest;
    assert s[4..] == rest;
    var _, _, _, _ := Value(s[0]), Value(s[1]), Value(s[2]), Value(s[3]);
  }

  lemma ThreeOctets(x: byte, y: byte, z: byte, rest: string, tail: seq<byte>)
    requires DecodeQuanta(rest) == Some(tail)
    ensures DecodeQuanta([Digit(x / 4), Digit(x % 4 * 16 + y / 16), Digit(y % 16 * 4 + z / 64), Digit(z % 64)] + rest)
         == Some([x, y, z] + tail)
  {
    FullQuantum(x / 4, x % 4 * 16 + y / 16, y % 16 * 4 + z / 64, z % 64, rest, tail);
    SextetsCarryOctets(x, y, z);
  }

  lemma EncodeOne(b: seq<byte>)
    requires |b| == 1
    ensures Encode(b) == [Digit(b[0] / 4), Digit(b[0] % 4 * 16), '=', '=']
  {
  }

  lemma EncodeTwo(b: seq<byte>)
    requires |b| == 2
    ensures Encode(b) == [Digit(b[0] / 4), Digit(b[0] % 4 * 16 + b[1] / 16), Digit(b[1] % 16 * 4), '=']
  {
  }

  lemma EncodeMore(b: seq<byte>)
    requires |b| >= 3
    ensures Encode(b)
         == [Digit(b[0] / 4), Digit(b[0] % 4 * 16 + b[1] / 16), Digit(b[1] % 16 * 4 + b[2] / 64), Digit(b[2] % 64)]
            + Encode(b[3..])
  {
  }

  /** Decoding a string that is known to be this encoding. */
  lemma ShortRoundTrip(b: seq<byte>, s: string)
    requires |b| < 3 && s == Encode(b)
    ensures DecodeQuanta(s) == Some(b)
  {
    if |b| == 1 {
      EncodeOne(b);
      OneOctet(b[0]);
      assert b == [b[0]];
    } else if |b| == 2 {
      EncodeTwo(b);
      TwoOctets(b[0], b[1]);
      assert b == [b[0], b[1]];
    }
  }

  lemma LongRoundTrip(b: seq<byte>, s: string, rest: string)
    requires |b| >= 3 && s == Encode(b) && rest == Encode(b[3..]) && DecodeQuanta(rest) == Some(b[3..])
    ensures DecodeQuanta(s) == Some(b)
  {
    EncodeMore(b);
    ThreeOctets(b[0], b[1], b[2], rest, b[3..]);
    assert b == [b[0], b[1], b[2]] + b[3..];
  }

  lemma {:induction false} QuantaRoundTrip(b: seq<byte>)
    ensures DecodeQuanta(Encode(b)) == Some(b)
  {
    if |b| < 3 {
      ShortRoundTrip(b, Encode(b));
    } else {
      QuantaRoundTrip(b[3..]);
      LongRoundTrip(b, Encode(b), Encode(b[3..]));
    }
  }

  /** Decoding inverts encoding. */
  lemma {:induction false} DecodeEncode(b: seq<byte>)
    ensures Decode(Encode(b)) == Some(b)
  {
    NoLineBreaks(b);
    SkipNothing(Encode(b));
    QuantaRoundTrip(b);
  }

  /** A test vector of section 10 of RFC 4648. */
  lemma TestVector()
    ensures Encode([0x66, 0x6F, 0x6F]) == "Zm9v"
  {
    var foo: seq<byte> := [0x66, 0x6F, 0x6F];
    assert foo[3..] == [] && Encode(foo) == "Zm9v" + Encode([]);
  }
}
