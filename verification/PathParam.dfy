/** Decoding of the secret name in a request path. */
module PathParam {
  import opened Wrappers
  import opened GoStrings

  datatype PathError = Malformed | TooDeep

  const MAX_PASSES := 4

  function HexValue(c: char): Option<nat>
  {
    if '0' <= c <= '9' then Some(c as int - '0' as int)
    else if 'a' <= c <= 'f' then Some(c as int - 'a' as int + 10)
    else if 'A' <= c <= 'F' then Some(c as int - 'A' as int + 10)
    else None
  }

  /** url.PathUnescape: every %XX becomes one byte; None for a stray percent sign. */
  function Unescape(s: string): (r: Option<string>)
    ensures r.Some? ==> |r.value| <= |s|
  {
    if s == "" then Some("")
    else if s[0] != '%' then
      match Unescape(s[1..])
      case None => None
      case Some(rest) => Some([s[0]] + rest)
    else if |s| < 3 then None
    else
      match (HexValue(s[1]), HexValue(s[2]), Unescape(s[3..]))
      case (Some(hi), Some(lo), Some(rest)) => Some([(hi * 16 + lo) as char] + rest)
      case _ => None
  }

  /** At most n passes, stopping at the first one that changes nothing. */
  function Passes(s: string, n: nat): Result<string, PathError>
    decreases n
  {
    if n == 0 then Err(TooDeep)
    else
      match Unescape(s)
      case None => Err(Malformed)
      case Some(t) => if t == s then Ok(t) else Passes(t, n - 1)
  }

  method UnescapeUntilStable(trimmed: string) returns (r: Result<string, PathError>)
    ensures r == Passes(trimmed, 4)
  {
    var s := trimmed;
    if s == "" {
      return Ok("");
    }
    for pass := 0 to MAX_PASSES
      invariant Passes(trimmed, MAX_PASSES) == Passes(s, MAX_PASSES - pass)
    {
      var decoded := Unescape(s);
      if decoded.None? {
        return Err(Malformed);
      }
      if decoded.value == s {
        return Ok(decoded.value);
      }
      s := decoded.value;
    }
    return Err(TooDeep);
  }

  method DecodeSecretPathParam(raw: string) returns (r: Result<string, PathError>)
    ensures r == Passes(TrimSpace(raw), 4)
  {
    var s := TrimSpace(raw);
    r := UnescapeUntilStable(s);
  }

  // ---- What the passes decide ----

  /** Unescaping k times. */
  function Steps(s: string, k: nat): Option<string>
    decreases k
  {
    if k == 0 then Some(s)
    else
      match Unescape(s)
      case None => None
      case Some(t) => Steps(t, k - 1)
  }

  /** Unescaping leaves exactly the percent-free strings alone. */
  lemma {:induction false} FixpointIff(s: string, t: string)
    requires Unescape(s) == Some(t)
    ensures s == t <==> '%' !in s
    ensures '%' in s ==> |t| < |s|
  {
    if s != "" && s[0] != '%' {
      var rest := Unescape(s[1..]).value;
      FixpointIff(s[1..], rest);
      assert s == [s[0]] + s[1..] && t == [s[0]] + rest && t[1..] == rest;
    }
  }

  lemma {:induction false} PercentFree(s: string)
    requires '%' !in s
    ensures Unescape(s) == Some(s)
  {
    if s != "" {
      PercentFree(s[1..]);
      assert s == [s[0]] + s[1..];
    }
  }

  lemma {:induction false} StepsOfPercentFree(s: string, k: nat)
    requires '%' !in s
    ensures Steps(s, k) == Some(s)
    decreases k
  {
    PercentFree(s);
    if k > 0 {
      StepsOfPercentFree(s, k - 1);
    }
  }

  /** Reached in fewer than n unescapes, a percent-free string. */
  ghost predicate Clears(s: string, name: string, n: nat) {
    '%' !in name && exists k: nat | k < n :: Steps(s, k) == Some(name)
  }

  lemma ClearsLater(s: string, t: string, name: string, n: nat)
    requires Unescape(s) == Some(t) && n > 0 && t != s
    ensures Clears(s, name, n) <==> Clears(t, name, n - 1)
  {
    FixpointIff(s, t);
    if Clears(s, name, n) {
      var k: nat :| k < n && Steps(s, k) == Some(name);
      assert k > 0 && Steps(t, k - 1) == Some(name);
    }
    if Clears(t, name, n - 1) {
      var k: nat :| k < n - 1 && Steps(t, k) == Some(name);
      assert Steps(s, k + 1) == Some(name);
    }
  }

  lemma NoLaterStep(s: string, n: nat)
    requires Unescape(s) == None
    ensures forall k: nat | 0 < k <= n :: Steps(s, k) == None
  {
  }

  lemma PercentFreeIfUnescapes(s: string, name: string, n: nat)
    requires Unescape(s) == None
    ensures !Clears(s, name, n)
  {
    if Clears(s, name, n) {
      var k: nat :| k < n && Steps(s, k) == Some(name);
      assert k == 0 && name == s;
      PercentFree(s);
      assert false;
    }
  }

  /** Decoding succeeds with a name exactly when fewer than n unescapes reach it and it
      holds no percent sign. */
  lemma {:induction false} DecodedIff(s: string, name: string, n: nat)
    ensures Passes(s, n) == Ok(name) <==> Clears(s, name, n)
    decreases n
  {
    if n > 0 {
      match Unescape(s)
      case None =>
        NoLaterStep(s, n);
        PercentFreeIfUnescapes(s, name, n);
      case Some(t) =>
        if t != s {
          ClearsLater(s, t, name, n);
          DecodedIff(t, name, n - 1);
        } else {
          FixpointIff(s, t);
          forall k: nat | k < n
            ensures Steps(s, k) == Some(s)
          {
            StepsOfPercentFree(s, k);
          }
          assert Steps(s, 0) == Some(s);
        }
    }
  }

  /** It reports a malformed escape exactly when one of the first n unescapes fails, and
      too deep a nesting exactly when they all succeed and a percent sign is still there
      before the last. */
  lemma {:induction false} MalformedIff(s: string, n: nat)
    ensures Passes(s, n) == Err(Malformed) <==> Steps(s, n) == None
    ensures Passes(s, n) == Err(TooDeep) <==>
              Steps(s, n).Some? && (n > 0 ==> Steps(s, n - 1).Some? && '%' in Steps(s, n - 1).value)
    decreases n
  {
    if n > 0 && Unescape(s).Some? {
      var t := Unescape(s).value;
      FixpointIff(s, t);
      if t == s {
        StepsOfPercentFree(s, n);
        StepsOfPercentFree(s, n - 1);
      } else {
        MalformedIff(t, n - 1);
      }
    }
  }

  /** The decoded name is a fixpoint of unescaping and no longer than the input. */
  lemma {:induction false} DecodedIsStable(s: string, n: nat)
    requires Passes(s, n).Ok?
    ensures var name := Passes(s, n).value;
            Unescape(name) == Some(name) && '%' !in name && |name| <= |s|
    decreases n
  {
    var t := Unescape(s).value;
    FixpointIff(s, t);
    if t != s {
      DecodedIsStable(t, n - 1);
    }
  }

  // ---- Encoding ----

  /** e is a percent-encoding of s (section 2.1 of RFC 3986): each byte stands for itself,
      unless it is a percent sign, or is written as % and two hexadecimal digits. */
  predicate Encodes(e: string, s: string)
  {
    if e == "" then s == ""
    else if s == "" then false
    else if e[0] != '%' then e[0] == s[0] && Encodes(e[1..], s[1..])
    else
      && |e| >= 3
      && HexValue(e[1]).Some? && HexValue(e[2]).Some?
      && s[0] == (HexValue(e[1]).value * 16 + HexValue(e[2]).value) as char
      && Encodes(e[3..], s[1..])
  }

  /** Unescaping inverts every percent-encoding, and succeeds on nothing else. */
  lemma {:induction false} UnescapeIffEncodes(e: string, s: string)
    ensures Unescape(e) == Some(s) <==> Encodes(e, s)
  {
    if e != "" && s != "" {
      if e[0] != '%' {
        UnescapeIffEncodes(e[1..], s[1..]);
        assert s == [s[0]] + s[1..];
        if Unescape(e[1..]).Some? {
          assert ([e[0]] + Unescape(e[1..]).value)[1..] == Unescape(e[1..]).value;
        }
      } else if |e| >= 3 {
        UnescapeIffEncodes(e[3..], s[1..]);
        assert s == [s[0]] + s[1..];
        if Unescape(e).Some? {
          assert Unescape(e).value[1..] == Unescape(e[3..]).value;
        }
      }
    }
  }

  /** e is name under n layers of percent-encoding. */
  ghost predicate Layered(e: string, name: string, n: nat)
    decreases n
  {
    if n == 0 then e == name
    else exists inner :: Encodes(e, inner) && Layered(inner, name, n - 1)
  }

  lemma {:induction false} StepsPeelLayers(e: string, name: string, n: nat)
    requires Layered(e, name, n)
    ensures Steps(e, n) == Some(name)
    decreases n
  {
    if n > 0 {
      var inner :| Encodes(e, inner) && Layered(inner, name, n - 1);
      UnescapeIffEncodes(e, inner);
      StepsPeelLayers(inner, name, n - 1);
    }
  }

  /** Decoding inverts up to three layers of any percent-encoding of a percent-free name,
      when trimming leaves the encoded form alone. */
  lemma DecodeInverts(e: string, name: string, n: nat)
    requires Layered(e, name, n) && n <= 3 && '%' !in name && TrimSpace(e) == e
    ensures Passes(TrimSpace(e), 4) == Ok(name)
  {
    StepsPeelLayers(e, name, n);
    assert Clears(e, name, 4);
    DecodedIff(e, name, 4);
  }

  function HexDigit(v: nat): (c: char)
    requires v < 16
    ensures HexValue(c) == Some(v)
  {
    if v < 10 then '0' + v as char else 'A' + (v - 10) as char
  }

  /** The encoder that writes the chosen bytes, and every percent sign, in upper case. */
  function Escape(s: string, chosen: char -> bool): string
  {
    if s == "" then ""
    else
      (if s[0] as int < 256 && (s[0] == '%' || chosen(s[0]))
       then ['%', HexDigit(s[0] as int / 16), HexDigit(s[0] as int % 16)] else [s[0]])
      + Escape(s[1..], chosen)
  }

  lemma {:induction false} EscapeEncodes(s: string, chosen: char -> bool)
    ensures Encodes(Escape(s, chosen), s)
  {
    if s != "" {
      EscapeEncodes(s[1..], chosen);
      var e, rest := Escape(s, chosen), Escape(s[1..], chosen);
      if s[0] as int < 256 && (s[0] == '%' || chosen(s[0])) {
        assert e[3..] == rest;
        assert (s[0] as int / 16 * 16 + s[0] as int % 16) as char == s[0];
      } else {
        assert e[1..] == rest;
      }
    }
  }
}
