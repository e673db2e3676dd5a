/** Values of a header in a raw HTTP/1.1 header block, obsolete line folding included
    (section 5.2 of RFC 9112). */
module Headers {
  import opened Wrappers
  import opened GoStrings

  const CRLF := "\r\n"

  /** strings.Split by CRLF. */
  function SplitLines(s: string): (lines: seq<string>)
    ensures lines != []
    decreases |s|
  {
    if s == "" then [""]
    else if CRLF <= s then [""] + SplitLines(s[2..])
    else
      var rest := SplitLines(s[1..]);
      [[s[0]] + rest[0]] + rest[1..]
  }

  predicate Blank(c: char) {
    c == ' ' || c == '\t'
  }

  /** The line continues the header above it. */
  predicate Continues(line: string) {
    line != "" && Blank(line[0])
  }

  /** A header line of this name. */
  predicate IsTarget(cs: Casing, name: string, line: string) {
    && line != ""
    && !Continues(line)
    && IndexByte(line, ':').Some?
    && cs.fold(line[..IndexByte(line, ':').value], name)
  }

  function ValueOf(line: string): string
    requires IndexByte(line, ':').Some?
  {
    line[IndexByte(line, ':').value + 1..]
  }

  /** How many continuation lines come first. */
  function Run(lines: seq<string>): (n: nat)
    ensures n <= |lines|
  {
    if lines == [] || !Continues(lines[0]) then 0 else 1 + Run(lines[1..])
  }

  /** A value with its continuation lines appended. */
  function Unfold(value: string, continuations: seq<string>): string
    decreases |continuations|
  {
    if continuations == [] then value
    else Unfold(value + " " + TrimSpace(continuations[0]), continuations[1..])
  }

  /** One value for each header line of this name: what follows its colon, extended by the
      continuation lines directly below it. All other lines are skipped. */
  function Values(cs: Casing, name: string, lines: seq<string>): seq<string>
    decreases |lines|
  {
    if lines == [] then []
    else if !IsTarget(cs, name, lines[0]) then Values(cs, name, lines[1..])
    else
      var n := Run(lines[1..]);
      [Unfold(ValueOf(lines[0]), lines[1..][..n])] + Values(cs, name, lines[1..][n..])
  }

  /** What remains to be found when out has been, with its last value open or not. */
  function Remaining(cs: Casing, name: string, out: seq<string>, inTarget: bool, lines: seq<string>): seq<string>
    requires inTarget ==> out != []
  {
    if inTarget then
      var n := Run(lines);
      out[..|out| - 1] + [Unfold(out[|out| - 1], lines[..n])] + Values(cs, name, lines[n..])
    else out + Values(cs, name, lines)
  }

  function HeaderValues(cs: Casing, name: string, raw: string): seq<string>
  {
    Values(cs, name, SplitLines(raw))
  }

  /** How one line moves the scan on. */
  lemma RemainingStep(cs: Casing, name: string, out: seq<string>, inTarget: bool, lines: seq<string>)
    requires lines != [] && (inTarget ==> out != [])
    ensures var line, before := lines[0], Remaining(cs, name, out, inTarget, lines);
            before == if Continues(line) then
                        if inTarget then
                          Remaining(cs, name, out[..|out| - 1] + [out[|out| - 1] + " " + TrimSpace(line)], true, lines[1..])
                        else Remaining(cs, name, out, false, lines[1..])
                      else if IsTarget(cs, name, line) then
                        Remaining(cs, name, out + [ValueOf(line)], true, lines[1..])
                      else Remaining(cs, name, out, false, lines[1..])
  {
    var line, n := lines[0], Run(lines);
    if Continues(line) && inTarget {
      assert lines[..n][1..] == lines[1..][..n - 1] && lines[n..] == lines[1..][n - 1..];
    } else if inTarget {
      assert lines[..0] == [] && lines[0..] == lines;
      assert out[..|out| - 1] + [out[|out| - 1]] == out;
    }
    if IsTarget(cs, name, line) {
      var m := Run(lines[1..]);
      assert (out + [ValueOf(line)])[..|out|] == out;
      assert Values(cs, name, lines)
          == [Unfold(ValueOf(line), lines[1..][..m])] + Values(cs, name, lines[1..][m..]);
    }
  }

  method RawHeaderValues(cs: Casing, raw: string, name: string) returns (out: seq<string>)
    ensures out == HeaderValues(cs, name, raw)
  {
    out := [];
    var inTarget := false;
    var lines := SplitLines(raw);
    for i := 0 to |lines|
      invariant inTarget ==> out != []
      invariant HeaderValues(cs, name, raw) == Remaining(cs, name, out, inTarget, lines[i..])
    {
      var line := lines[i];
      RemainingStep(cs, name, out, inTarget, lines[i..]);
      assert lines[i..][1..] == lines[i + 1..];
      if line == "" {
        inTarget := false;
        continue;
      }
      if line[0] == ' ' || line[0] == '\t' {
        if inTarget && |out| > 0 {
          out := out[..|out| - 1] + [out[|out| - 1] + " " + TrimSpace(line)];
        }
        continue;
      }
      var colon := IndexByte(line, ':');
      if colon.None? {
        inTarget := false;
        continue;
      }
      if cs.fold(line[..colon.value], name) {
        inTarget := true;
        out := out + [line[colon.value + 1..]];
        continue;
      }
      inTarget := false;
    }
  }

  // ---- Blocks of lines ----

  lemma {:induction false} SplitLinesConcat(a: string, b: string)
    ensures SplitLines(a + CRLF + b) == SplitLines(a) + SplitLines(b)
    decreases |a|
  {
    var s := a + CRLF + b;
    if a == "" {
      assert s[2..] == b;
    } else if CRLF <= a {
      assert s[2..] == a[2..] + CRLF + b;
      SplitLinesConcat(a[2..], b);
    } else {
      assert s[1..] == a[1..] + CRLF + b;
      assert s[1] == if |a| > 1 then a[1] else '\r';
      SplitLinesConcat(a[1..], b);
    }
  }

  /** No line break occurs in it. */
  ghost predicate Unbroken(line: string) {
    forall i | 0 <= i < |line| - 1 :: !(line[i] == '\r' && line[i + 1] == '\n')
  }

  lemma {:induction false} SplitLinesAtom(line: string)
    requires Unbroken(line)
    ensures SplitLines(line) == [line]
    decreases |line|
  {
    if line != "" {
      SplitLinesAtom(line[1..]);
      assert [line[0]] + line[1..] == line;
    }
  }

  lemma {:induction false} FirstLineIsPrefix(s: string)
    ensures SplitLines(s)[0] <= s
    decreases |s|
  {
    if s != "" && !(CRLF <= s) {
      FirstLineIsPrefix(s[1..]);
    }
  }

  lemma {:induction false} SplitLinesAreUnbroken(s: string)
    ensures forall line | line in SplitLines(s) :: Unbroken(line)
    decreases |s|
  {
    if s == "" {
    } else if CRLF <= s {
      SplitLinesAreUnbroken(s[2..]);
    } else {
      SplitLinesAreUnbroken(s[1..]);
      var rest := SplitLines(s[1..]);
      FirstLineIsPrefix(s[1..]);
      assert Unbroken(rest[0]);
      assert |rest[0]| > 0 ==> rest[0][0] == s[1];
    }
  }

  /** No continuation line comes first. */
  predicate Opens(lines: seq<string>) {
    lines != [] ==> !Continues(lines[0])
  }

  lemma {:induction false} RunConcat(a: seq<string>, b: seq<string>)
    requires Opens(b)
    ensures Run(a + b) == Run(a)
  {
    if a == [] {
      assert a + b == b;
    } else {
      assert (a + b)[1..] == a[1..] + b;
      RunConcat(a[1..], b);
    }
  }

  lemma {:induction false} ValuesDistribute(cs: Casing, name: string, a: seq<string>, b: seq<string>)
    requires Opens(b)
    ensures Values(cs, name, a + b) == Values(cs, name, a) + Values(cs, name, b)
    decreases |a|
  {
    if a == [] {
      assert a + b == b;
    } else {
      var rest := a[1..];
      assert (a + b)[1..] == rest + b;
      if IsTarget(cs, name, a[0]) {
        var n := Run(rest);
        RunConcat(rest, b);
        assert (rest + b)[..n] == rest[..n] && (rest + b)[n..] == rest[n..] + b;
        ValuesDistribute(cs, name, rest[n..], b);
      } else {
        ValuesDistribute(cs, name, rest, b);
      }
    }
  }

  /** Text made of whole lines. */
  predicate WholeLines(block: string) {
    block == "" || (|block| >= 2 && block[|block| - 2..] == CRLF)
  }

  lemma OpensIff(b: string)
    requires b != "" ==> !Blank(b[0])
    ensures Opens(SplitLines(b))
  {
  }

  lemma EmptyLineAdds(cs: Casing, name: string, lines: seq<string>)
    ensures Values(cs, name, lines + [""]) == Values(cs, name, lines)
  {
    ValuesDistribute(cs, name, lines, [""]);
  }

  /** A block of whole lines followed by text that does not continue it has the values of
      the block and then those of the text. */
  lemma HeaderValuesDistribute(cs: Casing, name: string, a: string, b: string)
    requires WholeLines(a) && (b != "" ==> !Blank(b[0]))
    ensures HeaderValues(cs, name, a + b) == HeaderValues(cs, name, a) + HeaderValues(cs, name, b)
  {
    if a == "" {
      assert a + b == b && [] + [""] == [""];
      EmptyLineAdds(cs, name, []);
    } else {
      var body := a[..|a| - 2];
      assert a == body + CRLF + "" && a + b == body + CRLF + b;
      SplitLinesConcat(body, b);
      SplitLinesConcat(body, "");
      OpensIff(b);
      ValuesDistribute(cs, name, SplitLines(body), SplitLines(b));
      EmptyLineAdds(cs, name, SplitLines(body));
    }
  }

  lemma {:induction false} IndexByteAppend(s: string, t: string, c: char)
    requires IndexByte(s, c).Some?
    ensures IndexByte(s + t, c) == IndexByte(s, c)
  {
    if s[0] != c {
      assert (s + t)[1..] == s[1..] + t;
      IndexByteAppend(s[1..], t, c);
    }
  }

  /** Text at the end of a header line changes its value alone. */
  lemma ExtendedHeader(cs: Casing, name: string, h: string, t: string)
    requires h != "" && !Continues(h) && ':' in h
    ensures h + t != "" && !Continues(h + t)
    ensures IsTarget(cs, name, h + t) <==> IsTarget(cs, name, h)
    ensures IndexByte(h + t, ':').Some? && ValueOf(h + t) == ValueOf(h) + t
  {
    var colon := IndexByte(h, ':').value;
    IndexByteAppend(h, t, ':');
    assert (h + t)[..colon] == h[..colon] && (h + t)[colon + 1..] == h[colon + 1..] + t;
  }

  /** Writing a continuation line on the header line it continues changes nothing. */
  lemma FoldedLine(cs: Casing, name: string, h: string, c: string, rest: seq<string>)
    requires h != "" && !Continues(h) && ':' in h && Continues(c)
    ensures Values(cs, name, [h, c] + rest) == Values(cs, name, [h + " " + TrimSpace(c)] + rest)
  {
    var t := " " + TrimSpace(c);
    var h' := h + t;
    assert h + " " + TrimSpace(c) == h';
    ExtendedHeader(cs, name, h, t);
    assert ([h, c] + rest)[1..] == [c] + rest && ([c] + rest)[1..] == rest && ([h'] + rest)[1..] == rest;
    if IsTarget(cs, name, h) {
      var n := Run(rest);
      assert Run([c] + rest) == n + 1;
      assert ([c] + rest)[..n + 1] == [c] + rest[..n] && ([c] + rest)[n + 1..] == rest[n..];
      assert ([c] + rest[..n])[1..] == rest[..n];
      assert ValueOf(h) + " " + TrimSpace(c) == ValueOf(h');
    }
  }

  // ---- Unfolding ----

  /** A header line a continuation line can extend. */
  predicate IsHeader(line: string) {
    line != "" && !Continues(line) && ':' in line
  }

  predicate StartsFolded(lines: seq<string>) {
    |lines| > 1 && IsHeader(lines[0]) && Continues(lines[1])
  }

  /** Two lines in one. */
  function Joined(lines: seq<string>): seq<string>
    requires |lines| > 1
  {
    [lines[0] + " " + TrimSpace(lines[1])] + lines[2..]
  }

  /** The lines with every continuation line written on the header line it continues. */
  function Unfolded(lines: seq<string>): seq<string>
    decreases |lines|
  {
    if lines == [] then []
    else if StartsFolded(lines) then
      Unfolded(Joined(lines))
    else [lines[0]] + Unfolded(lines[1..])
  }

  lemma {:induction false} UnfoldedOpens(lines: seq<string>)
    ensures Unfolded(lines) == [] <==> lines == []
    ensures lines != [] ==> (Continues(Unfolded(lines)[0]) <==> Continues(lines[0]))
    decreases |lines|
  {
    if StartsFolded(lines) {
      UnfoldedOpens(Joined(lines));
    }
  }

  /** No header line is followed by a continuation line. */
  ghost predicate NoFolds(lines: seq<string>) {
    forall i | 0 <= i < |lines| - 1 :: !(IsHeader(lines[i]) && Continues(lines[i + 1]))
  }

  lemma {:induction false} UnfoldedHasNoFolds(lines: seq<string>)
    ensures NoFolds(Unfolded(lines))
    decreases |lines|
  {
    if lines != [] {
      if StartsFolded(lines) {
        UnfoldedHasNoFolds(Joined(lines));
      } else {
        UnfoldedHasNoFolds(lines[1..]);
        UnfoldedOpens(lines[1..]);
      }
    }
  }

  /** Lines of the same values have them after one more line, too. */
  lemma SameValuesAfter(cs: Casing, name: string, line: string, a: seq<string>, b: seq<string>)
    requires Values(cs, name, a) == Values(cs, name, b)
    requires (Opens(a) && Opens(b)) || !IsTarget(cs, name, line)
    ensures Values(cs, name, [line] + a) == Values(cs, name, [line] + b)
  {
    if IsTarget(cs, name, line) {
      ValuesDistribute(cs, name, [line], a);
      ValuesDistribute(cs, name, [line], b);
    } else {
      assert ([line] + a)[1..] == a && ([line] + b)[1..] == b;
    }
  }

  lemma JoinedValues(cs: Casing, name: string, lines: seq<string>)
    requires StartsFolded(lines)
    ensures Values(cs, name, Joined(lines)) == Values(cs, name, lines)
  {
    assert lines == [lines[0], lines[1]] + lines[2..];
    FoldedLine(cs, name, lines[0], lines[1], lines[2..]);
  }

  lemma KeptLineValues(cs: Casing, name: string, line: string, rest: seq<string>, u: seq<string>)
    requires !StartsFolded([line] + rest)
    requires Values(cs, name, u) == Values(cs, name, rest)
    requires u == [] <==> rest == []
    requires rest != [] ==> (Continues(u[0]) <==> Continues(rest[0]))
    ensures Values(cs, name, [line] + u) == Values(cs, name, [line] + rest)
  {
    assert rest != [] ==> ([line] + rest)[1] == rest[0];
    SameValuesAfter(cs, name, line, u, rest);
  }

  /** Unfolding all lines changes no value. */
  lemma {:induction false} UnfoldedValues(cs: Casing, name: string, lines: seq<string>)
    ensures Values(cs, name, Unfolded(lines)) == Values(cs, name, lines)
    decreases |lines|
  {
    if lines == [] {
    } else if StartsFolded(lines) {
      UnfoldedValues(cs, name, Joined(lines));
      JoinedValues(cs, name, lines);
    } else {
      var line, rest := lines[0], lines[1..];
      assert lines == [line] + rest;
      UnfoldedValues(cs, name, rest);
      UnfoldedOpens(rest);
      KeptLineValues(cs, name, line, rest, Unfolded(rest));
    }
  }

  /** The text of lines. */
  function Text(lines: seq<string>): string
  {
    if lines == [] then ""
    else if |lines| == 1 then lines[0]
    else lines[0] + CRLF + Text(lines[1..])
  }

  lemma {:induction false} SplitLinesOfText(lines: seq<string>)
    requires lines != [] && forall line | line in lines :: Unbroken(line)
    ensures SplitLines(Text(lines)) == lines
  {
    SplitLinesAtom(lines[0]);
    if |lines| == 1 {
      assert lines == [lines[0]];
    } else {
      SplitLinesConcat(lines[0], Text(lines[1..]));
      SplitLinesOfText(lines[1..]);
      assert lines == [lines[0]] + lines[1..];
    }
  }

  lemma UnbrokenSlice(s: string, i: nat, j: nat)
    requires i <= j <= |s| && Unbroken(s)
    ensures Unbroken(s[i..j])
  {
  }

  lemma {:induction false} TrimLeftIsSlice(s: string) returns (i: nat)
    ensures i <= |s| && TrimLeft(s) == s[i..]
    decreases |s|
  {
    var n := LeadingSpace(s);
    if n == 0 {
      i := 0;
    } else {
      var k := TrimLeftIsSlice(s[n..]);
      i := n + k;
    }
  }

  lemma TrimmedIsUnbroken(s: string)
    requires Unbroken(s)
    ensures Unbroken(TrimSpace(s))
  {
    var i := TrimLeftIsSlice(s);
    var t := TrimLeft(s);
    UnbrokenSlice(s, i, |s|);
    assert s[i..|s|] == t;
    UnbrokenSlice(t, 0, |TrimRight(t)|);
    assert TrimRight(t) == t[0..|TrimRight(t)|];
  }

  lemma UnbrokenAround(a: string, b: string)
    requires Unbroken(a) && Unbroken(b)
    ensures Unbroken(a + " " + b)
  {
    var s := a + " " + b;
    assert s[..|a|] == a && s[|a|] == ' ' && s[|a| + 1..] == b;
    forall i | 0 <= i < |s| - 1
      ensures !(s[i] == '\r' && s[i + 1] == '\n')
    {
      if i + 1 < |a| {
        assert s[..|a|][i] == s[i] && s[..|a|][i + 1] == s[i + 1];
      } else if i > |a| {
        assert s[|a| + 1..][i - |a| - 1] == s[i] && s[|a| + 1..][i - |a|] == s[i + 1];
      }
    }
  }

  lemma JoinedIsUnbroken(h: string, c: string)
    requires Unbroken(h) && Unbroken(c)
    ensures Unbroken(h + " " + TrimSpace(c))
  {
    TrimmedIsUnbroken(c);
    UnbrokenAround(h, TrimSpace(c));
  }

  lemma {:induction false} UnfoldedIsUnbroken(lines: seq<string>)
    requires forall line | line in lines :: Unbroken(line)
    ensures forall line | line in Unfolded(lines) :: Unbroken(line)
    decreases |lines|
  {
    if lines != [] {
      if StartsFolded(lines) {
        JoinedIsUnbroken(lines[0], lines[1]);
        UnfoldedIsUnbroken(Joined(lines));
      } else {
        UnfoldedIsUnbroken(lines[1..]);
      }
    }
  }

  /** A block with every fold unfolded. */
  function UnfoldedBlock(raw: string): string
  {
    Text(Unfolded(SplitLines(raw)))
  }

  /** A block and its unfolded form give the same values. */
  lemma FoldingIsTransparent(cs: Casing, name: string, raw: string)
    ensures HeaderValues(cs, name, UnfoldedBlock(raw)) == HeaderValues(cs, name, raw)
    ensures SplitLines(UnfoldedBlock(raw)) == Unfolded(SplitLines(raw)) && NoFolds(Unfolded(SplitLines(raw)))
  {
    var lines := SplitLines(raw);
    SplitLinesAreUnbroken(raw);
    UnfoldedIsUnbroken(lines);
    UnfoldedOpens(lines);
    SplitLinesOfText(Unfolded(lines));
    UnfoldedValues(cs, name, lines);
    UnfoldedHasNoFolds(lines);
  }

  // ---- Addresses ----

  /** An IP address, by its printed form. */
  type Addr = s: string | s != "" witness "0.0.0.0"

  /** Library code: net.ParseIP and the host part of net.SplitHostPort. */
  datatype Net = Net(parseIp: string -> Option<Addr>, hostOf: string -> Option<string>)

  /** One element of a forwarding header, with or without a port. */
  function ParseHeaderIp(net: Net, s: string): Option<Addr>
  {
    var t := TrimSpace(s);
    if t == "" then None
    else if net.parseIp(t).Some? then net.parseIp(t)
    else
      match net.hostOf(t)
      case None => None
      case Some(host) => net.parseIp(host)
  }

  function Parsing(net: Net): string -> Option<Addr>
  {
    s => ParseHeaderIp(net, s)
  }

  /** The elements that are addresses, in order. */
  function Addresses(parse: string -> Option<Addr>, parts: seq<string>): seq<Addr>
  {
    if parts == [] then []
    else
      var front := Addresses(parse, parts[..|parts| - 1]);
      match parse(parts[|parts| - 1])
      case None => front
      case Some(ip) => front + [ip]
  }

  /** The chain that these header values spell. */
  function Chain(parse: string -> Option<Addr>, values: seq<string>): seq<Addr>
  {
    Addresses(parse, SplitAll(values, ','))
  }

  lemma {:induction false} AddressesConcat(parse: string -> Option<Addr>, a: seq<string>, b: seq<string>)
    ensures Addresses(parse, a + b) == Addresses(parse, a) + Addresses(parse, b)
  {
    if b == [] {
      assert a + b == a;
    } else {
      assert (a + b)[..|a + b| - 1] == a + b[..|b| - 1];
      AddressesConcat(parse, a, b[..|b| - 1]);
    }
  }

  lemma {:induction false} SplitAllConcat(a: seq<string>, b: seq<string>, sep: char)
    ensures SplitAll(a + b, sep) == SplitAll(a, sep) + SplitAll(b, sep)
  {
    if a == [] {
      assert a + b == b;
    } else {
      assert (a + b)[1..] == a[1..] + b;
      SplitAllConcat(a[1..], b, sep);
    }
  }

  lemma SplitAllOne(value: string)
    ensures SplitAll([value], ',') == Split(value, ',')
  {
    assert SplitAll([value], ',') == Split(value, ',') + SplitAll([], ',');
  }

  lemma ChainConcat(parse: string -> Option<Addr>, a: seq<string>, b: seq<string>)
    ensures Chain(parse, a + b) == Chain(parse, a) + Chain(parse, b)
  {
    SplitAllConcat(a, b, ',');
    AddressesConcat(parse, SplitAll(a, ','), SplitAll(b, ','));
  }

  /** Repeated header lines say what one line with their values joined by commas says
      (section 5.2 of RFC 9110). */
  lemma RepeatedLinesJoin(parse: string -> Option<Addr>, values: seq<string>)
    requires values != []
    ensures Chain(parse, values) == Chain(parse, [Join(values, ',')])
  {
    SplitJoin(values, ',');
    SplitAllOne(Join(values, ','));
  }

  /** A lone address. */
  lemma ChainOfOne(parse: string -> Option<Addr>, addr: string, ip: Addr)
    requires ',' !in addr && parse(addr) == Some(ip)
    ensures Chain(parse, [addr]) == [ip]
  {
    SplitAtom(addr, ',');
    SplitAllOne(addr);
    assert Addresses(parse, [addr][..0] + [addr]) == Addresses(parse, [addr][..0]) + [ip];
  }

  /** Extending the value of a line appends to the chain. */
  lemma ExtendedValue(parse: string -> Option<Addr>, value: string, addr: string, ip: Addr)
    requires ',' !in addr && parse(addr) == Some(ip)
    ensures Chain(parse, [value + "," + addr]) == Chain(parse, [value]) + [ip]
  {
    RepeatedLinesJoin(parse, [value, addr]);
    assert [value, addr][1..] == [addr];
    assert Join([value, addr], ',') == value + "," + addr;
    assert [value, addr] == [value] + [addr];
    ChainConcat(parse, [value], [addr]);
    ChainOfOne(parse, addr, ip);
  }

  method AddressesIn(net: Net, parts: seq<string>) returns (ips: seq<Addr>)
    ensures ips == Addresses(Parsing(net), parts)
  {
    ips := [];
    for j := 0 to |parts|
      invariant ips == Addresses(Parsing(net), parts[..j])
    {
      assert parts[..j + 1][..j] == parts[..j];
      var ip := ParseHeaderIp(net, parts[j]);
      if ip.Some? {
        ips := ips + [ip.value];
      }
    }
    assert parts[..|parts|] == parts;
  }

  function ForwardedChain(cs: Casing, parse: string -> Option<Addr>, name: string, raw: string): seq<Addr>
  {
    Chain(parse, HeaderValues(cs, name, raw))
  }

  lemma ChainGrows(parse: string -> Option<Addr>, values: seq<string>, i: nat)
    requires i < |values|
    ensures Chain(parse, values[..i + 1]) == Chain(parse, values[..i]) + Addresses(parse, Split(values[i], ','))
  {
    assert values[..i + 1] == values[..i] + [values[i]];
    ChainConcat(parse, values[..i], [values[i]]);
    SplitAllOne(values[i]);
  }

  method ForwardedFor(cs: Casing, net: Net, raw: string, name: string) returns (ips: seq<Addr>)
    ensures ips == ForwardedChain(cs, Parsing(net), name, raw)
  {
    ips := [];
    var values := RawHeaderValues(cs, raw, name);
    for i := 0 to |values|
      invariant ips == Chain(Parsing(net), values[..i])
    {
      var more := AddressesIn(net, Split(values[i], ','));
      ChainGrows(Parsing(net), values, i);
      ips := ips + more;
    }
    assert values[..|values|] == values;
  }

  // ---- What proxies do to the chain ----

  /** A line a proxy could write: a name, a colon and a value, without line breaks. */
  predicate HeaderLine(line: string) {
    line != "" && !Blank(line[0]) && '\r' !in line && ':' in line
  }

  lemma OneLine(cs: Casing, name: string, line: string)
    requires HeaderLine(line)
    ensures HeaderValues(cs, name, line + CRLF) == if IsTarget(cs, name, line) then [ValueOf(line)] else []
  {
    assert line + CRLF == line + CRLF + "";
    SplitLinesConcat(line, "");
    SplitLinesAtom(line);
    EmptyLineAdds(cs, name, [line]);
    assert [line][1..] == [];
  }

  /** Text without the line break at hand distributes around a line. */
  lemma AroundLine(cs: Casing, name: string, pre: string, line: string, post: string)
    requires WholeLines(pre) && HeaderLine(line) && (post != "" ==> !Blank(post[0]))
    ensures HeaderValues(cs, name, pre + line + CRLF + post)
         == HeaderValues(cs, name, pre) + HeaderValues(cs, name, line + CRLF) + HeaderValues(cs, name, post)
  {
    var block := line + CRLF;
    assert block[0] == line[0];
    assert pre + line + CRLF + post == (pre + block) + post;
    assert (pre + block)[|pre + block| - 2..] == CRLF;
    HeaderValuesDistribute(cs, name, pre, block);
    HeaderValuesDistribute(cs, name, pre + block, post);
  }

  /** Hence a block and its unfolded form spell the same chain. */
  lemma UnfoldedChain(cs: Casing, parse: string -> Option<Addr>, name: string, raw: string)
    ensures ForwardedChain(cs, parse, name, UnfoldedBlock(raw)) == ForwardedChain(cs, parse, name, raw)
  {
    FoldingIsTransparent(cs, name, raw);
  }

  lemma {:induction false} FirstAt(s: string, c: char, n: nat)
    requires n < |s| && s[n] == c && c !in s[..n]
    ensures IndexByte(s, c) == Some(n)
  {
    if n > 0 {
      assert s[0] == s[..n][0] && s[1..][..n - 1] == s[..n][1..];
      FirstAt(s[1..], c, n - 1);
    }
  }

  /** A line with this name, a blank and an address, as every proxy writes it. */
  lemma WrittenLine(cs: Casing, name: string, a: string)
    requires cs.Lawful() && name != "" && !Blank(name[0]) && ':' !in name && '\r' !in name && '\r' !in a
    ensures var line := name + ": " + a;
            HeaderLine(line) && IsTarget(cs, name, line) && ValueOf(line) == " " + a
  {
    var line, n := name + ": " + a, |name|;
    assert line[n] == ':' && line[..n] == name && line[n + 1..] == " " + a;
    FirstAt(line, ':', n);
  }

  lemma FoldedOnce(cs: Casing, name: string, h: string, c: string)
    requires IsTarget(cs, name, h) && Continues(c)
    ensures Values(cs, name, [h, c, ""]) == [ValueOf(h) + " " + TrimSpace(c)]
  {
    assert [h, c, ""][1..] == [c, ""] && [c, ""][1..] == [""] && [c, ""][..1] == [c];
    assert Run([c, ""]) == 1 && Unfold(ValueOf(h), [c]) == ValueOf(h) + " " + TrimSpace(c);
    assert Values(cs, name, [""]) == [];
  }

  lemma TwoLines(h: string, c: string)
    requires '\r' !in h && '\r' !in c
    ensures SplitLines(h + CRLF + (c + CRLF)) == [h, c, ""]
  {
    assert c + CRLF + "" == c + CRLF;
    SplitLinesConcat(h, c + CRLF);
    SplitLinesConcat(c, "");
    SplitLinesAtom(h);
    SplitLinesAtom(c);
  }

  /** A line that begins with a blank or a tab extends the value of the line above it. */
  lemma WrittenFold(cs: Casing, name: string, value: string, blank: char, more: string)
    requires cs.Lawful() && name != "" && !Blank(name[0]) && ':' !in name && '\r' !in name
    requires '\r' !in value && '\r' !in more && (blank == ' ' || blank == '\t')
    ensures HeaderValues(cs, name, name + ": " + value + CRLF + ([blank] + more + CRLF))
         == [" " + value + " " + TrimSpace(more)]
  {
    var h, c := name + ": " + value, [blank] + more;
    WrittenLine(cs, name, value);
    TrimBlank(blank, more);
    TwoLines(h, c);
    FoldedOnce(cs, name, h, c);
  }

  /** The address in a written value, with or without a port. */
  lemma WrittenAddress(net: Net, a: string, ip: Addr)
    requires a != "" && TrimSpace(a) == a
    requires net.parseIp(a) == Some(ip)
             || (net.parseIp(a) == None && net.hostOf(a).Some? && net.parseIp(net.hostOf(a).value) == Some(ip))
    ensures ParseHeaderIp(net, " " + a) == Some(ip)
  {
    TrimBlank(' ', a);
    assert [' '] + a == " " + a;
  }

  /** What is neither an address nor one with a port is dropped. */
  lemma WrittenJunk(net: Net, a: string)
    requires net.parseIp(TrimSpace(a)) == None
    requires net.hostOf(TrimSpace(a)).Some? ==> net.parseIp(net.hostOf(TrimSpace(a)).value) == None
    ensures ParseHeaderIp(net, a) == None
  {
  }

  /** The chain of a block whose last line of this name is the given one. */
  lemma ChainAroundLine(cs: Casing, parse: string -> Option<Addr>, name: string, pre: string, line: string, post: string)
    requires WholeLines(pre) && HeaderLine(line) && (post != "" ==> !Blank(post[0]))
    requires IsTarget(cs, name, line) && HeaderValues(cs, name, post) == []
    ensures ForwardedChain(cs, parse, name, pre + line + CRLF + post)
         == ForwardedChain(cs, parse, name, pre) + Chain(parse, [ValueOf(line)])
  {
    AroundLine(cs, name, pre, line, post);
    OneLine(cs, name, line);
    var before := HeaderValues(cs, name, pre);
    assert HeaderValues(cs, name, pre + line + CRLF + post) == before + [ValueOf(line)];
    ChainConcat(parse, before, [ValueOf(line)]);
  }

  /** A proxy that adds its own header line, above text that holds no other such line,
      appends its address to the chain. */
  lemma AddedLineAppends(cs: Casing, parse: string -> Option<Addr>, name: string, pre: string, line: string, ip: Addr,
                         post: string)
    requires WholeLines(pre) && HeaderLine(line) && (post != "" ==> !Blank(post[0]))
    requires IsTarget(cs, name, line) && HeaderValues(cs, name, post) == []
    requires ',' !in ValueOf(line) && parse(ValueOf(line)) == Some(ip)
    ensures ForwardedChain(cs, parse, name, pre + line + CRLF + post) == ForwardedChain(cs, parse, name, pre) + [ip]
  {
    ChainAroundLine(cs, parse, name, pre, line, post);
    ChainOfOne(parse, ValueOf(line), ip);
  }

  lemma ExtendedLine(cs: Casing, name: string, line: string, addr: string)
    requires HeaderLine(line) && IsTarget(cs, name, line) && '\r' !in addr
    ensures var longer := line + "," + addr;
            HeaderLine(longer) && IsTarget(cs, name, longer) && ValueOf(longer) == ValueOf(line) + "," + addr
  {
    var t, colon := "," + addr, IndexByte(line, ':').value;
    assert line + "," + addr == line + t;
    IndexByteAppend(line, t, ':');
    assert (line + t)[..colon] == line[..colon];
  }

  /** A proxy that extends the last such line does the same. */
  lemma ExtendedLineAppends(cs: Casing, parse: string -> Option<Addr>, name: string, pre: string, line: string,
                            addr: string, ip: Addr, post: string)
    requires WholeLines(pre) && HeaderLine(line) && (post != "" ==> !Blank(post[0]))
    requires IsTarget(cs, name, line) && HeaderValues(cs, name, post) == []
    requires ',' !in addr && '\r' !in addr && parse(addr) == Some(ip)
    ensures ForwardedChain(cs, parse, name, pre + (line + "," + addr) + CRLF + post)
         == ForwardedChain(cs, parse, name, pre + line + CRLF + post) + [ip]
  {
    ExtendedLine(cs, name, line, addr);
    ChainAroundLine(cs, parse, name, pre, line, post);
    ChainAroundLine(cs, parse, name, pre, line + "," + addr, post);
    ExtendedValue(parse, ValueOf(line), addr, ip);
  }
}
