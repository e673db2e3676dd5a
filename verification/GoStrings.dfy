/** The parts of Go's `strings` package the service relies on. A Go string is a
    sequence of bytes, so a `char` here stands for one byte. */
module GoStrings {
  import opened Wrappers

  /** Case folding is library code: `fold` is strings.EqualFold and `lower` is
      strings.ToLower. */
  datatype Casing = Casing(fold: (string, string) -> bool, lower: string -> string) {
    ghost predicate Lawful() {
      && (forall a :: fold(a, a))
      && (forall a, b :: fold(a, b) ==> fold(b, a))
      && (forall a, b, c :: fold(a, b) && fold(b, c) ==> fold(a, c))
      && (forall a :: fold(a, "") ==> a == "")
      && (forall a :: lower(lower(a)) == lower(a))
    }
  }

  // ---- Order ----

  /** Bytewise lexicographic order, Go's `<` on strings. */
  predicate Less(a: string, b: string) {
    b != "" && (a == "" || a[0] < b[0] || (a[0] == b[0] && Less(a[1..], b[1..])))
  }

  lemma {:induction false} LessAsymmetric(a: string, b: string)
    ensures !(Less(a, b) && Less(b, a))
  {
    if a != "" && b != "" && a[0] == b[0] {
      LessAsymmetric(a[1..], b[1..]);
    }
  }

  lemma {:induction false} LessTotal(a: string, b: string)
    ensures Less(a, b) || Less(b, a) || a == b
  {
    if a != "" && b != "" && a[0] == b[0] {
      LessTotal(a[1..], b[1..]);
      assert a == [a[0]] + a[1..] && b == [b[0]] + b[1..];
    }
  }

  lemma {:induction false} LessTransitive(a: string, b: string, c: string)
    requires Less(a, b) && Less(b, c)
    ensures Less(a, c)
  {
    if a != "" && a[0] == b[0] == c[0] {
      LessTransitive(a[1..], b[1..], c[1..]);
    }
  }

  /** The strings agree before i, where the first one ends or has the smaller byte. */
  predicate LessAt(a: string, b: string, i: int) {
    0 <= i <= |a| && i < |b| && a[..i] == b[..i] && (i < |a| ==> a[i] < b[i])
  }

  lemma {:induction false} LessSomewhere(a: string, b: string) returns (i: int)
    requires Less(a, b)
    ensures LessAt(a, b, i)
  {
    if a == "" || a[0] != b[0] {
      i := 0;
    } else {
      var j := LessSomewhere(a[1..], b[1..]);
      i := j + 1;
      assert a[..i] == [a[0]] + a[1..][..j] && b[..i] == [b[0]] + b[1..][..j];
    }
  }

  lemma {:induction false} LessFrom(a: string, b: string, i: int)
    requires LessAt(a, b, i)
    ensures Less(a, b)
  {
    if i > 0 {
      assert a[0] == a[..i][0] && b[0] == b[..i][0];
      assert a[1..i] == a[..i][1..] && b[1..i] == b[..i][1..];
      assert a[1..][..i - 1] == a[1..i] && b[1..][..i - 1] == b[1..i];
      LessFrom(a[1..], b[1..], i - 1);
    }
  }

  /** One string is less than another exactly if it is a proper prefix of it or has the
      smaller byte where they first differ. */
  lemma LessIff(a: string, b: string)
    ensures Less(a, b) <==> exists i :: LessAt(a, b, i)
  {
    if Less(a, b) {
      var i := LessSomewhere(a, b);
    }
    if i :| LessAt(a, b, i) {
      LessFrom(a, b, i);
    }
  }

  predicate IsLeast(ids: set<string>, least: string) {
    least in ids && forall id | id in ids && id != least :: Less(least, id)
  }

  lemma {:induction false} LeastExists(ids: set<string>)
    requires ids != {}
    ensures exists least :: IsLeast(ids, least)
    decreases ids
  {
    var x :| x in ids;
    if ids == {x} {
      assert IsLeast(ids, x);
    } else {
      LeastExists(ids - {x});
      var sub :| IsLeast(ids - {x}, sub);
      LessTotal(sub, x);
      var least := if Less(x, sub) then x else sub;
      forall id | id in ids && id != least
        ensures Less(least, id)
      {
        if id != x && least == x && id != sub {
          LessTransitive(x, sub, id);
        }
      }
      assert IsLeast(ids, least);
    }
  }

  /** The least element of a non-empty finite set of strings. */
  ghost function Least(ids: set<string>): (least: string)
    requires ids != {}
    ensures IsLeast(ids, least)
  {
    LeastExists(ids);
    var least :| IsLeast(ids, least);
    least
  }

  lemma LeastIsUnique(ids: set<string>, least: string)
    requires IsLeast(ids, least)
    ensures Least(ids) == least
  {
    LessAsymmetric(Least(ids), least);
  }

  // ---- Searching, splitting, joining ----

  predicate OccursAt(s: string, sub: string, i: int) {
    0 <= i <= |s| - |sub| && s[i..i + |sub|] == sub
  }

  /** strings.Contains. */
  predicate Contains(s: string, sub: string) {
    exists i | 0 <= i <= |s| :: OccursAt(s, sub, i)
  }

  /** s contains sub exactly if it is something, sub, and something more. */
  lemma ContainsIff(s: string, sub: string)
    ensures Contains(s, sub) <==> exists a: string, b: string :: s == a + sub + b
  {
    if i :| 0 <= i <= |s| && OccursAt(s, sub, i) {
      assert s == s[..i] + sub + s[i + |sub|..];
    }
    if a: string, b: string :| s == a + sub + b {
      assert OccursAt(s, sub, |a|);
    }
  }

  /** strings.IndexByte, with None for -1. */
  function IndexByte(s: string, c: char): (r: Option<nat>)
    ensures r.Some? ==> r.value < |s| && s[r.value] == c && c !in s[..r.value]
    ensures r.None? <==> c !in s
  {
    if s == "" then None
    else if s[0] == c then Some(0)
    else match IndexByte(s[1..], c)
      case None => None
      case Some(i) =>
        assert s[..i + 1] == [s[0]] + s[1..][..i];
        Some(i + 1)
  }

  /** strings.Split for a one-byte separator. */
  function Split(s: string, sep: char): (parts: seq<string>)
    ensures parts != []
    ensures forall p | p in parts :: sep !in p
  {
    if s == "" then [""]
    else
      var rest := Split(s[1..], sep);
      if s[0] == sep then [""] + rest else [[s[0]] + rest[0]] + rest[1..]
  }

  /** strings.Join for a one-byte separator. */
  function Join(parts: seq<string>, sep: char): string
  {
    if parts == [] then ""
    else if |parts| == 1 then parts[0]
    else parts[0] + [sep] + Join(parts[1..], sep)
  }

  lemma {:induction false} SplitAtom(s: string, sep: char)
    requires sep !in s
    ensures Split(s, sep) == [s]
  {
    if s != "" {
      SplitAtom(s[1..], sep);
      assert [s[0]] + s[1..] == s;
    }
  }

  lemma {:induction false} SplitConcat(a: string, sep: char, b: string)
    ensures Split(a + [sep] + b, sep) == Split(a, sep) + Split(b, sep)
  {
    var s := a + [sep] + b;
    if a == "" {
      assert s[1..] == b;
    } else {
      assert s[1..] == a[1..] + [sep] + b;
      SplitConcat(a[1..], sep, b);
    }
  }

  /** Joining the parts gives the string back. */
  lemma {:induction false} JoinSplit(s: string, sep: char)
    ensures Join(Split(s, sep), sep) == s
  {
    if s != "" {
      var rest := Split(s[1..], sep);
      JoinSplit(s[1..], sep);
      if s[0] == sep {
        assert ([""] + rest)[1..] == rest;
      } else {
        assert ([[s[0]] + rest[0]] + rest[1..])[1..] == rest[1..];
      }
      assert s == [s[0]] + s[1..];
    }
  }

  function SplitAll(values: seq<string>, sep: char): seq<string>
  {
    if values == [] then [] else Split(values[0], sep) + SplitAll(values[1..], sep)
  }

  /** Splitting a joined list splits each element. */
  lemma {:induction false} SplitJoin(parts: seq<string>, sep: char)
    requires parts != []
    ensures Split(Join(parts, sep), sep) == SplitAll(parts, sep)
  {
    if |parts| == 1 {
      assert parts[1..] == [];
      assert SplitAll(parts, sep) == Split(parts[0], sep) + SplitAll([], sep);
    } else {
      SplitConcat(parts[0], sep, Join(parts[1..], sep));
      SplitJoin(parts[1..], sep);
    }
  }

  // ---- Trimming ----

  predicate AsciiSpace(c: char) {
    c == ' ' || '\t' <= c <= '\r'
  }

  /** The multi-byte encodings of Unicode white space: U+0085, U+00A0, U+1680,
      U+2000 to U+200A, U+2028, U+2029, U+202F, U+205F and U+3000. */
  predicate WideSpace(u: string) {
    || (|u| == 2 && u[0] as int == 0xC2 && u[1] as int in {0x85, 0xA0})
    || (|u| == 3 && u[0] as int == 0xE1 && u[1] as int == 0x9A && u[2] as int == 0x80)
    || (|u| == 3 && u[0] as int == 0xE2 && u[1] as int == 0x80
        && (0x80 <= u[2] as int <= 0x8A || u[2] as int in {0xA8, 0xA9, 0xAF}))
    || (|u| == 3 && u[0] as int == 0xE2 && u[1] as int == 0x81 && u[2] as int == 0x9F)
    || (|u| == 3 && u[0] as int == 0xE3 && u[1] as int == 0x80 && u[2] as int == 0x80)
  }

  /** Bytes of the UTF-8 white-space character s starts with; 0 if it starts with none. */
  function LeadingSpace(s: string): (n: nat)
    ensures n <= |s|
  {
    if |s| >= 1 && AsciiSpace(s[0]) then 1
    else if |s| >= 2 && WideSpace(s[..2]) then 2
    else if |s| >= 3 && WideSpace(s[..3]) then 3
    else 0
  }

  /** Bytes of the UTF-8 white-space character s ends with; 0 if it ends with none. */
  function TrailingSpace(s: string): (n: nat)
    ensures n <= |s|
  {
    if |s| >= 1 && AsciiSpace(s[|s| - 1]) then 1
    else if |s| >= 2 && WideSpace(s[|s| - 2..]) then 2
    else if |s| >= 3 && WideSpace(s[|s| - 3..]) then 3
    else 0
  }

  function TrimLeft(s: string): (t: string)
    ensures |t| <= |s| && LeadingSpace(t) == 0
    decreases |s|
  {
    var n := LeadingSpace(s);
    if n == 0 then s else TrimLeft(s[n..])
  }

  function TrimRight(s: string): (t: string)
    ensures |t| <= |s| && t == s[..|t|] && TrailingSpace(t) == 0
    decreases |s|
  {
    var n := TrailingSpace(s);
    if n == 0 then s else TrimRight(s[..|s| - n])
  }

  /** strings.TrimSpace. */
  function TrimSpace(s: string): (t: string)
    ensures |t| <= |s|
  {
    TrimRight(TrimLeft(s))
  }

  lemma LeadingBeforeBlank(c: char, s: string)
    requires AsciiSpace(c) && s != ""
    ensures LeadingSpace(s + [c]) == LeadingSpace(s)
  {
    var t := s + [c];
    if |s| >= 3 {
      assert t[..3] == s[..3] && t[..2] == s[..2];
    } else if |s| == 2 {
      assert t[..2] == s[..2] && t[..3][2] == c;
    } else {
      assert t[..2][1] == c;
    }
  }

  lemma VisibleFirst(s: string)
    requires s != "" && 0x21 <= s[0] as int <= 0x7E
    ensures LeadingSpace(s) == 0
  {
    if |s| >= 3 {
      assert s[..3][0] == s[0] && s[..2][0] == s[0];
    } else if |s| == 2 {
      assert s[..2][0] == s[0];
    }
  }

  lemma VisibleLast(s: string)
    requires s != "" && 0x21 <= s[|s| - 1] as int <= 0x7E
    ensures TrailingSpace(s) == 0
  {
    if |s| >= 3 {
      assert s[|s| - 3..][2] == s[|s| - 1] && s[|s| - 2..][1] == s[|s| - 1];
    } else if |s| == 2 {
      assert s[|s| - 2..][1] == s[|s| - 1];
    }
  }

  /** A string between visible ASCII characters is not trimmed at all. */
  lemma TrimVisible(s: string)
    requires s != "" && 0x21 <= s[0] as int <= 0x7E && 0x21 <= s[|s| - 1] as int <= 0x7E
    ensures TrimSpace(s) == s
  {
    VisibleFirst(s);
    VisibleLast(s);
  }

  lemma {:induction false} TrimLeftBlank(c: char, s: string)
    requires AsciiSpace(c)
    ensures TrimLeft(s + [c]) == if TrimLeft(s) == "" then "" else TrimLeft(s) + [c]
    decreases |s|
  {
    if s == "" {
      assert (s + [c])[1..] == "";
    } else {
      var n := LeadingSpace(s);
      LeadingBeforeBlank(c, s);
      if n > 0 {
        assert (s + [c])[n..] == s[n..] + [c];
        TrimLeftBlank(c, s[n..]);
      }
    }
  }

  /** An ASCII blank at either end is trimmed. */
  lemma TrimBlank(c: char, s: string)
    requires c == ' ' || c == '\t' || c == '\r' || c == '\n' || c as int == 0x0B || c as int == 0x0C
    ensures TrimSpace([c] + s) == TrimSpace(s)
    ensures TrimSpace(s + [c]) == TrimSpace(s)
  {
    assert ([c] + s)[1..] == s;
    TrimLeftBlank(c, s);
    var t := TrimLeft(s);
    if t != "" {
      assert (t + [c])[..|t|] == t;
    }
  }
}
