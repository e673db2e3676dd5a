/** sort.Slice and sort.Strings. Callers use only the contract of `Sort`: an ordered
    permutation, with nothing said about the order of elements whose keys are equal. */
module Sorting {
  import opened GoStrings

  /** Elements are compared by a first key and then by a second one. */
  type Key = (string, string)

  predicate KeyLess(a: Key, b: Key) {
    Less(a.0, b.0) || (a.0 == b.0 && Less(a.1, b.1))
  }

  lemma KeyLessTotal(a: Key, b: Key)
    ensures !(KeyLess(a, b) && KeyLess(b, a))
    ensures KeyLess(a, b) || KeyLess(b, a) || a == b
  {
    LessAsymmetric(a.0, b.0);
    LessTotal(a.0, b.0);
    LessAsymmetric(a.1, b.1);
    LessTotal(a.1, b.1);
  }

  lemma NotLessTransitive(a: Key, b: Key, c: Key)
    requires !KeyLess(b, a) && !KeyLess(c, b)
    ensures !KeyLess(c, a)
  {
    KeyLessTotal(a, b);
    KeyLessTotal(b, c);
    if a != b && b != c {
      if Less(a.0, b.0) && Less(b.0, c.0) {
        LessTransitive(a.0, b.0, c.0);
      } else if Less(a.1, b.1) && Less(b.1, c.1) {
        LessTransitive(a.1, b.1, c.1);
      }
      KeyLessTotal(a, c);
    }
  }

  ghost predicate Ordered<T>(key: T -> Key, s: seq<T>) {
    forall i, j | 0 <= i < j < |s| :: !KeyLess(key(s[j]), key(s[i]))
  }

  /** Places x after every element it is not less than. */
  function Insert<T>(key: T -> Key, r: seq<T>, x: T): seq<T>
  {
    if r == [] || !KeyLess(key(x), key(r[|r| - 1])) then r + [x]
    else Insert(key, r[..|r| - 1], x) + [r[|r| - 1]]
  }

  lemma {:induction false} InsertPermutes<T>(key: T -> Key, r: seq<T>, x: T)
    ensures multiset(Insert(key, r, x)) == multiset(r) + multiset{x}
  {
    if r != [] && KeyLess(key(x), key(r[|r| - 1])) {
      InsertPermutes(key, r[..|r| - 1], x);
      assert r == r[..|r| - 1] + [r[|r| - 1]];
    }
  }

  lemma {:induction false} InsertOrdered<T>(key: T -> Key, r: seq<T>, x: T)
    requires Ordered(key, r)
    ensures Ordered(key, Insert(key, r, x))
  {
    if r == [] {
    } else if KeyLess(key(x), key(r[|r| - 1])) {
      var front, last := r[..|r| - 1], r[|r| - 1];
      InsertOrdered(key, front, x);
      InsertPermutes(key, front, x);
      var inserted := Insert(key, front, x);
      forall i | 0 <= i < |inserted|
        ensures !KeyLess(key(last), key(inserted[i]))
      {
        assert inserted[i] in multiset(front) + multiset{x};
        KeyLessTotal(key(x), key(last));
        if inserted[i] in multiset(front) {
          var k :| 0 <= k < |front| && front[k] == inserted[i];
          assert r[k] == front[k];
        }
      }
    } else {
      forall k | 0 <= k < |r|
        ensures !KeyLess(key(x), key(r[k]))
      {
        KeyLessTotal(key(r[k]), key(r[k]));
        NotLessTransitive(key(r[k]), key(r[|r| - 1]), key(x));
      }
    }
  }

  method Sort<T(==)>(s: seq<T>, key: T -> Key) returns (r: seq<T>)
    ensures multiset(r) == multiset(s)
    ensures Ordered(key, r)
  {
    r := [];
    for i := 0 to |s|
      invariant multiset(r) == multiset(s[..i])
      invariant Ordered(key, r)
    {
      InsertOrdered(key, r, s[i]);
      InsertPermutes(key, r, s[i]);
      assert s[..i + 1] == s[..i] + [s[i]];
      r := Insert(key, r, s[i]);
    }
    assert s[..|s|] == s;
  }

  method SortStrings(s: seq<string>) returns (r: seq<string>)
    ensures multiset(r) == multiset(s)
    ensures forall i, j | 0 <= i < j < |r| :: !Less(r[j], r[i])
  {
    r := Sort(s, (x: string) => (x, ""));
    forall i, j | 0 <= i < j < |r|
      ensures !Less(r[j], r[i])
    {
      assert !KeyLess((r[j], ""), (r[i], ""));
    }
  }

  ghost predicate StrictlyOrdered<T>(key: T -> Key, s: seq<T>) {
    forall i, j | 0 <= i < j < |s| :: KeyLess(key(s[i]), key(s[j]))
  }

  lemma SameHead<T(!new)>(key: T -> Key, a: seq<T>, b: seq<T>)
    requires StrictlyOrdered(key, a) && StrictlyOrdered(key, b) && a != []
    requires forall x :: x in a <==> x in b
    ensures b != [] && a[0] == b[0]
  {
    assert a[0] in b;
    var j :| 0 <= j < |b| && b[j] == a[0];
    assert b[0] in a;
    var i :| 0 <= i < |a| && a[i] == b[0];
    KeyLessTotal(key(a[0]), key(b[0]));
  }

  lemma TailOf<T>(key: T -> Key, a: seq<T>, x: T)
    requires StrictlyOrdered(key, a) && a != []
    ensures x in a[1..] <==> x in a && x != a[0]
  {
    KeyLessTotal(key(a[0]), key(a[0]));
    if x in a && x != a[0] {
      var i :| 0 <= i < |a| && a[i] == x;
      assert a[1..][i - 1] == x;
    }
    if x in a[1..] {
      var i :| 0 <= i < |a[1..]| && a[1..][i] == x;
      assert a[i + 1] == x;
    }
  }

  /** There is only one strictly ordered list of given elements. */
  lemma {:induction false} StrictOrderIsUnique<T(!new)>(key: T -> Key, a: seq<T>, b: seq<T>)
    requires StrictlyOrdered(key, a) && StrictlyOrdered(key, b)
    requires forall x :: x in a <==> x in b
    ensures a == b
  {
    if a == [] {
      assert forall x :: x in multiset(b) <==> x in b;
      assert multiset(b) == multiset{} && |multiset(b)| == |b|;
    } else {
      SameHead(key, a, b);
      forall x
        ensures x in a[1..] <==> x in b[1..]
      {
        TailOf(key, a, x);
        TailOf(key, b, x);
      }
      StrictOrderIsUnique(key, a[1..], b[1..]);
      assert a == [a[0]] + a[1..] && b == [b[0]] + b[1..];
    }
  }
}
