/**
 Sorting under a total order. Go's sort routines promise some permutation that
 is sorted; SortedUnique shows there is only one, so the choice of algorithm
 never shows.
 */
module Order {

  ghost predicate TotalPreorder<T(!new)>(le: (T, T) -> bool) {
    && (forall a, b :: le(a, b) || le(b, a))
    && (forall a, b, c :: le(a, b) && le(b, c) ==> le(a, c))
  }

  ghost predicate TotalOrder<T(!new)>(le: (T, T) -> bool) {
    TotalPreorder(le) && forall a, b :: le(a, b) && le(b, a) ==> a == b
  }

  ghost predicate Sorted<T>(le: (T, T) -> bool, s: seq<T>) {
    forall i, j | 0 <= i < j < |s| :: le(s[i], s[j])
  }

  /** No two different elements of s tie. */
  ghost predicate NoTies<T>(le: (T, T) -> bool, s: seq<T>) {
    forall a, b | a in s && b in s && le(a, b) && le(b, a) :: a == b
  }

  /** Two sorted sequences with the same elements, no two of which tie, are the same sequence. */
  lemma {:induction false} SortedUnique<T(!new)>(le: (T, T) -> bool, a: seq<T>, b: seq<T>)
    requires TotalPreorder(le) && NoTies(le, a) && Sorted(le, a) && Sorted(le, b) && multiset(a) == multiset(b)
    ensures a == b
  {
    assert |a| == |multiset(a)| == |multiset(b)| == |b|;
    if a != [] {
      SameFirst(le, a, b);
      SameRest(a, b);
      RestIsSorted(le, a);
      RestIsSorted(le, b);
      assert forall x <- a[1..] :: x in a;
      SortedUnique(le, a[1..], b[1..]);
      assert a == [a[0]] + a[1..] && b == [b[0]] + b[1..];
    }
  }

  lemma FirstIsLeast<T(!new)>(le: (T, T) -> bool, a: seq<T>, x: T)
    requires Sorted(le, a) && a != [] && x in multiset(a) && le(x, x)
    ensures le(a[0], x)
  {
    assert x in a;
  }

  lemma SameFirst<T(!new)>(le: (T, T) -> bool, a: seq<T>, b: seq<T>)
    requires TotalPreorder(le) && NoTies(le, a) && Sorted(le, a) && Sorted(le, b)
    requires multiset(a) == multiset(b) && a != [] && b != []
    ensures a[0] == b[0]
  {
    assert a[0] in multiset(b) && b[0] in multiset(a);
    FirstIsLeast(le, a, b[0]);
    FirstIsLeast(le, b, a[0]);
  }

  lemma SameRest<T>(a: seq<T>, b: seq<T>)
    requires multiset(a) == multiset(b) && a != [] && b != [] && a[0] == b[0]
    ensures multiset(a[1..]) == multiset(b[1..])
  {
    assert a == [a[0]] + a[1..] && b == [b[0]] + b[1..];
    assert multiset(a[1..]) == multiset(a) - multiset{a[0]};
    assert multiset(b[1..]) == multiset(b) - multiset{b[0]};
  }

  lemma RestIsSorted<T>(le: (T, T) -> bool, s: seq<T>)
    requires Sorted(le, s) && s != []
    ensures Sorted(le, s[1..])
  {
  }

  /** s[0] comes before everything that an insertion behind it can hold. */
  lemma FirstStaysFirst<T(!new)>(le: (T, T) -> bool, s: seq<T>, x: T, rest: seq<T>)
    requires s != [] && Sorted(le, s) && le(s[0], x) && Sorted(le, rest)
    requires multiset(rest) == multiset(s[1..]) + multiset{x}
    ensures Sorted(le, [s[0]] + rest) && multiset([s[0]] + rest) == multiset(s) + multiset{x}
  {
    assert s == [s[0]] + s[1..];
    forall y | y in rest ensures le(s[0], y) {
      assert y in multiset(rest);
      assert y in s[1..] || y == x;
    }
  }

  lemma NewFirst<T(!new)>(le: (T, T) -> bool, s: seq<T>, x: T)
    requires TotalPreorder(le) && s != [] && Sorted(le, s) && !le(s[0], x)
    ensures Sorted(le, [x] + s)
  {
    assert le(x, s[0]);
    forall y | y in s ensures le(x, y) {
      assert y == s[0] || le(s[0], y);
    }
  }

  /** Puts x behind everything that does not exceed it. */
  function Insert<T(!new)>(le: (T, T) -> bool, s: seq<T>, x: T): (r: seq<T>)
    requires TotalPreorder(le) && Sorted(le, s)
    ensures Sorted(le, r) && multiset(r) == multiset(s) + multiset{x}
  {
    if s == [] then [x]
    else if le(s[0], x) then
      var rest := Insert(le, s[1..], x);
      FirstStaysFirst(le, s, x, rest);
      [s[0]] + rest
    else
      NewFirst(le, s, x);
      [x] + s
  }

  /** A sorted permutation of s. */
  function Sort<T(!new)>(le: (T, T) -> bool, s: seq<T>): (r: seq<T>)
    requires TotalPreorder(le)
    ensures Sorted(le, r) && multiset(r) == multiset(s)
  {
    if s == [] then []
    else
      assert s == s[..|s| - 1] + [s[|s| - 1]];
      Insert(le, Sort(le, s[..|s| - 1]), s[|s| - 1])
  }

  // ----- Strings -----

  /** Go's <= on strings: byte order, which UTF-8 makes code point order. */
  predicate StringLe(a: string, b: string) {
    a == "" || (b != "" && (a[0] < b[0] || (a[0] == b[0] && StringLe(a[1..], b[1..]))))
  }

  lemma {:induction false} StringLeTotal(a: string, b: string)
    ensures StringLe(a, b) || StringLe(b, a)
    ensures StringLe(a, b) && StringLe(b, a) ==> a == b
  {
    if a != "" && b != "" {
      StringLeTotal(a[1..], b[1..]);
      assert a == [a[0]] + a[1..] && b == [b[0]] + b[1..];
    }
  }

  lemma {:induction false} StringLeTransitive(a: string, b: string, c: string)
    requires StringLe(a, b) && StringLe(b, c)
    ensures StringLe(a, c)
  {
    if a != "" && a[0] == b[0] && b[0] == c[0] {
      StringLeTransitive(a[1..], b[1..], c[1..]);
    }
  }

  lemma StringOrder()
    ensures TotalOrder(StringLe)
  {
    forall a: string, b: string
      ensures (StringLe(a, b) || StringLe(b, a)) && (StringLe(a, b) && StringLe(b, a) ==> a == b)
    {
      StringLeTotal(a, b);
    }
    forall a: string, b: string, c: string | StringLe(a, b) && StringLe(b, c) ensures StringLe(a, c) {
      StringLeTransitive(a, b, c);
    }
  }

  // ----- Sets -----

  function Elements<T(==)>(s: seq<T>): set<T> {
    set x | x in s
  }
}
