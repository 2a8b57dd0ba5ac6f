/**
 The order a directory listing comes in: the one given, as far as it goes, and by name behind that. Any order of what
 is there can be given.
 */
module Listings {
  import opened Order

  type Path = seq<string>

  // ----- By name -----

  predicate PathLe(a: Path, b: Path) {
    a == [] || (b != [] && (if a[0] == b[0] then PathLe(a[1..], b[1..]) else StringLe(a[0], b[0])))
  }

  lemma {:induction false} PathLeTotal(a: Path, b: Path)
    ensures PathLe(a, b) || PathLe(b, a)
    ensures PathLe(a, b) && PathLe(b, a) ==> a == b
  {
    if a != [] && b != [] {
      StringLeTotal(a[0], b[0]);
      PathLeTotal(a[1..], b[1..]);
      assert a == [a[0]] + a[1..] && b == [b[0]] + b[1..];
    }
  }

  lemma {:induction false} PathLeTransitive(a: Path, b: Path, c: Path)
    requires PathLe(a, b) && PathLe(b, c)
    ensures PathLe(a, c)
  {
    if a != [] {
      if a[0] == b[0] == c[0] {
        PathLeTransitive(a[1..], b[1..], c[1..]);
      } else if a[0] != b[0] && b[0] != c[0] {
        StringLeTransitive(a[0], b[0], c[0]);
        StringLeTotal(a[0], b[0]);
      }
    }
  }

  predicate IsLeast(x: Path, s: set<Path>) {
    x in s && forall y <- s :: PathLe(x, y)
  }

  lemma {:induction false} LeastExists(s: set<Path>)
    requires s != {}
    ensures exists x :: IsLeast(x, s)
  {
    var x :| x in s;
    var rest := s - {x};
    PathLeTotal(x, x);
    if rest == {} {
      assert s == {x};
      assert IsLeast(x, s);
    } else {
      LeastExists(rest);
      var y :| IsLeast(y, rest);
      LeastOfTwo(s, x, y);
    }
  }

  lemma LeastOfTwo(s: set<Path>, x: Path, y: Path)
    requires x in s && IsLeast(y, s - {x})
    ensures IsLeast(x, s) || IsLeast(y, s)
  {
    PathLeTotal(x, y);
    PathLeTotal(x, x);
    if PathLe(x, y) {
      forall z | z in s ensures PathLe(x, z) {
        if z != x {
          PathLeTransitive(x, y, z);
        }
      }
    } else {
      assert forall z <- s :: z == x || z in s - {x};
    }
  }

  lemma LeastIsUnique(s: set<Path>, x: Path, y: Path)
    requires IsLeast(x, s) && IsLeast(y, s)
    ensures x == y
  {
    PathLeTotal(x, y);
  }

  function Least(s: set<Path>): (x: Path)
    requires s != {}
    ensures IsLeast(x, s)
  {
    LeastExists(s);
    assert forall x, y | IsLeast(x, s) && IsLeast(y, s) :: x == y by {
      forall x, y | IsLeast(x, s) && IsLeast(y, s) ensures x == y {
        LeastIsUnique(s, x, y);
      }
    }
    var x :| x in s && IsLeast(x, s);
    x
  }

  function ByName(s: set<Path>): (r: seq<Path>)
    ensures multiset(r) == multiset(s)
  {
    if s == {} then []
    else
      var x := Least(s);
      assert s == (s - {x}) + {x};
      [x] + ByName(s - {x})
  }

  // ----- As given -----

  /** The elements of s: those that order names in its order, the others behind them by name. */
  function Listed(order: seq<Path>, s: set<Path>): (r: seq<Path>)
    ensures multiset(r) == multiset(s)
  {
    if order == [] then ByName(s)
    else if order[0] in s then
      assert s == (s - {order[0]}) + {order[0]};
      [order[0]] + Listed(order[1..], s - {order[0]})
    else Listed(order[1..], s)
  }

  /** So every order is possible. */
  lemma {:induction false} ListedAsGiven(order: seq<Path>, s: set<Path>)
    requires multiset(order) == multiset(s)
    ensures Listed(order, s) == order
  {
    if order == [] {
      assert |multiset(s)| == 0;
    } else {
      var x, rest := order[0], s - {order[0]};
      assert order == [x] + order[1..];
      assert x in multiset(order);
      assert multiset(order[1..]) == multiset(order) - multiset{x} == multiset(rest);
      ListedAsGiven(order[1..], rest);
    }
  }
}
