/**
 The order in which a set of documents is applied or deleted
 (internal/controller/documents.go).
 */
module Documents {
  import opened Order

  datatype Kind =
    | Realm | Space | Stack | Cell | Container | Secret | CellBlueprint | CellConfig | Volume
    | Unknown(name: string)

  datatype Document<+T> = Document(index: nat, kind: Kind, payload: T)

  /** The rank a kind gets: each scope-targeting kind one past the kinds entered before it; a kind the
      map does not hold reads as 0. */
  function Rank(k: Kind): nat {
    match k
    case Realm => 1
    case Space => 2
    case Stack => 3
    case Cell => 4
    case Container => 5
    case Secret => 6
    case CellBlueprint => 7
    case CellConfig => 8
    case Volume => 9
    case Unknown(_) => 0
  }

  /** a may come before b: by rank (descending when reversed), then by index. */
  predicate Precedes<T>(reverse: bool, a: Document<T>, b: Document<T>) {
    if Rank(a.kind) != Rank(b.kind) then (if reverse then Rank(a.kind) > Rank(b.kind) else Rank(a.kind) < Rank(b.kind))
    else a.index <= b.index
  }

  ghost predicate DistinctIndices<T>(docs: seq<Document<T>>) {
    forall a, b | a in docs && b in docs && a.index == b.index :: a == b
  }

  lemma PrecedesIsPreorder<T(!new)>(reverse: bool)
    ensures TotalPreorder((a: Document<T>, b: Document<T>) => Precedes(reverse, a, b))
  {
  }

  ghost predicate InOrder<T>(reverse: bool, docs: seq<Document<T>>) {
    forall i, j | 0 <= i < j < |docs| :: Precedes(reverse, docs[i], docs[j])
  }

  /** SortDocumentsByKind */
  method SortDocumentsByKind<T(!new)>(docs: seq<Document<T>>, reverse: bool) returns (r: seq<Document<T>>)
    ensures multiset(r) == multiset(docs)
    ensures InOrder(reverse, r)
  {
    PrecedesIsPreorder<T>(reverse);
    r := Sort((a: Document<T>, b: Document<T>) => Precedes(reverse, a, b), docs);
  }

  /** With distinct indices the processing order is the only one there is, whatever the sort routine does. */
  lemma OrderIsUnique<T(!new)>(reverse: bool, docs: seq<Document<T>>, r: seq<Document<T>>, r': seq<Document<T>>)
    requires DistinctIndices(docs)
    requires multiset(r) == multiset(docs) == multiset(r')
    requires InOrder(reverse, r) && InOrder(reverse, r')
    ensures r == r'
  {
    PrecedesIsPreorder<T>(reverse);
    forall a, b | a in r && b in r && Precedes(reverse, a, b) && Precedes(reverse, b, a) ensures a == b {
      assert a in multiset(docs) && b in multiset(docs);
      assert a in docs && b in docs;
    }
    SortedUnique((a: Document<T>, b: Document<T>) => Precedes(reverse, a, b), r, r');
  }

  // ----- References between documents -----

  /**
   What a document needs to be there when it is applied: the scopes it is placed in, a config its blueprint, and a
   cell or container, whose containers are created and started at once, the secrets and volumes they use.
   */
  predicate RefersTo(k: Kind, dep: Kind) {
    match k
    case Space => dep == Realm
    case Stack => dep in {Realm, Space}
    case Cell => dep in {Realm, Space, Stack, Secret, Volume}
    case Container => dep in {Realm, Space, Stack, Cell, Secret, Volume}
    case Secret => dep in {Realm, Space, Stack, Cell}
    case CellBlueprint | Volume => dep in {Realm, Space, Stack}
    case CellConfig => dep in {Realm, Space, Stack, CellBlueprint}
    case _ => false
  }

  /** A reference the kind order has the wrong way round. */
  predicate Late(k: Kind, dep: Kind) {
    k in {Cell, Container} && dep in {Secret, Volume}
  }

  /** Applied in order, what a document refers to comes before it exactly when it is not a cell's or container's secret
      or volume; and the mirror image in reverse. */
  lemma DependenciesFirst<T>(reverse: bool, docs: seq<Document<T>>, i: nat, j: nat)
    requires InOrder(reverse, docs) && i < |docs| && j < |docs| && RefersTo(docs[j].kind, docs[i].kind)
    ensures i < j <==> (Late(docs[j].kind, docs[i].kind) <==> reverse)
  {
    assert Rank(docs[i].kind) < Rank(docs[j].kind) <==> !Late(docs[j].kind, docs[i].kind);
    assert Rank(docs[i].kind) != Rank(docs[j].kind);
    assert Precedes(reverse, docs[i], docs[j]) <==> !Precedes(reverse, docs[j], docs[i]);
  }

  /** No other ranking of the kinds would do: a cell may need a secret, and a secret may be scoped to a cell. */
  lemma NoRankingFits(rank: Kind -> int)
    ensures exists k, dep :: RefersTo(k, dep) && rank(dep) >= rank(k)
  {
    assert RefersTo(Cell, Secret) && RefersTo(Secret, Cell);
  }

  /** A volume and a cell, in whatever order they are given, are applied cell first. */
  lemma CellBeforeItsVolume<T>(volume: Document<T>, cell: Document<T>, r: seq<Document<T>>)
    requires volume.kind == Volume && cell.kind == Cell
    requires InOrder(false, r) && multiset(r) == multiset{volume, cell}
    ensures r == [cell, volume]
  {
    assert |multiset(r)| == 2;
    assert r[0] in multiset(r) && r[1] in multiset(r);
    assert volume in multiset(r) && cell in multiset(r);
  }
}
