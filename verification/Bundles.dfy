/**
 Applying the documents of one file together: which bundles go through in the order the documents are sorted into
 (internal/controller/apply.go:106-343, documents.go).
 */
module Bundles {
  import opened Documents

  datatype Object = Object(kind: Kind, id: string)

  /** What a document describes and what it needs. */
  datatype Spec = Spec(id: string, needs: set<Object>)

  function ObjectOf(d: Document<Spec>): Object { Object(d.kind, d.payload.id) }

  ghost function Objects(docs: seq<Document<Spec>>): set<Object> {
    set d | d in docs :: ObjectOf(d)
  }

  ghost predicate WellKinded(docs: seq<Document<Spec>>) {
    forall d, o | d in docs && o in d.payload.needs :: RefersTo(d.kind, o.kind)
  }

  /** Applied one after the other, every document finds what it needs. */
  ghost predicate AppliesInFull(there: set<Object>, docs: seq<Document<Spec>>)
    decreases docs
  {
    docs == [] || (docs[0].payload.needs <= there && AppliesInFull(there + {ObjectOf(docs[0])}, docs[1..]))
  }

  /** What document d needs is there before, or is in the bundle and not a secret or volume of a cell or container. */
  ghost predicate InReach(there: set<Object>, docs: seq<Document<Spec>>, d: Document<Spec>) {
    forall o <- d.payload.needs :: o in there || (o in Objects(docs) && !Late(d.kind, o.kind))
  }

  /** Document j finds what it needs once those before it are applied. */
  ghost predicate MetAt(there: set<Object>, docs: seq<Document<Spec>>, j: nat)
    requires j < |docs|
  {
    docs[j].payload.needs <= there + Objects(docs[..j])
  }

  lemma MetLater(there: set<Object>, docs: seq<Document<Spec>>, j: nat)
    requires 0 < j < |docs|
    ensures MetAt(there, docs, j) <==> MetAt(there + {ObjectOf(docs[0])}, docs[1..], j - 1)
  {
    var before := docs[1..][..j - 1];
    assert docs[..j] == [docs[0]] + before;
    assert Objects(docs[..j]) == {ObjectOf(docs[0])} + Objects(before);
  }

  lemma {:induction false} AppliesExactly(there: set<Object>, docs: seq<Document<Spec>>)
    ensures AppliesInFull(there, docs) <==> forall j | 0 <= j < |docs| :: MetAt(there, docs, j)
    decreases docs
  {
    if docs != [] {
      var now, rest := there + {ObjectOf(docs[0])}, docs[1..];
      AppliesExactly(now, rest);
      assert MetAt(there, docs, 0) <==> docs[0].payload.needs <= there;
      forall j | 0 < j < |docs| ensures MetAt(there, docs, j) <==> MetAt(now, rest, j - 1) {
        MetLater(there, docs, j);
      }
      forall j | 0 <= j < |rest| ensures MetAt(now, rest, j) <==> MetAt(there, docs, j + 1) {
        MetLater(there, docs, j + 1);
      }
    }
  }

  /** A bundle is applied in full, in the order the sort gives it, exactly when everything it needs is there before, or
      is in the bundle and not a secret or volume of a cell or container. */
  lemma BundleAppliesExactly(there: set<Object>, docs: seq<Document<Spec>>)
    requires InOrder(false, docs) && WellKinded(docs)
    ensures AppliesInFull(there, docs) <==> forall d <- docs :: InReach(there, docs, d)
  {
    AppliesExactly(there, docs);
    forall j | 0 <= j < |docs| ensures MetAt(there, docs, j) <==> InReach(there, docs, docs[j]) {
      forall o | o in docs[j].payload.needs
        ensures o in Objects(docs[..j]) <==> o in Objects(docs) && !Late(docs[j].kind, o.kind)
      {
        NeedIsMet(docs, j, o);
      }
    }
    if forall d <- docs :: InReach(there, docs, d) {
      assert forall j | 0 <= j < |docs| :: docs[j] in docs;
    }
  }

  lemma NeedIsMet(docs: seq<Document<Spec>>, j: nat, o: Object)
    requires InOrder(false, docs) && WellKinded(docs) && j < |docs| && o in docs[j].payload.needs
    ensures o in Objects(docs[..j]) <==> o in Objects(docs) && !Late(docs[j].kind, o.kind)
  {
    assert docs[j] in docs;
    forall i | 0 <= i < |docs| && ObjectOf(docs[i]) == o
      ensures o in Objects(docs) && (i < j ==> o in Objects(docs[..j])) && (i < j <==> !Late(docs[j].kind, o.kind))
    {
      assert docs[i] in docs && (i < j ==> docs[..j][i] == docs[i]);
      DependenciesFirst(false, docs, i, j);
    }
  }

  /** A volume and a cell that mounts it do not go through together; with the volume there before they do. */
  lemma CellWithItsVolume(volume: Document<Spec>, cell: Document<Spec>, there: set<Object>, r: seq<Document<Spec>>)
    requires volume.kind == Volume && cell.kind == Cell
    requires volume.payload.needs <= there && cell.payload.needs == {ObjectOf(volume)}
    requires InOrder(false, r) && multiset(r) == multiset{volume, cell}
    ensures AppliesInFull(there, r) <==> ObjectOf(volume) in there
  {
    CellBeforeItsVolume(volume, cell, r);
    var now := there + {ObjectOf(cell)};
    assert r[1..] == [volume] && AppliesInFull(now + {ObjectOf(volume)}, [volume][1..]);
    assert AppliesInFull(now, [volume]);
  }
}
