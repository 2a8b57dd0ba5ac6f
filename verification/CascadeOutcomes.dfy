/**
 What the answers of the runner make of a teardown: when it succeeds, what its faults come from, and runs in which less
 is promised than one might think (internal/controller/delete_*.go and purge_*.go).
 */
module CascadeOutcomes {
  import opened Listings
  import opened Cascade

  // ----- What answers do -----

  /** Every listing and every call at or below p goes well. */
  ghost predicate Obliging(a: Answers, p: Path) {
    forall q | Within(p, q) :: a.Lists(q) && a.Own(q).ok
  }

  ghost predicate PurgeObliging(a: PurgeAnswers, p: Path) {
    forall q | Within(p, q) :: a.Lists(q) && a.Own(q).ok && Obliging(a.Delete(q), q)
  }

  /** Children are in the way: seen by a delete that does not cascade and is not forced, or found by a stack's. */
  ghost predicate Blocked(store: set<Path>, p: Path, force: bool, cascade: bool) {
    |p| < CELL && !cascade && (!force || |p| == STACK) && Children(store, p) != {}
  }

  lemma VisibleAll(store: set<Path>, p: Path)
    ensures Visible(store, {}, p) == Children(store, p)
  {
  }

  /** When every document is readable and the runner obliges, a cascading delete succeeds. */
  lemma {:induction false} CascadeSucceeds(store: set<Path>, p: Path, force: bool, a: Answers)
    requires IsNode(p) && NoOrphans(store, {}) && Obliging(a, p)
    ensures DeleteRun({}, store, p, force, true, a).ok
    decreases CELL - |p|, 1, 0
  {
    var below := DeleteBelow({}, store, p, force, true, a);
    DeleteBelowKeeps({}, store, p, force, true, a);
    assert Within(p, p);
    if |p| < CELL {
      EachSucceeds(store, p, ListOf(store, {}, p, a.Order(p)), force, a);
    }
    VisibleAll(below.store, p);
  }

  lemma {:induction false} EachSucceeds(store: set<Path>, p: Path, list: seq<Path>, force: bool, a: Answers)
    requires 1 <= |p| < CELL && NoOrphans(store, {}) && Obliging(a, p) && forall q <- list :: IsChild(p, q)
    ensures DeleteEach({}, store, p, list, force, true, a).ok
    decreases CELL - |p|, 0, |list|
  {
    if list != [] {
      var n := |list| - 1;
      EachSucceeds(store, p, list[..n], force, a);
      DeleteEachKeeps({}, store, p, list[..n], force, true, a);
      assert list[n] in list;
      ObligingBelow(a, p, list[n]);
      CascadeSucceeds(DeleteEach({}, store, p, list[..n], force, true, a).store, list[n], force, a);
    }
  }

  lemma ObligingBelow(a: Answers, p: Path, q: Path)
    requires Obliging(a, p) && Within(p, q)
    ensures Obliging(a, q)
  {
  }

  /** So with an obliging runner a delete succeeds exactly when no child is in the way, and removes exactly the subtree
      unless it was forced past the children. */
  lemma DeleteSucceedsExactly(store: set<Path>, p: Path, force: bool, cascade: bool, a: Answers)
    requires IsNode(p) && NoOrphans(store, {}) && Obliging(a, p)
    ensures var r := DeleteRun({}, store, p, force, cascade, a);
            && (r.ok <==> !Blocked(store, p, force, cascade))
            && (!r.ok ==> r.store == store)
            && (r.ok && Careful(p, force, cascade) ==> r.store == Outside(store, p))
            && (r.ok && !Careful(p, force, cascade) ==> r.store <= store && p !in r.store)
  {
    var r := DeleteRun({}, store, p, force, cascade, a);
    DeleteRunKeeps({}, store, p, force, cascade, a);
    VisibleAll(store, p);
    assert Within(p, p);
    if cascade {
      CascadeSucceeds(store, p, force, a);
    } else {
      assert DeleteBelow({}, store, p, force, cascade, a).store == store;
      forall q | q in Children(store, p) ensures p in store {
        assert q[..|q| - 1] == p;
      }
    }
    if r.ok && Careful(p, force, cascade) {
      GoneWithSubtree(store, r.store, p);
    }
  }

  /** When every document is readable and the runner obliges, a cascading purge succeeds too. */
  lemma {:induction false} PurgeSucceeds(store: set<Path>, p: Path, force: bool, cascade: bool, a: PurgeAnswers)
    requires IsNode(p) && NoOrphans(store, {}) && PurgeObliging(a, p) && (cascade || |p| == CELL)
    ensures PurgeRun({}, store, p, force, cascade, a).ok && PurgeBelow({}, store, p, force, cascade, a).ok
    decreases CELL - |p|, 1, 0
  {
    var below := PurgeBelow({}, store, p, force, cascade, a);
    PurgeBelowKeeps({}, store, p, force, cascade, a);
    assert Within(p, p);
    if |p| < CELL {
      EachPurgeSucceeds(store, p, ListOf(store, {}, p, a.Order(p)), force, a);
    }
    assert below.ok;
    CellsOrCascade(below.store, p, force, cascade, a.Delete(p));
  }

  lemma CellsOrCascade(store: set<Path>, p: Path, force: bool, cascade: bool, a: Answers)
    requires IsNode(p) && NoOrphans(store, {}) && Obliging(a, p) && (cascade || |p| == CELL)
    ensures DeleteRun({}, store, p, force, cascade, a).ok
  {
    DeleteSucceedsExactly(store, p, force, cascade, a);
  }

  lemma {:induction false} EachPurgeSucceeds(store: set<Path>, p: Path, list: seq<Path>, force: bool, a: PurgeAnswers)
    requires 1 <= |p| < CELL && NoOrphans(store, {}) && PurgeObliging(a, p) && forall q <- list :: IsChild(p, q)
    ensures PurgeEach({}, store, p, list, force, a).ok
    decreases CELL - |p|, 0, |list|
  {
    if list != [] {
      var n := |list| - 1;
      EachPurgeSucceeds(store, p, list[..n], force, a);
      PurgeEachKeeps({}, store, p, list[..n], force, a);
      assert list[n] in list;
      PurgeObligingBelow(a, p, list[n]);
      PurgeSucceeds(PurgeEach({}, store, p, list[..n], force, a).store, list[n], force, |list[n]| < CELL, a);
    }
  }

  lemma PurgeObligingBelow(a: PurgeAnswers, p: Path, q: Path)
    requires PurgeObliging(a, p) && Within(p, q)
    ensures PurgeObliging(a, q)
  {
  }

  /** And removes exactly the subtree, whichever node it is of. */
  lemma PurgeRemovesSubtree(store: set<Path>, p: Path, force: bool, a: PurgeAnswers)
    requires IsNode(p) && NoOrphans(store, {}) && PurgeObliging(a, p)
    ensures var r := PurgeRun({}, store, p, force, true, a); r.ok && r.faults == 0 && r.store == Outside(store, p)
    ensures |p| == 1 ==>
      var r := PurgeRealmRun({}, store, p, force, true, a); r.ok && r.faults == 0 && r.store == Outside(store, p)
  {
    PurgeSucceeds(store, p, force, true, a);
    PurgeRunKeeps({}, store, p, force, true, a);
    GoneWithSubtree(store, PurgeRun({}, store, p, force, true, a).store, p);
    if |p| == 1 {
      RealmPurgeSucceeds(store, p, force, a);
      RealmSuccessIsExact(store, p, force, true, a);
    }
  }

  lemma RealmPurgeSucceeds(store: set<Path>, p: Path, force: bool, a: PurgeAnswers)
    requires |p| == 1 && NoOrphans(store, {}) && PurgeObliging(a, p)
    ensures var r := PurgeRealmRun({}, store, p, force, true, a); r.ok && r.faults == 0
  {
    assert Within(p, p);
    if p in store {
      var below := PurgeBelow({}, store, p, force, true, a);
      PurgeSucceeds(store, p, force, true, a);
      PurgeBelowKeeps({}, store, p, force, true, a);
      CellsOrCascade(below.store, p, force, true, a.Delete(p));
      DeleteRunKeeps({}, below.store, p, force, true, a.Delete(p));
    }
  }

  /** A purge by an obliging runner, too, fails exactly when a child is in the way, and then leaves everything. */
  lemma PurgeSucceedsExactly(store: set<Path>, p: Path, force: bool, cascade: bool, a: PurgeAnswers)
    requires IsNode(p) && NoOrphans(store, {}) && PurgeObliging(a, p)
    ensures var r := PurgeRun({}, store, p, force, cascade, a);
            (r.ok <==> !Blocked(store, p, force, cascade)) && (!r.ok ==> r.store == store)
    ensures |p| == 1 ==>
      var r := PurgeRealmRun({}, store, p, force, cascade, a);
      (r.ok <==> !(p in store && Blocked(store, p, force, cascade))) && (!r.ok ==> r.store == store)
  {
    assert Within(p, p);
    VisibleAll(store, p);
    if cascade {
      PurgeRemovesSubtree(store, p, force, a);
    } else {
      assert PurgeBelow({}, store, p, force, cascade, a).store == store;
      DeleteSucceedsExactly(store, p, force, cascade, a.Delete(p));
    }
  }

  /** A fault is always the runner's: an answer at or below the node that did not go well, or a child in the way. */
  lemma FaultsHaveCauses(store: set<Path>, p: Path, force: bool, cascade: bool, a: Answers)
    requires IsNode(p) && NoOrphans(store, {}) && DeleteRun({}, store, p, force, cascade, a).faults > 0
    ensures Blocked(store, p, force, cascade) || exists q | Within(p, q) :: !a.Lists(q) || !a.Own(q).ok
  {
    DeleteRunKeeps({}, store, p, force, cascade, a);
    if Obliging(a, p) {
      DeleteSucceedsExactly(store, p, force, cascade, a);
    }
  }

  /** And success needs the answers: the node's own call went well, and its listing when it was made. */
  lemma SuccessIsAnswered(hidden: set<Path>, store: set<Path>, p: Path, force: bool, cascade: bool, a: Answers)
    requires IsNode(p) && DeleteRun(hidden, store, p, force, cascade, a).ok
    ensures a.Own(p).ok && (Ignores(p, force, cascade) || a.Lists(p))
  {
  }

  // ----- Runs in which less is promised -----

  /** With nothing to see below it, a cascading teardown goes straight to the node. */
  lemma NothingBelow(store: set<Path>, hidden: set<Path>, p: Path, a: Answers)
    requires 1 <= |p| < CELL && a.Lists(p) && forall q <- store :: q == p || q in hidden
    ensures DeleteBelow(hidden, store, p, false, true, a) == Still(store, 0, true)
  {
    NoVisible(store, hidden, p, a.Order(p));
    assert DeleteEach(hidden, store, p, [], false, true, a) == Still(store, 0, true);
  }

  lemma NothingBelowPurged(store: set<Path>, hidden: set<Path>, p: Path, a: PurgeAnswers)
    requires 1 <= |p| < CELL && a.Lists(p) && forall q <- store :: q == p || q in hidden
    ensures PurgeBelow(hidden, store, p, false, true, a) == Still(store, 0, true)
  {
    NoVisible(store, hidden, p, a.Order(p));
    assert PurgeEach(hidden, store, p, [], false, a) == Still(store, 0, true);
  }

  /** A realm purge that reports success and leaves the realm's document: its delete failed, and clearing the
      directory too. */
  lemma PurgeLeavesRealm(r: string, a: PurgeAnswers)
    requires a.Lists([r]) && a.Own([r]) == Call(true, {})
    requires a.Delete([r]).Lists([r]) && a.Delete([r]).Own([r]) == Call(false, {})
    ensures var run := PurgeRealmRun({}, {[r]}, [r], false, true, a); run.ok && [r] in run.store
  {
    var p := [r];
    NothingBelow({p}, {}, p, a.Delete(p));
    NothingBelowPurged({p}, {}, p, a);
    assert Without({p}, p, false, {}) == {p} && Without({p}, p, true, {}) == {p};
    assert DeleteRun({}, {p}, p, false, true, a.Delete(p)).store == {p};
  }

  /** A realm delete that succeeds and orphans a space: its document could not be read, so the listing skipped it. */
  lemma HiddenSpaceIsOrphaned(r: string, s: string, a: Answers)
    requires a.Lists([r]) && a.Own([r]) == Call(true, {})
    ensures var realm, space := [r], [r, s];
            var run := DeleteRun({space}, {realm, space}, realm, false, true, a);
            run.ok && run.store == {space}
  {
    NothingBelow({[r], [r, s]}, {[r, s]}, [r], a);
    assert Without({[r], [r, s]}, [r], false, {[r]}) == {[r, s]};
  }

  /** And one forced without cascade, which orphans a readable space. */
  lemma ForcedDeleteOrphans(r: string, s: string, a: Answers)
    requires a.Own([r]) == Call(true, {})
    ensures var realm, space := [r], [r, s];
            var run := DeleteRun({}, {realm, space}, realm, true, false, a);
            run.ok && run.store == {space} && !NoOrphans(run.store, {})
  {
    var store := {[r], [r, s]};
    assert DeleteBelow({}, store, [r], true, false, a) == Still(store, 0, true);
    assert Without(store, [r], false, {[r]}) == {[r, s]};
    assert DeleteRun({}, store, [r], true, false, a).store == {[r, s]};
    assert [r, s][..1] == [r];
  }

  lemma NoVisible(store: set<Path>, hidden: set<Path>, p: Path, order: seq<Path>)
    requires forall q <- store :: q == p || q in hidden
    ensures Visible(store, hidden, p) == {} && ListOf(store, hidden, p, order) == []
  {
    assert Visible(store, hidden, p) == {};
    assert |multiset(ListOf(store, hidden, p, order))| == 0;
  }
}
