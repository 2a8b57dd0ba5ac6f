/**
 The controller's teardown methods against the runner, following the runs of Cascade
 (internal/controller/delete_*.go and purge_*.go).
 */
module Teardown {
  import opened Cascade
  import opened Listings

  // ----- The loops over children -----

  /** The loop stops at the first failure. */
  lemma {:induction false} DeleteEachStops(hidden: set<Path>, store: set<Path>, p: Path, list: seq<Path>,
                                           force: bool, cascade: bool, a: Answers, i: nat)
    requires 1 <= |p| < CELL && (forall q <- list :: IsChild(p, q)) && i <= |list|
    requires !DeleteEach(hidden, store, p, list[..i], force, cascade, a).ok
    ensures DeleteEach(hidden, store, p, list, force, cascade, a) ==
            DeleteEach(hidden, store, p, list[..i], force, cascade, a)
    decreases |list|
  {
    if i == |list| {
      assert list[..i] == list;
    } else {
      var n := |list| - 1;
      assert list[..n][..i] == list[..i];
      DeleteEachStops(hidden, store, p, list[..n], force, cascade, a, i);
    }
  }

  /** One more child. */
  lemma DeleteEachNext(hidden: set<Path>, store: set<Path>, p: Path, list: seq<Path>, force: bool, cascade: bool,
                       a: Answers, i: nat)
    requires 1 <= |p| < CELL && (forall q <- list :: IsChild(p, q)) && i < |list|
    requires DeleteEach(hidden, store, p, list[..i], force, cascade, a).ok
    ensures list[i] in list
    ensures var before := DeleteEach(hidden, store, p, list[..i], force, cascade, a);
            DeleteEach(hidden, store, p, list[..i + 1], force, cascade, a) ==
            Then(before, DeleteRun(hidden, before.store, list[i], force, cascade, a))
  {
    assert list[i] in list;
    assert list[..i + 1][..i] == list[..i];
  }

  lemma {:induction false} PurgeEachStops(hidden: set<Path>, store: set<Path>, p: Path, list: seq<Path>,
                                          force: bool, a: PurgeAnswers, i: nat)
    requires 1 <= |p| < CELL && (forall q <- list :: IsChild(p, q)) && i <= |list|
    requires !PurgeEach(hidden, store, p, list[..i], force, a).ok
    ensures PurgeEach(hidden, store, p, list, force, a) == PurgeEach(hidden, store, p, list[..i], force, a)
    decreases |list|
  {
    if i == |list| {
      assert list[..i] == list;
    } else {
      var n := |list| - 1;
      assert list[..n][..i] == list[..i];
      PurgeEachStops(hidden, store, p, list[..n], force, a, i);
    }
  }

  lemma PurgeEachNext(hidden: set<Path>, store: set<Path>, p: Path, list: seq<Path>, force: bool, a: PurgeAnswers,
                      i: nat)
    requires 1 <= |p| < CELL && (forall q <- list :: IsChild(p, q)) && i < |list|
    requires PurgeEach(hidden, store, p, list[..i], force, a).ok
    ensures list[i] in list
    ensures var before := PurgeEach(hidden, store, p, list[..i], force, a);
            PurgeEach(hidden, store, p, list[..i + 1], force, a) ==
            Then(before, PurgeRun(hidden, before.store, list[i], force, |list[i]| < CELL, a))
  {
    assert list[i] in list;
    assert list[..i + 1][..i] == list[..i];
  }

  /** A run after a run. */
  lemma Joined(states: seq<set<Path>>, cleared: seq<Path>, a: Run, b: Run)
    ensures states + a.states + b.states == states + Then(a, b).states
    ensures cleared + a.cleared + b.cleared == cleared + Then(a, b).cleared
  {
  }

  lemma EmptyListing(store: set<Path>, hidden: set<Path>, p: Path, order: seq<Path>)
    ensures ListOf(store, hidden, p, order) == [] <==> Visible(store, hidden, p) == {}
  {
    assert |multiset(ListOf(store, hidden, p, order))| == |ListOf(store, hidden, p, order)|;
  }

  // ----- The methods -----

  class Runner {
    var store: set<Path>
    const hidden: set<Path>
    /** Every state so far, how many calls failed, and the nodes cleared. */
    ghost var states: seq<set<Path>>
    ghost var faults: nat
    ghost var cleared: seq<Path>

    constructor (store: set<Path>, hidden: set<Path>)
      ensures this.store == store && this.hidden == hidden && states == [] && faults == 0 && cleared == []
    {
      this.store, this.hidden := store, hidden;
      states, faults, cleared := [], 0, [];
    }

    /** The store and the log have moved on by a run. */
    twostate predicate Did(r: Run)
      reads this
    {
      && store == r.store
      && states == old(states) + r.states
      && faults == old(faults) + r.faults
      && cleared == old(cleared) + r.cleared
    }

    /** Logs a run. */
    ghost method Log(r: Run)
      modifies this`states, this`faults, this`cleared
      ensures states == old(states) + r.states && faults == old(faults) + r.faults
      ensures cleared == old(cleared) + r.cleared
    {
      states, faults, cleared := states + r.states, faults + r.faults, cleared + r.cleared;
    }

    /** ListSpaces, ListStacks or ListCells. */
    method List(p: Path, listed: bool, order: seq<Path>) returns (children: seq<Path>)
      modifies this`faults
      ensures faults == if listed then old(faults) else old(faults) + 1
      ensures children == if listed then ListOf(store, hidden, p, order) else []
    {
      children := [];
      if listed {
        children := ListOf(store, hidden, p, order);
      } else {
        faults := faults + 1;
      }
    }

    /** runner.DeleteX */
    method Delete(p: Path, c: Call) returns (ok: bool)
      modifies this
      ensures Did(DeleteCall(old(store), p, c)) && ok == DeleteCall(old(store), p, c).ok
    {
      ghost var r := DeleteCall(store, p, c);
      if p !in store || (|p| == STACK && Children(store, p) != {}) {
        ok := c.ok && p !in store;
      } else {
        ok := c.ok;
        store := Without(store, p, |p| > 1, if c.ok then c.removed + {p} else c.removed);
      }
      Log(r);
    }

    /** runner.PurgeX */
    method Purge(p: Path, c: Call) returns (ok: bool)
      modifies this
      ensures Did(PurgeCall(old(store), p, c)) && ok == PurgeCall(old(store), p, c).ok
    {
      ghost var r := PurgeCall(store, p, c);
      ok := c.ok;
      store := Without(store, p, true, c.removed);
      Log(r);
    }

    /** deleteRealmCascade, deleteSpaceCascade, deleteStackCascade and deleteCellInternal. */
    method DeleteCascade(p: Path, force: bool, cascade: bool, a: Answers) returns (ok: bool)
      requires IsNode(p)
      modifies this
      ensures Did(DeleteRun(hidden, old(store), p, force, cascade, a))
      ensures ok == DeleteRun(hidden, old(store), p, force, cascade, a).ok
      decreases CELL - |p|, 2
    {
      ok := DeleteFirst(p, force, cascade, a);
      if ok {
        ghost var below := DeleteBelow(hidden, old(store), p, force, cascade, a);
        ok := Delete(p, a.Own(p));
        Joined(old(states), old(cleared), below, DeleteCall(below.store, p, a.Own(p)));
      }
    }

    /** The part before the node itself. */
    method DeleteFirst(p: Path, force: bool, cascade: bool, a: Answers) returns (ok: bool)
      requires IsNode(p)
      modifies this
      ensures Did(DeleteBelow(hidden, old(store), p, force, cascade, a))
      ensures ok == DeleteBelow(hidden, old(store), p, force, cascade, a).ok
      decreases CELL - |p|, 1
    {
      if Ignores(p, force, cascade) {
        return true;
      }
      var children := List(p, a.Lists(p), a.Order(p));
      if !a.Lists(p) {
        return false;
      }
      EmptyListing(store, hidden, p, a.Order(p));
      if cascade {
        ok := DeleteChildren(p, children, force, cascade, a);
      } else {
        ok := children == [];
      }
    }

    method DeleteChildren(p: Path, children: seq<Path>, force: bool, cascade: bool, a: Answers) returns (ok: bool)
      requires 1 <= |p| < CELL && forall q <- children :: IsChild(p, q)
      modifies this
      ensures Did(DeleteEach(hidden, old(store), p, children, force, cascade, a))
      ensures ok == DeleteEach(hidden, old(store), p, children, force, cascade, a).ok
      decreases CELL - |p|, 0
    {
      for i := 0 to |children|
        invariant DeleteEach(hidden, old(store), p, children[..i], force, cascade, a).ok
        invariant Did(DeleteEach(hidden, old(store), p, children[..i], force, cascade, a))
      {
        ghost var before := DeleteEach(hidden, old(store), p, children[..i], force, cascade, a);
        assert children[i] in children;
        var deleted := DeleteCascade(children[i], force, cascade, a);
        DeleteEachNext(hidden, old(store), p, children, force, cascade, a, i);
        Joined(old(states), old(cleared), before, DeleteRun(hidden, before.store, children[i], force, cascade, a));
        if !deleted {
          DeleteEachStops(hidden, old(store), p, children, force, cascade, a, i + 1);
          return false;
        }
      }
      assert children[..|children|] == children;
      ok := true;
    }

    /** purgeSpaceCascade, purgeStackCascade and purgeCellCascade. */
    method PurgeCascade(p: Path, force: bool, cascade: bool, a: PurgeAnswers) returns (ok: bool)
      requires IsNode(p)
      modifies this
      ensures Did(PurgeRun(hidden, old(store), p, force, cascade, a))
      ensures ok == PurgeRun(hidden, old(store), p, force, cascade, a).ok
      decreases CELL - |p|, 2
    {
      ok := PurgeFirst(p, force, cascade, a);
      if ok {
        ghost var below := PurgeBelow(hidden, old(store), p, force, cascade, a);
        ok := DeleteAndPurge(p, force, cascade, a);
        Joined(old(states), old(cleared), below, DeleteThenClear(hidden, below.store, p, force, cascade, a));
      }
    }

    /** The part before the node itself. */
    method PurgeFirst(p: Path, force: bool, cascade: bool, a: PurgeAnswers) returns (ok: bool)
      requires IsNode(p)
      modifies this
      ensures Did(PurgeBelow(hidden, old(store), p, force, cascade, a))
      ensures ok == PurgeBelow(hidden, old(store), p, force, cascade, a).ok
      decreases CELL - |p|, 1
    {
      if Ignores(p, force, cascade) {
        return true;
      }
      var children := List(p, a.Lists(p), a.Order(p));
      if !a.Lists(p) {
        return false;
      }
      EmptyListing(store, hidden, p, a.Order(p));
      if cascade {
        ok := PurgeChildren(p, children, force, a);
      } else {
        ok := children == [];
      }
    }

    /** The delete and, if it succeeds, the purge of the node itself. */
    method DeleteAndPurge(p: Path, force: bool, cascade: bool, a: PurgeAnswers) returns (ok: bool)
      requires IsNode(p)
      modifies this
      ensures Did(DeleteThenClear(hidden, old(store), p, force, cascade, a))
      ensures ok == DeleteThenClear(hidden, old(store), p, force, cascade, a).ok
    {
      ok := DeleteCascade(p, force, cascade, a.Delete(p));
      if !ok {
        return;
      }
      ghost var deleted := DeleteRun(hidden, old(store), p, force, cascade, a.Delete(p));
      ok := Purge(p, a.Own(p));
      Joined(old(states), old(cleared), deleted, PurgeCall(deleted.store, p, a.Own(p)));
    }

    method PurgeChildren(p: Path, children: seq<Path>, force: bool, a: PurgeAnswers) returns (ok: bool)
      requires 1 <= |p| < CELL && forall q <- children :: IsChild(p, q)
      modifies this
      ensures Did(PurgeEach(hidden, old(store), p, children, force, a))
      ensures ok == PurgeEach(hidden, old(store), p, children, force, a).ok
      decreases CELL - |p|, 0
    {
      for i := 0 to |children|
        invariant PurgeEach(hidden, old(store), p, children[..i], force, a).ok
        invariant Did(PurgeEach(hidden, old(store), p, children[..i], force, a))
      {
        ghost var before := PurgeEach(hidden, old(store), p, children[..i], force, a);
        assert children[i] in children;
        var purged := PurgeCascade(children[i], force, |children[i]| < CELL, a);
        PurgeEachNext(hidden, old(store), p, children, force, a, i);
        Joined(old(states), old(cleared), before,
               PurgeRun(hidden, before.store, children[i], force, |children[i]| < CELL, a));
        if !purged {
          PurgeEachStops(hidden, old(store), p, children, force, a, i + 1);
          return false;
        }
      }
      assert children[..|children|] == children;
      ok := true;
    }

    /** purgeRealmCascade; metadataExists is what the caller's lookup found. */
    method PurgeRealmCascade(p: Path, force: bool, cascade: bool, metadataExists: bool, a: PurgeAnswers)
      returns (ok: bool)
      requires |p| == 1 && (metadataExists <==> p in store)
      modifies this
      ensures Did(PurgeRealmRun(hidden, old(store), p, force, cascade, a))
      ensures ok == PurgeRealmRun(hidden, old(store), p, force, cascade, a).ok
    {
      if !metadataExists {
        ok := Purge(p, a.Own(p));
        return;
      }
      ok := PurgeFirst(p, force, cascade, a);
      if ok {
        ghost var below := PurgeBelow(hidden, old(store), p, force, cascade, a);
        ok := DeleteAndPurgeAnyway(p, force, cascade, a);
        Joined(old(states), old(cleared), below, DeleteAndClear(hidden, below.store, p, force, cascade, a));
      }
    }

    /** The delete, and the purge whatever became of it. */
    method DeleteAndPurgeAnyway(p: Path, force: bool, cascade: bool, a: PurgeAnswers) returns (ok: bool)
      requires IsNode(p)
      modifies this
      ensures Did(DeleteAndClear(hidden, old(store), p, force, cascade, a))
      ensures ok == DeleteAndClear(hidden, old(store), p, force, cascade, a).ok
    {
      var deleted := DeleteCascade(p, force, cascade, a.Delete(p));
      ghost var run := DeleteRun(hidden, old(store), p, force, cascade, a.Delete(p));
      ok := Purge(p, a.Own(p));
      Joined(old(states), old(cleared), run, PurgeCall(run.store, p, a.Own(p)));
    }
  }
}
