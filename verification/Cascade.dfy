/**
 Cascading delete and purge over the Realm/Space/Stack/Cell tree (internal/controller/delete_*.go and purge_*.go).
 The runner is a store of metadata documents whose every call may fail; a failed call may still have removed part of
 what it was asked to remove. DeleteRun and PurgeRun say what a teardown does for any answers the runner may give.

 Listing a scope skips a child whose document cannot be read (internal/controller/runner/get.go:148-194). Such
 children are the hidden set: the results say that hidden spaces and stacks, and what lies below them, are the only
 documents a teardown can ever orphan.
 */
module Cascade {
  import opened Listings

  const STACK := 3
  const CELL := 4

  /** [realm], [realm, space], [realm, space, stack] or [realm, space, stack, cell]. */
  ghost predicate IsNode(p: Path) {
    1 <= |p| <= CELL
  }

  predicate IsChild(p: Path, q: Path) {
    |q| == |p| + 1 && p <= q
  }

  /** q is p or lies below it. */
  predicate Within(p: Path, q: Path) {
    p <= q
  }

  /** q, or a scope above it below realm level, is a space or stack with an unreadable document. */
  ghost predicate BelowHidden(q: Path, hidden: set<Path>) {
    exists i | 2 <= i <= |q| && i <= STACK :: q[..i] in hidden
  }

  /** Every document's parent is there too, unreadable spaces and stacks and what they hold aside. */
  ghost predicate NoOrphans(store: set<Path>, hidden: set<Path>) {
    forall q <- store :: IsNode(q) && (|q| > 1 ==> q[..|q| - 1] in store || BelowHidden(q, hidden))
  }

  ghost function Outside(store: set<Path>, p: Path): set<Path> {
    set q | q in store && !Within(p, q)
  }

  function Children(store: set<Path>, p: Path): set<Path> {
    set q | q in store && IsChild(p, q)
  }

  function Visible(store: set<Path>, hidden: set<Path>, p: Path): set<Path> {
    set q | q in store && q !in hidden && IsChild(p, q)
  }

  /** Nothing is left below p that removing p could orphan, hidden spaces and stacks aside. */
  ghost predicate Bare(store: set<Path>, hidden: set<Path>, p: Path) {
    p !in store || (if |p| >= STACK then Children(store, p) == {} else Visible(store, hidden, p) == {})
  }

  /** Then only hidden remains are left below p. */
  lemma {:induction false} OnlyHiddenRemain(store: set<Path>, hidden: set<Path>, p: Path, q: Path)
    requires IsNode(p) && NoOrphans(store, hidden) && Bare(store, hidden, p)
    requires q in store && Within(p, q) && q != p
    ensures BelowHidden(q, hidden)
    decreases |q|
  {
    var up := q[..|q| - 1];
    if up == p {
      if p in store {
        assert q in Children(store, p);
        assert q !in hidden ==> q in Visible(store, hidden, p);
        assert q[..|q|] == q;
      }
    } else if up in store {
      OnlyHiddenRemain(store, hidden, p, up);
      var i :| 2 <= i <= |up| && i <= STACK && up[..i] in hidden;
      assert q[..i] == up[..i];
    }
  }

  /** When every document could be read, a removed node takes exactly its subtree with it. */
  lemma GoneWithSubtree(before: set<Path>, store: set<Path>, p: Path)
    requires IsNode(p) && NoOrphans(store, {}) && p !in store
    requires store <= before && Outside(store, p) == Outside(before, p)
    ensures store == Outside(before, p)
  {
    forall q | q in store ensures !Within(p, q) {
      if Within(p, q) {
        OnlyHiddenRemain(store, {}, p, q);
      }
    }
  }

  /** Removing parts of a bare node's subtree orphans nothing. */
  lemma RemovalIsSafe(store: set<Path>, store': set<Path>, hidden: set<Path>, p: Path)
    requires IsNode(p) && NoOrphans(store, hidden) && Bare(store, hidden, p)
    requires store' <= store && Outside(store', p) == Outside(store, p)
    ensures NoOrphans(store', hidden)
  {
    forall q | q in store' && |q| > 1
      ensures q[..|q| - 1] in store' || BelowHidden(q, hidden)
    {
      var up := q[..|q| - 1];
      if Within(p, q) && q != p {
        OnlyHiddenRemain(store, hidden, p, q);
      } else if up in store {
        assert Within(p, up) ==> Within(p, q) && q != p;
        assert up in Outside(store, p);
      }
    }
  }

  // ----- What a run does -----

  /** A teardown call's answer: whether it reports success, and which documents it managed to remove. */
  datatype Call = Call(ok: bool, removed: set<Path>)

  /** The runner's answers to a delete: the nodes whose children it fails to list, the order of its listings, and what
      the teardown call of a node does, which goes well unless told otherwise. No node is deleted twice in one delete,
      so this is any behaviour. */
  datatype Answers = Answers(unlisted: set<Path>, orders: map<Path, seq<Path>>, calls: map<Path, Call>) {
    predicate Lists(p: Path) { p !in unlisted }

    function Order(p: Path): seq<Path> { if p in orders then orders[p] else [] }

    function Own(p: Path): Call { if p in calls then calls[p] else WELL }
  }

  const WELL := Call(true, {})

  /** The same for a purge, which deletes each node before it clears it. */
  datatype PurgeAnswers = PurgeAnswers(
    unlisted: set<Path>, orders: map<Path, seq<Path>>, deletes: map<Path, Answers>, calls: map<Path, Call>)
  {
    predicate Lists(p: Path) { p !in unlisted }

    function Order(p: Path): seq<Path> { if p in orders then orders[p] else [] }

    function Delete(p: Path): Answers { if p in deletes then deletes[p] else Answers({}, map[], map[]) }

    function Own(p: Path): Call { if p in calls then calls[p] else WELL }
  }

  /** The store after a run, every state on the way, the failed calls, the nodes cleared, and what is reported. */
  datatype Run = Run(store: set<Path>, states: seq<set<Path>>, faults: nat, cleared: seq<Path>, ok: bool)

  function Then(a: Run, b: Run): Run {
    Run(b.store, a.states + b.states, a.faults + b.faults, a.cleared + b.cleared, b.ok)
  }

  /** Nothing done, and the given report. */
  function Still(store: set<Path>, faults: nat, ok: bool): Run { Run(store, [], faults, [], ok) }

  function Without(store: set<Path>, p: Path, deep: bool, gone: set<Path>): set<Path> {
    set q | q in store && !(q in gone && Within(p, q) && (deep || q == p))
  }

  /**
   runner.DeleteX. A missing document counts as deleted. DeleteRealm drops one document and DeleteSpace its directory;
   DeleteStack refuses while any cell is left under it, readable or not.
   */
  function DeleteCall(store: set<Path>, p: Path, c: Call): Run {
    if p !in store || (|p| == STACK && Children(store, p) != {}) then
      var ok := c.ok && p !in store;
      Run(store, [store], if ok then 0 else 1, [], ok)
    else
      var s := Without(store, p, |p| > 1, if c.ok then c.removed + {p} else c.removed);
      Run(s, [s], if c.ok then 0 else 1, [], c.ok)
  }

  /** runner.PurgeX: clearing the metadata directory is best effort and not reported. */
  function PurgeCall(store: set<Path>, p: Path, c: Call): Run {
    var s := Without(store, p, true, c.removed);
    Run(s, [s], if c.ok then 0 else 1, [p], c.ok)
  }

  /** The listing of p's children, in the order the runner gives. */
  function ListOf(store: set<Path>, hidden: set<Path>, p: Path, order: seq<Path>): (r: seq<Path>)
    ensures multiset(r) == multiset(Visible(store, hidden, p))
    ensures forall q <- r :: IsChild(p, q) && q !in hidden && q in store
  {
    var r := Listed(order, Visible(store, hidden, p));
    assert forall q <- r :: q in multiset(r);
    r
  }

  /** deleteRealmCascade, deleteSpaceCascade, deleteStackCascade and deleteCellInternal. */
  ghost function DeleteRun(hidden: set<Path>, store: set<Path>, p: Path, force: bool, cascade: bool, a: Answers): Run
    requires IsNode(p)
    decreases CELL - |p|, 2, 0
  {
    var below := DeleteBelow(hidden, store, p, force, cascade, a);
    if below.ok then Then(below, DeleteCall(below.store, p, a.Own(p))) else below
  }

  /** What is done about the children: they are deleted, or there must be none, or they are ignored. */
  ghost function DeleteBelow(hidden: set<Path>, store: set<Path>, p: Path, force: bool, cascade: bool, a: Answers): Run
    requires IsNode(p)
    decreases CELL - |p|, 1, 0
  {
    if Ignores(p, force, cascade) then Still(store, 0, true)
    else if !a.Lists(p) then Still(store, 1, false)
    else if cascade then DeleteEach(hidden, store, p, ListOf(store, hidden, p, a.Order(p)), force, cascade, a)
    else Still(store, 0, Visible(store, hidden, p) == {})
  }

  /** The children are not even listed. */
  predicate Ignores(p: Path, force: bool, cascade: bool) { |p| >= CELL || (force && !cascade) }

  /** The loop over listed children, which stops at the first that fails. */
  ghost function DeleteEach(hidden: set<Path>, store: set<Path>, p: Path, list: seq<Path>, force: bool,
                            cascade: bool, a: Answers): Run
    requires 1 <= |p| < CELL && forall q <- list :: IsChild(p, q)
    decreases CELL - |p|, 0, |list|
  {
    if list == [] then Still(store, 0, true)
    else
      var n := |list| - 1;
      var before := DeleteEach(hidden, store, p, list[..n], force, cascade, a);
      assert list[n] in list && IsChild(p, list[n]);
      if before.ok then Then(before, DeleteRun(hidden, before.store, list[n], force, cascade, a)) else before
  }

  /** purgeSpaceCascade, purgeStackCascade and purgeCellCascade. */
  ghost function PurgeRun(hidden: set<Path>, store: set<Path>, p: Path, force: bool, cascade: bool, a: PurgeAnswers)
    : Run
    requires IsNode(p)
    decreases CELL - |p|, 2, 0
  {
    var below := PurgeBelow(hidden, store, p, force, cascade, a);
    if below.ok then Then(below, DeleteThenClear(hidden, below.store, p, force, cascade, a)) else below
  }

  ghost function PurgeBelow(hidden: set<Path>, store: set<Path>, p: Path, force: bool, cascade: bool, a: PurgeAnswers)
    : Run
    requires IsNode(p)
    decreases CELL - |p|, 1, 0
  {
    if Ignores(p, force, cascade) then Still(store, 0, true)
    else if !a.Lists(p) then Still(store, 1, false)
    else if cascade then PurgeEach(hidden, store, p, ListOf(store, hidden, p, a.Order(p)), force, a)
    else Still(store, 0, Visible(store, hidden, p) == {})
  }

  /** The delete and, if it succeeds, the comprehensive purge. */
  ghost function DeleteThenClear(hidden: set<Path>, store: set<Path>, p: Path, force: bool, cascade: bool,
                                 a: PurgeAnswers): Run
    requires IsNode(p)
  {
    var deleted := DeleteRun(hidden, store, p, force, cascade, a.Delete(p));
    if deleted.ok then Then(deleted, PurgeCall(deleted.store, p, a.Own(p))) else deleted
  }

  ghost function PurgeEach(hidden: set<Path>, store: set<Path>, p: Path, list: seq<Path>, force: bool,
                           a: PurgeAnswers): Run
    requires 1 <= |p| < CELL && forall q <- list :: IsChild(p, q)
    decreases CELL - |p|, 0, |list|
  {
    if list == [] then Still(store, 0, true)
    else
      var n := |list| - 1;
      var before := PurgeEach(hidden, store, p, list[..n], force, a);
      assert list[n] in list && IsChild(p, list[n]);
      if !before.ok then before
      else Then(before, PurgeRun(hidden, before.store, list[n], force, |list[n]| < CELL, a))
  }

  /** purgeRealmCascade: a failed delete falls through to the comprehensive purge. */
  ghost function PurgeRealmRun(hidden: set<Path>, store: set<Path>, p: Path, force: bool, cascade: bool,
                                 a: PurgeAnswers): Run
    requires |p| == 1
  {
    if p !in store then PurgeCall(store, p, a.Own(p))
    else
      var below := PurgeBelow(hidden, store, p, force, cascade, a);
      if below.ok then Then(below, DeleteAndClear(hidden, below.store, p, force, cascade, a)) else below
  }

  ghost function DeleteAndClear(hidden: set<Path>, store: set<Path>, p: Path, force: bool, cascade: bool,
                                 a: PurgeAnswers): Run
    requires IsNode(p)
  {
    var deleted := DeleteRun(hidden, store, p, force, cascade, a.Delete(p));
    Then(deleted, PurgeCall(deleted.store, p, a.Own(p)))
  }

  // ----- What every run keeps -----

  /** Nothing outside p's subtree changed, in the end or on the way, and nothing was added. */
  ghost predicate Confined(r: Run, p: Path, before: set<Path>) {
    && r.store <= before && Outside(r.store, p) == Outside(before, p)
    && forall s <- r.states :: s <= before && Outside(s, p) == Outside(before, p)
  }

  /** No state, in the end or on the way, has an orphan. */
  ghost predicate Orderly(r: Run, hidden: set<Path>) {
    NoOrphans(r.store, hidden) && forall s <- r.states :: NoOrphans(s, hidden)
  }

  lemma ConfinedThen(a: Run, b: Run, p: Path, before: set<Path>)
    requires Confined(a, p, before) && Confined(b, p, a.store)
    ensures Confined(Then(a, b), p, before)
  {
  }

  lemma OrderlyThen(a: Run, b: Run, hidden: set<Path>)
    requires Orderly(a, hidden) && Orderly(b, hidden)
    ensures Orderly(Then(a, b), hidden)
  {
  }

  lemma OutsideChild(a: set<Path>, b: set<Path>, p: Path, child: Path)
    requires IsChild(p, child) && Outside(a, child) == Outside(b, child)
    ensures Outside(a, p) == Outside(b, p)
  {
    forall q ensures q in Outside(a, p) <==> q in Outside(b, p) {
      if !Within(p, q) {
        assert !Within(child, q);
        assert q in Outside(a, child) <==> q in Outside(b, child);
      }
    }
  }

  /** What a child's teardown does is confined seen from the parent. */
  lemma ConfinedToChild(r: Run, p: Path, child: Path, before: set<Path>)
    requires IsChild(p, child) && Confined(r, child, before)
    ensures Confined(r, p, before)
  {
    OutsideChild(r.store, before, p, child);
    forall s | s in r.states ensures Outside(s, p) == Outside(before, p) {
      OutsideChild(s, before, p, child);
    }
  }

  lemma DeleteCallKeeps(hidden: set<Path>, store: set<Path>, p: Path, c: Call)
    requires IsNode(p)
    ensures var r := DeleteCall(store, p, c);
            && Confined(r, p, store) && r.cleared == []
            && (r.ok ==> p !in r.store) && r.faults == (if r.ok then 0 else 1)
            && (NoOrphans(store, hidden) && (Bare(store, hidden, p) || |p| == STACK) ==> Orderly(r, hidden))
  {
    var r := DeleteCall(store, p, c);
    assert r.states == [r.store];
    if NoOrphans(store, hidden) && Bare(store, hidden, p) {
      RemovalIsSafe(store, r.store, hidden, p);
    }
  }

  lemma PurgeCallKeeps(hidden: set<Path>, store: set<Path>, p: Path, c: Call)
    requires IsNode(p)
    ensures var r := PurgeCall(store, p, c);
            && Confined(r, p, store) && r.faults == (if r.ok then 0 else 1)
            && (NoOrphans(store, hidden) && Bare(store, hidden, p) ==> Orderly(r, hidden))
  {
    var r := PurgeCall(store, p, c);
    if NoOrphans(store, hidden) && Bare(store, hidden, p) {
      RemovalIsSafe(store, r.store, hidden, p);
    }
  }

  /** Does the code look at the children before it removes p? A stack's or cell's always; else not when forced
      without cascade. */
  predicate Careful(p: Path, force: bool, cascade: bool) {
    cascade || !force || |p| >= STACK
  }

  /** What every delete keeps and what its report means. */
  ghost predicate DeleteKeeps(hidden: set<Path>, store: set<Path>, p: Path, force: bool, cascade: bool, r: Run) {
    && Confined(r, p, store) && r.cleared == []
    && (Careful(p, force, cascade) ==> Orderly(r, hidden))
    && (r.ok ==> p !in r.store && r.faults == 0)
    && (!r.ok ==> r.faults == 1 || Refuses(hidden, store, p, force, cascade))
    && (r.faults == 0 && Refuses(hidden, store, p, force, cascade) ==> !r.ok && r.store == store)
  }

  /** Neither cascading nor forced, and there are children to see. */
  ghost predicate Refuses(hidden: set<Path>, store: set<Path>, p: Path, force: bool, cascade: bool) {
    |p| < CELL && !cascade && !force && Visible(store, hidden, p) != {}
  }

  /** What dealing with the children keeps. */
  ghost predicate BelowKeeps(hidden: set<Path>, store: set<Path>, p: Path, force: bool, cascade: bool, r: Run) {
    && Confined(r, p, store) && Orderly(r, hidden)
    && (p in r.store <==> p in store)
    && (r.ok ==> r.faults == 0 && (Ignores(p, force, cascade) || Visible(r.store, hidden, p) == {}))
    && (!r.ok ==> r.faults == 1 || Refuses(hidden, store, p, force, cascade))
    && (r.faults == 0 && Refuses(hidden, store, p, force, cascade) ==> !r.ok && r.store == store)
  }

  lemma {:induction false} DeleteRunKeeps(hidden: set<Path>, store: set<Path>, p: Path, force: bool, cascade: bool,
                                          a: Answers)
    requires IsNode(p) && NoOrphans(store, hidden)
    ensures DeleteKeeps(hidden, store, p, force, cascade, DeleteRun(hidden, store, p, force, cascade, a))
    decreases CELL - |p|, 2, 0
  {
    var below := DeleteBelow(hidden, store, p, force, cascade, a);
    DeleteBelowKeeps(hidden, store, p, force, cascade, a);
    if below.ok {
      var own := DeleteCall(below.store, p, a.Own(p));
      DeleteCallKeeps(hidden, below.store, p, a.Own(p));
      ConfinedThen(below, own, p, store);
      if Careful(p, force, cascade) {
        assert |p| == CELL ==> Children(below.store, p) == {};
        OrderlyThen(below, own, hidden);
      }
    }
  }

  lemma {:induction false} DeleteBelowKeeps(hidden: set<Path>, store: set<Path>, p: Path, force: bool,
                                            cascade: bool, a: Answers)
    requires IsNode(p) && NoOrphans(store, hidden)
    ensures var r := DeleteBelow(hidden, store, p, force, cascade, a);
            BelowKeeps(hidden, store, p, force, cascade, r) && r.cleared == []
    decreases CELL - |p|, 1, 0
  {
    if !Ignores(p, force, cascade) && cascade && a.Lists(p) {
      var list := ListOf(store, hidden, p, a.Order(p));
      var each := DeleteEach(hidden, store, p, list, force, cascade, a);
      DeleteEachKeeps(hidden, store, p, list, force, cascade, a);
      if each.ok {
        AllGone(hidden, store, p, list, each.store);
      }
    }
  }

  /** What the loop over children keeps; q is gone once its turn has come, the others are where they were. */
  ghost predicate EachKeeps(hidden: set<Path>, store: set<Path>, p: Path, list: seq<Path>, r: Run) {
    && Confined(r, p, store) && Orderly(r, hidden)
    && (p in r.store <==> p in store)
    && (r.ok ==> r.faults == 0 && forall q <- list :: q !in r.store)
    && (!r.ok ==> r.faults == 1)
  }

  lemma {:induction false} DeleteEachKeeps(hidden: set<Path>, store: set<Path>, p: Path, list: seq<Path>,
                                           force: bool, cascade: bool, a: Answers)
    requires 1 <= |p| < CELL && NoOrphans(store, hidden) && cascade && forall q <- list :: IsChild(p, q)
    ensures var r := DeleteEach(hidden, store, p, list, force, cascade, a);
            EachKeeps(hidden, store, p, list, r) && r.cleared == []
    decreases CELL - |p|, 0, |list|
  {
    if list != [] {
      var n := |list| - 1;
      DeleteEachKeeps(hidden, store, p, list[..n], force, cascade, a);
      var before := DeleteEach(hidden, store, p, list[..n], force, cascade, a);
      assert list[n] in list;
      if before.ok {
        var one := DeleteRun(hidden, before.store, list[n], force, cascade, a);
        DeleteRunKeeps(hidden, before.store, list[n], force, cascade, a);
        EachStep(hidden, store, p, list, before, one);
      }
    }
  }

  lemma EachStep(hidden: set<Path>, store: set<Path>, p: Path, list: seq<Path>, before: Run, one: Run)
    requires 1 <= |p| < CELL && list != [] && forall q <- list :: IsChild(p, q)
    requires EachKeeps(hidden, store, p, list[..|list| - 1], before) && before.ok
    requires Confined(one, list[|list| - 1], before.store) && Orderly(one, hidden)
    requires (one.ok ==> list[|list| - 1] !in one.store && one.faults == 0) && (!one.ok ==> one.faults == 1)
    ensures EachKeeps(hidden, store, p, list, Then(before, one))
  {
    var n := |list| - 1;
    var child := list[n];
    ConfinedToChild(one, p, child, before.store);
    ConfinedThen(before, one, p, store);
    OrderlyThen(before, one, hidden);
    assert p in Outside(one.store, child) <==> p in Outside(before.store, child);
    forall q | q in list && one.ok ensures q !in one.store {
      assert q in list[..n] || q == child;
    }
  }

  /** Once every listed child is gone the node is bare, a stack with unreadable cells aside. */
  lemma AllGone(hidden: set<Path>, store: set<Path>, p: Path, list: seq<Path>, now: set<Path>)
    requires multiset(list) == multiset(Visible(store, hidden, p)) && now <= store && forall q <- list :: q !in now
    ensures Visible(now, hidden, p) == {} && (|p| < STACK ==> Bare(now, hidden, p))
  {
    forall q | q in Visible(store, hidden, p) ensures q in list {
      assert q in multiset(list);
    }
  }

  /** What every purge keeps and what its report means. */
  ghost predicate PurgeKeeps(hidden: set<Path>, store: set<Path>, p: Path, force: bool, cascade: bool, r: Run) {
    && Confined(r, p, store)
    && (Careful(p, force, cascade) ==> Orderly(r, hidden))
    && (r.ok ==> p !in r.store && r.faults == 0 && r.cleared != [] && r.cleared[|r.cleared| - 1] == p)
    && (!r.ok ==> r.faults == 1 || Refuses(hidden, store, p, force, cascade))
    && (r.faults == 0 && Refuses(hidden, store, p, force, cascade) ==> !r.ok && r.store == store)
  }

  lemma DeleteThenClearKeeps(hidden: set<Path>, store: set<Path>, p: Path, force: bool, cascade: bool, a: PurgeAnswers)
    requires IsNode(p) && NoOrphans(store, hidden)
    ensures PurgeKeeps(hidden, store, p, force, cascade, DeleteThenClear(hidden, store, p, force, cascade, a))
  {
    var deleted := DeleteRun(hidden, store, p, force, cascade, a.Delete(p));
    DeleteRunKeeps(hidden, store, p, force, cascade, a.Delete(p));
    if deleted.ok {
      var own := PurgeCall(deleted.store, p, a.Own(p));
      PurgeCallKeeps(hidden, deleted.store, p, a.Own(p));
      ConfinedThen(deleted, own, p, store);
      if Careful(p, force, cascade) {
        OrderlyThen(deleted, own, hidden);
      }
    }
  }

  lemma {:induction false} PurgeRunKeeps(hidden: set<Path>, store: set<Path>, p: Path, force: bool, cascade: bool,
                                         a: PurgeAnswers)
    requires IsNode(p) && NoOrphans(store, hidden)
    ensures PurgeKeeps(hidden, store, p, force, cascade, PurgeRun(hidden, store, p, force, cascade, a))
    decreases CELL - |p|, 2, 0
  {
    var below := PurgeBelow(hidden, store, p, force, cascade, a);
    PurgeBelowKeeps(hidden, store, p, force, cascade, a);
    if below.ok {
      var own := DeleteThenClear(hidden, below.store, p, force, cascade, a);
      DeleteThenClearKeeps(hidden, below.store, p, force, cascade, a);
      ConfinedThen(below, own, p, store);
      if Careful(p, force, cascade) {
        OrderlyThen(below, own, hidden);
      }
    }
  }

  lemma {:induction false} PurgeBelowKeeps(hidden: set<Path>, store: set<Path>, p: Path, force: bool,
                                           cascade: bool, a: PurgeAnswers)
    requires IsNode(p) && NoOrphans(store, hidden)
    ensures BelowKeeps(hidden, store, p, force, cascade, PurgeBelow(hidden, store, p, force, cascade, a))
    decreases CELL - |p|, 1, 0
  {
    if !Ignores(p, force, cascade) && cascade && a.Lists(p) {
      var list := ListOf(store, hidden, p, a.Order(p));
      var each := PurgeEach(hidden, store, p, list, force, a);
      PurgeEachKeeps(hidden, store, p, list, force, a);
      if each.ok {
        AllGone(hidden, store, p, list, each.store);
      }
    }
  }

  lemma {:induction false} PurgeEachKeeps(hidden: set<Path>, store: set<Path>, p: Path, list: seq<Path>,
                                          force: bool, a: PurgeAnswers)
    requires 1 <= |p| < CELL && NoOrphans(store, hidden) && forall q <- list :: IsChild(p, q)
    ensures EachKeeps(hidden, store, p, list, PurgeEach(hidden, store, p, list, force, a))
    decreases CELL - |p|, 0, |list|
  {
    if list != [] {
      var n := |list| - 1;
      PurgeEachKeeps(hidden, store, p, list[..n], force, a);
      var before := PurgeEach(hidden, store, p, list[..n], force, a);
      assert list[n] in list;
      if before.ok {
        var one := PurgeRun(hidden, before.store, list[n], force, |list[n]| < CELL, a);
        PurgeRunKeeps(hidden, before.store, list[n], force, |list[n]| < CELL, a);
        EachStep(hidden, store, p, list, before, one);
      }
    }
  }

  /** What a realm purge keeps: a failed delete is survived, and only after one can a success leave the realm behind. */
  ghost predicate RealmKeeps(hidden: set<Path>, store: set<Path>, p: Path, force: bool, cascade: bool, r: Run) {
    && Confined(r, p, store)
    && (cascade || !force || p !in store ==> Orderly(r, hidden))
    && ((r.cleared != [] && r.cleared[|r.cleared| - 1] == p) || (!r.ok && (p in r.store <==> p in store)))
    && (r.ok ==> r.faults <= 1)
    && (r.ok && r.faults == 0 ==> p !in r.store)
    && (!r.ok ==> r.faults > 0 || (p in store && Refuses(hidden, store, p, force, cascade)))
    && (p in store && r.faults == 0 && Refuses(hidden, store, p, force, cascade) ==> !r.ok && r.store == store)
  }

  lemma DeleteAndClearKeeps(hidden: set<Path>, store: set<Path>, p: Path, force: bool, cascade: bool, a: PurgeAnswers)
    requires |p| == 1 && NoOrphans(store, hidden) && ((force && !cascade) || Visible(store, hidden, p) == {})
    ensures var r := DeleteAndClear(hidden, store, p, force, cascade, a);
            && Confined(r, p, store) && (cascade || !force ==> Orderly(r, hidden))
            && r.cleared == [p] && (r.ok ==> r.faults <= 1) && (r.ok && r.faults == 0 ==> p !in r.store)
            && (!r.ok ==> r.faults > 0)
  {
    var deleted := DeleteRun(hidden, store, p, force, cascade, a.Delete(p));
    DeleteRunKeeps(hidden, store, p, force, cascade, a.Delete(p));
    var own := PurgeCall(deleted.store, p, a.Own(p));
    PurgeCallKeeps(hidden, deleted.store, p, a.Own(p));
    ConfinedThen(deleted, own, p, store);
    if cascade || !force {
      assert Visible(deleted.store, hidden, p) <= Visible(store, hidden, p);
      OrderlyThen(deleted, own, hidden);
    }
  }

  lemma PurgeRealmRunKeeps(hidden: set<Path>, store: set<Path>, p: Path, force: bool, cascade: bool, a: PurgeAnswers)
    requires |p| == 1 && NoOrphans(store, hidden)
    ensures RealmKeeps(hidden, store, p, force, cascade, PurgeRealmRun(hidden, store, p, force, cascade, a))
  {
    if p !in store {
      PurgeCallKeeps(hidden, store, p, a.Own(p));
    } else {
      var below := PurgeBelow(hidden, store, p, force, cascade, a);
      PurgeBelowKeeps(hidden, store, p, force, cascade, a);
      if below.ok {
        var own := DeleteAndClear(hidden, below.store, p, force, cascade, a);
        DeleteAndClearKeeps(hidden, below.store, p, force, cascade, a);
        ConfinedThen(below, own, p, store);
        if cascade || !force {
          OrderlyThen(below, own, hidden);
        }
      }
    }
  }

  // ----- What success means -----

  /** With every document readable, a delete or purge that succeeds removes exactly the subtree. */
  lemma SuccessIsExact(store: set<Path>, p: Path, force: bool, cascade: bool, a: Answers, b: PurgeAnswers)
    requires IsNode(p) && NoOrphans(store, {}) && Careful(p, force, cascade)
    ensures var r := DeleteRun({}, store, p, force, cascade, a); r.ok ==> r.store == Outside(store, p)
    ensures var r := PurgeRun({}, store, p, force, cascade, b); r.ok ==> r.store == Outside(store, p)
  {
    DeleteRunKeeps({}, store, p, force, cascade, a);
    PurgeRunKeeps({}, store, p, force, cascade, b);
    var r, s := DeleteRun({}, store, p, force, cascade, a), PurgeRun({}, store, p, force, cascade, b);
    if r.ok {
      GoneWithSubtree(store, r.store, p);
    }
    if s.ok {
      GoneWithSubtree(store, s.store, p);
    }
  }

  /** A realm purge without a failed call does the same. */
  lemma RealmSuccessIsExact(store: set<Path>, p: Path, force: bool, cascade: bool, a: PurgeAnswers)
    requires |p| == 1 && NoOrphans(store, {}) && (cascade || !force || p !in store)
    ensures var r := PurgeRealmRun({}, store, p, force, cascade, a);
            r.ok && r.faults == 0 ==> r.store == Outside(store, p)
  {
    PurgeRealmRunKeeps({}, store, p, force, cascade, a);
    var r := PurgeRealmRun({}, store, p, force, cascade, a);
    if r.ok && r.faults == 0 {
      GoneWithSubtree(store, r.store, p);
    }
  }
}
