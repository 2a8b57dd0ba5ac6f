/**
 The reconcile walk over every stored cell, with the drift detection step it ends each visit with
 (internal/controller/reconcile.go:102-197). A pass is the sequence of its visits; Replay says what they leave in
 the store of cell documents.
 */
module Reconcile {
  import opened Wrappers
  import opened Cells
  import opened OutOfSync

  datatype Id = Id(realm: string, space: string, stack: string, name: string)

  function IdOf(b: Body): Id { Id(b.realm, b.space, b.stack, b.name) }

  /** The cell documents on disk. */
  type Store = map<Id, Cell>

  function Entry(s: Store, id: Id): Option<Cell> { if id in s then Some(s[id]) else None }

  function Set(s: Store, id: Id, e: Option<Cell>): Store { if e.Some? then s[id := e.value] else s - {id} }

  // ----- One visit -----

  /** What runner.ReconcileCell reports. */
  datatype Outcome = Errored | Done(cell: Cell, deleted: bool, updated: bool, vanished: bool)

  /** A listed cell, the runner's outcome, the document it left, the verdict and what became of it. */
  datatype Visit = Visit(cell: Cell, outcome: Outcome, left: Option<Cell>, verdict: Sync, step: SyncStep)

  const NoVerdict := Sync(false, "", "")

  predicate Gone(o: Outcome) { o.Done? && (o.deleted || o.vanished) }

  function WithSync(c: Cell, v: Sync): Cell { c.(status := c.status.(sync := v)) }

  /** The document the visit leaves under its cell's name. */
  function Result(v: Visit): Option<Cell> {
    if v.step.Wrote? && v.outcome.Done? then Some(WithSync(v.outcome.cell, v.verdict)) else v.left
  }

  function After(s: Store, v: Visit): Store { Set(s, IdOf(v.cell.body), Result(v)) }

  /** The runner's part: it touches its own cell's document only, and removes it when it says so. */
  ghost predicate RunnerFits(entry: Option<Cell>, v: Visit) {
    && (v.left.Some? ==> IdOf(v.left.value.body) == IdOf(v.cell.body))
    && (v.outcome.Done? ==> IdOf(v.outcome.cell.body) == IdOf(v.cell.body))
    && (Gone(v.outcome) ==> v.left.None?)
    && (v.outcome.Done? && !Gone(v.outcome) ==> v.left == entry || v.left == Some(v.outcome.cell))
  }

  /** The detection's part: only a lineage cell that is still there is ever written, with one of its verdicts. */
  ghost predicate DetectionFits<C>(w: World<C>, v: Visit) {
    if v.outcome.Errored? || Gone(v.outcome) then v.step.NotTried?
    else if Lineage(v.outcome.cell.body).None? then v.step.Quiet?
    else
      && IsVerdict(w, v.outcome.cell.body, v.verdict)
      && !v.step.NotTried?
      && (v.step.Quiet? <==> v.outcome.cell.status.sync == v.verdict)
  }

  ghost predicate Lawful<C>(w: World<C>, s: Store, v: Visit) {
    RunnerFits(Entry(s, IdOf(v.cell.body)), v) && DetectionFits(w, v)
  }

  // ----- What the runner is given to say -----

  /** The runner's outcome for a visit, the document it leaves, and whether the write of the verdict goes through. */
  datatype VisitAnswer = VisitAnswer(outcome: Outcome, kept: Option<Cell>, writeOk: bool)

  /** An answer, cut down to what a runner that keeps to its own cell can say. */
  function Fitted(cell: Cell, entry: Option<Cell>, a: VisitAnswer): (Outcome, Option<Cell>) {
    var id := IdOf(cell.body);
    var outcome := if a.outcome.Done? && IdOf(a.outcome.cell.body) != id then Errored else a.outcome;
    var own := if entry.Some? && IdOf(entry.value.body) == id then entry else None;
    if outcome.Errored? then (outcome, if a.kept.Some? && IdOf(a.kept.value.body) == id then a.kept else None)
    else if Gone(outcome) then (outcome, None)
    else (outcome, if a.kept == Some(outcome.cell) || own != entry then Some(outcome.cell) else entry)
  }

  lemma FittedFits(cell: Cell, entry: Option<Cell>, a: VisitAnswer)
    ensures var (outcome, left) := Fitted(cell, entry, a);
            RunnerFits(entry, Visit(cell, outcome, left, NoVerdict, NotTried))
  {
  }

  /** And every answer of such a runner is left as it is. */
  lemma FittingIsKept(cell: Cell, entry: Option<Cell>, a: VisitAnswer)
    requires RunnerFits(entry, Visit(cell, a.outcome, a.kept, NoVerdict, NotTried))
    ensures Fitted(cell, entry, a) == (a.outcome, a.kept)
  {
  }

  /** The visit is what the answer makes of it. */
  ghost predicate Given(entry: Option<Cell>, v: Visit, a: VisitAnswer) {
    && (v.outcome, v.left) == Fitted(v.cell, entry, a)
    && (v.step.Wrote? ==> a.writeOk) && (v.step.WriteError? ==> !a.writeOk)
  }

  ghost predicate GivenRun(s: Store, log: seq<Visit>, answers: nat -> VisitAnswer) {
    forall i | 0 <= i < |log| :: GivenVisit(s, log, answers, i)
  }

  ghost predicate GivenVisit(s: Store, log: seq<Visit>, answers: nat -> VisitAnswer, i: nat)
    requires i < |log|
  {
    Given(Entry(StoreAt(s, log, i), IdOf(log[i].cell.body)), log[i], answers(i))
  }

  /** What a detection makes of the document the runner left. */
  lemma Detected<C>(w: World<C>, before: Store, v: Visit)
    requires RunnerFits(Entry(before, IdOf(v.cell.body)), Visit(v.cell, v.outcome, v.left, NoVerdict, NotTried))
    requires v.outcome.Done? && !Gone(v.outcome) && DetectionFits(w, v)
    ensures Lawful(w, before, v)
    ensures var left := Set(before, IdOf(v.cell.body), v.left);
            After(before, v) ==
            if v.step.Wrote? then left[IdOf(v.outcome.cell.body) := WithSync(v.outcome.cell, v.verdict)] else left
  {
  }

  // ----- A whole pass -----

  ghost function Replay(s: Store, log: seq<Visit>): Store {
    if log == [] then s else After(Replay(s, log[..|log| - 1]), log[|log| - 1])
  }

  /** The store visit i finds. */
  ghost function StoreAt(s: Store, log: seq<Visit>, i: nat): Store
    requires i <= |log|
  {
    Replay(s, log[..i])
  }

  ghost predicate LawfulRun<C>(w: World<C>, s: Store, log: seq<Visit>) {
    forall i | 0 <= i < |log| :: LawfulVisit(w, s, log, i)
  }

  ghost predicate LawfulVisit<C>(w: World<C>, s: Store, log: seq<Visit>, i: nat)
    requires i < |log|
  {
    Lawful(w, StoreAt(s, log, i), log[i])
  }

  /** The pass visits no cell twice. */
  ghost predicate UniqueIds(log: seq<Visit>) {
    forall i, j | 0 <= i < j < |log| :: IdOf(log[i].cell.body) != IdOf(log[j].cell.body)
  }

  ghost predicate Visits(log: seq<Visit>, id: Id) {
    exists v <- log :: IdOf(v.cell.body) == id
  }

  /** A document whose cell is not visited is not touched. */
  lemma {:induction false} OthersUntouched(s: Store, log: seq<Visit>, id: Id)
    requires !Visits(log, id)
    ensures Entry(Replay(s, log), id) == Entry(s, id)
  {
    if log != [] {
      var init, last := log[..|log| - 1], log[|log| - 1];
      assert last in log && forall v <- init :: v in log;
      OthersUntouched(s, init, id);
    }
  }

  /** A visited cell's document is what its own visit left. */
  lemma {:induction false} EntryAfter(s: Store, log: seq<Visit>, i: nat)
    requires UniqueIds(log) && i < |log|
    ensures Entry(Replay(s, log), IdOf(log[i].cell.body)) == Result(log[i])
  {
    var n := |log| - 1;
    if i < n {
      EntryAfter(s, log[..n], i);
    }
  }

  lemma LawfulAt<C>(w: World<C>, s: Store, log: seq<Visit>, i: nat)
    requires LawfulRun(w, s, log) && i < |log|
    ensures Lawful(w, Replay(s, log[..i]), log[i])
  {
    assert LawfulVisit(w, s, log, i);
  }

  /** A cell the runner deleted, or found deleted, is not written back by the rest of the pass. */
  lemma GoneStaysGone<C>(w: World<C>, s: Store, log: seq<Visit>, i: nat)
    requires LawfulRun(w, s, log) && UniqueIds(log) && i < |log| && Gone(log[i].outcome)
    ensures IdOf(log[i].cell.body) !in Replay(s, log)
  {
    EntryAfter(s, log, i);
    LawfulAt(w, s, log, i);
  }

  // ----- Two passes -----

  /** The pass listed the documents as they are stored, each once. */
  ghost predicate ListsStore(s: Store, log: seq<Visit>) {
    UniqueIds(log) && forall v <- log :: Entry(s, IdOf(v.cell.body)) == Some(v.cell)
  }

  /** The runner's own reconcile changed neither what is declared nor the sync fields. */
  ghost predicate KeepsDeclared(log: seq<Visit>) {
    forall v <- log :: v.outcome.Done? ==>
      v.outcome.cell.body == v.cell.body && v.outcome.cell.status.sync == v.cell.status.sync
  }

  /** Every visit went through. */
  ghost predicate Clean(log: seq<Visit>) {
    forall v <- log :: v.outcome.Done? && !v.step.WriteError?
  }

  ghost predicate WritesNothing(log: seq<Visit>) {
    forall v <- log :: !v.step.Wrote? && !v.step.WriteError?
  }

  ghost predicate AllSettled<C>(w: World<C>, log: seq<Visit>) {
    forall v <- log :: Settled(w, v.cell.body)
  }

  /** After a pass that went through, every lineage cell still there carries a verdict on its own declared body. */
  lemma VerdictIsStored<C>(w: World<C>, s: Store, log: seq<Visit>, i: nat)
    requires LawfulRun(w, s, log) && ListsStore(s, log) && KeepsDeclared(log) && Clean(log) && i < |log|
    requires Lineage(log[i].cell.body).Some? && IdOf(log[i].cell.body) in Replay(s, log)
    ensures var c := Replay(s, log)[IdOf(log[i].cell.body)];
            c.body == log[i].cell.body && IsVerdict(w, c.body, c.status.sync)
  {
    var v, id := log[i], IdOf(log[i].cell.body);
    assert v in log;
    EntryAfter(s, log, i);
    LawfulAt(w, s, log, i);
    assert !Visits(log[..i], id);
    OthersUntouched(s, log[..i], id);
  }

  /**
   With the stores unchanged a second pass over the same cells writes nothing, whatever verdicts the two passes
   reach, once every cell's error text is settled.
   */
  lemma SecondPassWritesNothing<C>(w: World<C>, s: Store, first: seq<Visit>, second: seq<Visit>)
    requires LawfulRun(w, s, first) && ListsStore(s, first) && KeepsDeclared(first) && Clean(first)
    requires LawfulRun(w, Replay(s, first), second) && ListsStore(Replay(s, first), second) && KeepsDeclared(second)
    requires forall v <- second :: Visits(first, IdOf(v.cell.body))
    requires AllSettled(w, first)
    ensures WritesNothing(second)
  {
    forall k: nat | k < |second| ensures !second[k].step.Wrote? && !second[k].step.WriteError? {
      var v := second[k];
      assert v in second;
      LawfulAt(w, Replay(s, first), second, k);
      var u :| u in first && IdOf(u.cell.body) == IdOf(v.cell.body);
      var i :| 0 <= i < |first| && first[i] == u;
      RepeatIsQuiet(w, s, first, i, v);
    }
  }

  lemma RepeatIsQuiet<C>(w: World<C>, s: Store, first: seq<Visit>, i: nat, v: Visit)
    requires LawfulRun(w, s, first) && ListsStore(s, first) && KeepsDeclared(first) && Clean(first) && i < |first|
    requires IdOf(v.cell.body) == IdOf(first[i].cell.body) && Entry(Replay(s, first), IdOf(v.cell.body)) == Some(v.cell)
    requires DetectionFits(w, v)
    requires v.outcome.Done? ==> v.outcome.cell.body == v.cell.body && v.outcome.cell.status.sync == v.cell.status.sync
    requires Settled(w, first[i].cell.body)
    ensures !v.step.Wrote? && !v.step.WriteError?
  {
    if v.outcome.Done? && !Gone(v.outcome) && Lineage(v.cell.body).Some? {
      BodyIsStored(w, s, first, i);
      VerdictIsStored(w, s, first, i);
      VerdictIsSettled(w, v.cell.body);
    }
  }

  lemma BodyIsStored<C>(w: World<C>, s: Store, log: seq<Visit>, i: nat)
    requires LawfulRun(w, s, log) && ListsStore(s, log) && KeepsDeclared(log) && Clean(log) && i < |log|
    requires IdOf(log[i].cell.body) in Replay(s, log)
    ensures Replay(s, log)[IdOf(log[i].cell.body)].body == log[i].cell.body
  {
    var v, id := log[i], IdOf(log[i].cell.body);
    assert v in log;
    EntryAfter(s, log, i);
    LawfulAt(w, s, log, i);
    assert !Visits(log[..i], id);
    OthersUntouched(s, log[..i], id);
  }

  /** The visit of a cell the runner finds in order. */
  function PlainVisit(c: Cell, v: Sync): Visit {
    Visit(c, Done(c, false, false, false), Some(c), v, if c.status.sync == v then Quiet else Wrote)
  }

  /** And when a cell's error text is not settled, a pass over that cell alone can be followed by one that writes
      again. */
  lemma UnsettledIsRewritten<C>(w: World<C>, c: Cell) returns (first: seq<Visit>, second: seq<Visit>)
    requires Lineage(c.body).Some? && !Settled(w, c.body)
    ensures var s := map[IdOf(c.body) := c];
            && LawfulRun(w, s, first) && ListsStore(s, first) && KeepsDeclared(first) && Clean(first)
            && LawfulRun(w, Replay(s, first), second) && ListsStore(Replay(s, first), second) && KeepsDeclared(second)
            && |first| == |second| == 1 && !WritesNothing(second)
  {
    VerdictIsSettled(w, c.body);
    var v, v' :| IsVerdict(w, c.body, v) && IsVerdict(w, c.body, v') && v != v';
    var s := map[IdOf(c.body) := c];
    first := [PlainVisit(c, v)];
    assert first[..0] == [] && Replay(s, []) == s;
    var c' := WithSync(c, v);
    assert Replay(s, first) == After(s, first[0]);
    assert Entry(Replay(s, first), IdOf(c.body)) == Some(c');
    second := [PlainVisit(c', v')];
    assert second[..0] == [] && second[0] in second;
  }

  // ----- Counting -----

  /** How a visit moves the counters. */
  predicate CountsUpdated(v: Visit) { Updates(v.outcome, v.step) }

  predicate Updates(o: Outcome, step: SyncStep) { o.Done? && !o.deleted && (o.updated || step.Wrote?) }

  predicate CountsDeleted(v: Visit) { Deletes(v.outcome) }

  predicate Deletes(o: Outcome) { o.Done? && o.deleted }

  predicate CountsErrored(v: Visit) { Errs(v.outcome, v.step) }

  predicate Errs(o: Outcome, step: SyncStep) { o.Errored? || step.WriteError? }

  ghost function Count(log: seq<Visit>, p: Visit -> bool): nat {
    if log == [] then 0 else Count(log[..|log| - 1], p) + if p(log[|log| - 1]) then 1 else 0
  }

  /** What the counters of a pass say about the visits behind it. */
  ghost predicate Tallied(log: seq<Visit>, t: Tally) {
    && t.updated == Count(log, CountsUpdated)
    && t.deleted == Count(log, CountsDeleted)
    && t.errored == Count(log, CountsErrored)
  }

  datatype Tally = Tally(updated: nat, deleted: nat, errored: nat)

  /** The counters after one more visit. */
  function Counting(t: Tally, o: Outcome, step: SyncStep): Tally {
    Tally(t.updated + if Updates(o, step) then 1 else 0, t.deleted + if Deletes(o) then 1 else 0,
          t.errored + if Errs(o, step) then 1 else 0)
  }

  lemma TalliedStep(log: seq<Visit>, t: Tally, v: Visit)
    requires Tallied(log, t)
    ensures Tallied(log + [v], Counting(t, v.outcome, v.step))
  {
    assert (log + [v])[..|log|] == log;
  }

  /** No visit counts as both updated and deleted, so the two counters never exceed the scan. */
  lemma {:induction false} UpdatesAndDeletesFit(log: seq<Visit>)
    ensures Count(log, CountsUpdated) + Count(log, CountsDeleted) <= |log|
    ensures Count(log, CountsErrored) <= |log|
  {
    if log != [] {
      UpdatesAndDeletesFit(log[..|log| - 1]);
    }
  }

  // ----- The listings -----

  datatype Listing<+T> = Unlisted | Listed(items: seq<T>)

  /** What the runner lists: a realm of spaces of stacks of cells, any listing of which may fail. */
  datatype Stack = Stack(cells: Listing<Cell>)
  datatype Space = Space(stacks: Listing<Stack>)
  datatype Realm = Realm(spaces: Listing<Space>)

  ghost function Items<T>(l: Listing<T>): seq<T> {
    if l.Listed? then l.items else []
  }

  ghost function StackCells(ss: seq<Stack>): seq<Cell> {
    if ss == [] then [] else StackCells(ss[..|ss| - 1]) + Items(ss[|ss| - 1].cells)
  }

  ghost function SpaceCells(ss: seq<Space>): seq<Cell> {
    if ss == [] then [] else SpaceCells(ss[..|ss| - 1]) + StackCells(Items(ss[|ss| - 1].stacks))
  }

  ghost function RealmCells(rs: seq<Realm>): seq<Cell> {
    if rs == [] then [] else RealmCells(rs[..|rs| - 1]) + SpaceCells(Items(rs[|rs| - 1].spaces))
  }

  lemma CellsStep(start: seq<Cell>, cs: seq<Cell>, i: nat)
    requires i < |cs|
    ensures start + cs[..i + 1] == start + cs[..i] + [cs[i]]
  {
  }

  lemma StackCellsStep(start: seq<Cell>, ss: seq<Stack>, i: nat)
    requires i < |ss|
    ensures start + StackCells(ss[..i + 1]) == start + StackCells(ss[..i]) + Items(ss[i].cells)
    ensures ss[..|ss|] == ss
  {
    assert ss[..i + 1][..i] == ss[..i];
  }

  lemma SpaceCellsStep(start: seq<Cell>, ss: seq<Space>, i: nat)
    requires i < |ss|
    ensures start + SpaceCells(ss[..i + 1]) == start + SpaceCells(ss[..i]) + StackCells(Items(ss[i].stacks))
  {
    assert ss[..i + 1][..i] == ss[..i];
  }

  lemma RealmCellsStep(rs: seq<Realm>, i: nat)
    requires i < |rs|
    ensures RealmCells(rs[..i + 1]) == RealmCells(rs[..i]) + SpaceCells(Items(rs[i].spaces))
  {
    assert rs[..i + 1][..i] == rs[..i];
  }

  ghost function Visited(log: seq<Visit>): seq<Cell> {
    seq(|log|, i requires 0 <= i < |log| => log[i].cell)
  }

  /** What is behind a pass: the store it started from, its visits, the cells they were of, and what the counters were
      after the last of them. */
  datatype History = History(start: Store, log: seq<Visit>, visited: seq<Cell>, tally: Tally)

  /** The visits are lawful, as answered, of these cells and counted so, and have led to the given store. */
  ghost predicate Sound<C>(w: World<C>, answers: nat -> VisitAnswer, h: History, now: Store) {
    && h.visited == Visited(h.log) && Tallied(h.log, h.tally)
    && LawfulRun(w, h.start, h.log) && GivenRun(h.start, h.log, answers) && now == Replay(h.start, h.log)
  }

  ghost function Next(h: History, v: Visit): History {
    History(h.start, h.log + [v], h.visited + [v.cell], Counting(h.tally, v.outcome, v.step))
  }

  lemma StoreAtMore(s: Store, log: seq<Visit>, v: Visit, i: nat)
    requires i <= |log|
    ensures StoreAt(s, log + [v], i) == StoreAt(s, log, i)
  {
    assert (log + [v])[..i] == log[..i];
  }

  lemma LawfulMore<C>(w: World<C>, s: Store, log: seq<Visit>, v: Visit)
    requires LawfulRun(w, s, log) && Lawful(w, Replay(s, log), v)
    ensures LawfulRun(w, s, log + [v])
  {
    var more := log + [v];
    assert log[..|log|] == log;
    forall i | 0 <= i < |more| ensures LawfulVisit(w, s, more, i) {
      StoreAtMore(s, log, v, i);
      assert i < |log| ==> more[i] == log[i] && LawfulVisit(w, s, log, i);
    }
  }

  lemma GivenMore(s: Store, log: seq<Visit>, answers: nat -> VisitAnswer, v: Visit)
    requires GivenRun(s, log, answers) && Given(Entry(Replay(s, log), IdOf(v.cell.body)), v, answers(|log|))
    ensures GivenRun(s, log + [v], answers)
  {
    var more := log + [v];
    assert log[..|log|] == log;
    forall i | 0 <= i < |more| ensures GivenVisit(s, more, answers, i) {
      StoreAtMore(s, log, v, i);
      assert i < |log| ==> more[i] == log[i] && GivenVisit(s, log, answers, i);
    }
  }

  lemma OneMoreVisit<C>(w: World<C>, answers: nat -> VisitAnswer, h: History, now: Store, v: Visit)
    requires Sound(w, answers, h, now)
    requires Lawful(w, now, v) && Given(Entry(now, IdOf(v.cell.body)), v, answers(|h.log|))
    ensures Sound(w, answers, Next(h, v), After(now, v))
  {
    LawfulMore(w, h.start, h.log, v);
    GivenMore(h.start, h.log, answers, v);
    TalliedStep(h.log, h.tally, v);
    assert (h.log + [v])[..|h.log|] == h.log;
    assert Visited(h.log + [v]) == Visited(h.log) + [v.cell];
  }

  // ----- The walk -----

  /** ReconcileResult and the cell store, with the visits behind them. */
  class Pass<C(!new)> {
    const w: World<C>
    const answers: nat -> VisitAnswer
    var cells: Store
    var scanned: nat
    var updated: nat
    var deleted: nat
    var errored: nat
    var errors: nat
    ghost var history: History
    ghost var unlisted: nat

    ghost predicate Valid()
      reads this
    {
      InStep() && Sound(w, answers, history, cells)
    }

    constructor (w: World<C>, answers: nat -> VisitAnswer, cells: Store)
      ensures Valid() && this.w == w && this.answers == answers && this.cells == cells
      ensures history == History(cells, [], [], Tally(0, 0, 0))
    {
      this.w, this.answers, this.cells := w, answers, cells;
      scanned, updated, deleted, errored, errors := 0, 0, 0, 0, 0;
      history, unlisted := History(cells, [], [], Tally(0, 0, 0)), 0;
    }

    /** The counters agree with the visits logged. */
    ghost predicate InStep()
      reads this
    {
      && scanned == |history.log| && errors == errored + unlisted
      && Tally(updated, deleted, errored) == history.tally
    }

    /** The counters have been moved for a visit that is not logged yet. */
    ghost predicate Moved(o: Outcome, step: SyncStep)
      reads this`scanned, this`updated, this`deleted, this`errored, this`errors, this`unlisted, this`history
    {
      && scanned == |history.log| + 1 && errors == errored + unlisted
      && Tally(updated, deleted, errored) == Counting(history.tally, o, step)
    }

    /** The body of the innermost loop of ReconcileCells. */
    method VisitCell(cell: Cell)
      requires Valid() && Explains(w)
      modifies this
      ensures Valid() && history.start == old(history.start) && history.visited == old(history.visited) + [cell]
    {
      ghost var before, h := cells, history;
      var a := answers(scanned);
      var outcome, left := ReconcileCell(cell, a);
      CountOutcome(outcome);
      if outcome.Errored? || outcome.deleted || outcome.vanished {
        ghost var v := Visit(cell, outcome, left, NoVerdict, NotTried);
        OneMoreVisit(w, answers, h, before, v);
        history := Next(h, v);
      } else {
        SyncCell(before, cell, outcome, left, a, h);
      }
    }

    method CountOutcome(outcome: Outcome)
      requires InStep()
      modifies this`scanned, this`updated, this`deleted, this`errored, this`errors
      ensures Moved(outcome, NotTried)
    {
      scanned := scanned + 1;
      if outcome.Errored? {
        errored, errors := errored + 1, errors + 1;
      } else if outcome.deleted {
        deleted := deleted + 1;
      } else if outcome.updated {
        updated := updated + 1;
      }
    }

    /** The drift detection step of a visit. */
    method SyncCell(ghost before: Store, cell: Cell, outcome: Outcome, ghost left: Option<Cell>, a: VisitAnswer,
                    ghost h: History)
      requires outcome.Done? && !Gone(outcome) && Explains(w) && history == h
      requires a == answers(|h.log|) && (outcome, left) == Fitted(cell, Entry(before, IdOf(cell.body)), a)
      requires Moved(outcome, NotTried) && Sound(w, answers, h, before)
      requires cells == Set(before, IdOf(cell.body), left)
      modifies this
      ensures Valid() && history.start == h.start && history.visited == h.visited + [cell]
    {
      var step, v := DetectVisit(before, cell, outcome, left, a, h);
      CountStep(outcome, step);
      history := Next(h, v);
    }

    /** Detection, with the visit it makes. */
    method DetectVisit(ghost before: Store, cell: Cell, outcome: Outcome, ghost left: Option<Cell>, a: VisitAnswer,
                       ghost h: History)
      returns (step: SyncStep, ghost v: Visit)
      requires outcome.Done? && !Gone(outcome) && Explains(w)
      requires a == answers(|h.log|) && (outcome, left) == Fitted(cell, Entry(before, IdOf(cell.body)), a)
      requires cells == Set(before, IdOf(cell.body), left) && Sound(w, answers, h, before)
      modifies this`cells
      ensures v.cell == cell && v.outcome == outcome && v.step == step
      ensures Sound(w, answers, Next(h, v), cells)
    {
      var verdict;
      step, verdict := Detect(outcome.cell, a.writeOk);
      v := Visit(cell, outcome, left, verdict, step);
      FittedFits(cell, Entry(before, IdOf(cell.body)), a);
      Detected(w, before, v);
      OneMoreVisit(w, answers, h, before, v);
    }

    method CountStep(outcome: Outcome, step: SyncStep)
      requires outcome.Done? && !Gone(outcome) && Moved(outcome, NotTried)
      modifies this`updated, this`errored, this`errors
      ensures Moved(outcome, step)
    {
      if step == WriteError {
        errored, errors := errored + 1, errors + 1;
      } else if step == Wrote && !outcome.updated {
        updated := updated + 1;
      }
    }

    /** runner.ReconcileCell */
    method ReconcileCell(cell: Cell, a: VisitAnswer) returns (outcome: Outcome, ghost left: Option<Cell>)
      modifies this`cells
      ensures (outcome, left) == Fitted(cell, Entry(old(cells), IdOf(cell.body)), a)
      ensures RunnerFits(Entry(old(cells), IdOf(cell.body)), Visit(cell, outcome, left, NoVerdict, NotTried))
      ensures cells == Set(old(cells), IdOf(cell.body), left)
    {
      var id := IdOf(cell.body);
      FittedFits(cell, Entry(cells, id), a);
      var (o, kept) := Fitted(cell, Entry(cells, id), a);
      outcome, left := o, kept;
      cells := Set(cells, id, kept);
    }

    /** reconcileCellOutOfSync: the verdict, and the document rewritten when it is news. */
    method Detect(cell: Cell, writeOk: bool) returns (step: SyncStep, verdict: Sync)
      requires Explains(w)
      modifies this`cells
      ensures !step.NotTried?
      ensures Lineage(cell.body).None? ==> step.Quiet?
      ensures Lineage(cell.body).Some? ==>
              IsVerdict(w, cell.body, verdict) && (step.Quiet? <==> cell.status.sync == verdict)
      ensures (step.Wrote? ==> writeOk) && (step.WriteError? ==> !writeOk)
      ensures cells == if step.Wrote? then old(cells)[IdOf(cell.body) := WithSync(cell, verdict)] else old(cells)
    {
      verdict := NoVerdict;
      if Lineage(cell.body).None? {
        return Quiet, verdict;
      }
      verdict := DesiredVerdict(w, cell.body);
      if cell.status.sync == verdict {
        return Quiet, verdict;
      }
      if !writeOk {
        return WriteError, verdict;
      }
      cells := cells[IdOf(cell.body) := WithSync(cell, verdict)];
      step := Wrote;
    }

    /** A listing that failed: one more error. */
    method Skip()
      requires Valid()
      modifies this`errors, this`unlisted
      ensures Valid() && errors == old(errors) + 1
    {
      errors, unlisted := errors + 1, unlisted + 1;
    }

    /** The four nested loops of ReconcileCells: every listed cell is visited once, in listing order. */
    method ReconcileCells(realms: Listing<Realm>)
      requires Valid() && history.visited == [] && Explains(w)
      modifies this
      ensures Valid() && history.start == old(history.start)
      ensures history.visited == RealmCells(Items(realms))
    {
      if realms.Unlisted? {
        Skip();
        return;
      }
      for i := 0 to |realms.items|
        invariant Valid() && history.start == old(history.start)
        invariant history.visited == RealmCells(realms.items[..i])
      {
        WalkSpaces(realms.items[i].spaces);
        RealmCellsStep(realms.items, i);
      }
      assert realms.items[..|realms.items|] == realms.items;
    }

    method WalkSpaces(spaces: Listing<Space>)
      requires Valid() && Explains(w)
      modifies this
      ensures Valid() && history.start == old(history.start)
      ensures history.visited == old(history.visited) + SpaceCells(Items(spaces))
    {
      if spaces.Unlisted? {
        Skip();
        return;
      }
      for i := 0 to |spaces.items|
        invariant Valid() && history.start == old(history.start)
        invariant history.visited == old(history.visited) + SpaceCells(spaces.items[..i])
      {
        WalkStacks(spaces.items[i].stacks);
        SpaceCellsStep(old(history.visited), spaces.items, i);
      }
      assert spaces.items[..|spaces.items|] == spaces.items;
    }

    method WalkStacks(stacks: Listing<Stack>)
      requires Valid() && Explains(w)
      modifies this
      ensures Valid() && history.start == old(history.start)
      ensures history.visited == old(history.visited) + StackCells(Items(stacks))
    {
      if stacks.Unlisted? {
        Skip();
        return;
      }
      for i := 0 to |stacks.items|
        invariant Valid() && history.start == old(history.start)
        invariant history.visited == old(history.visited) + StackCells(stacks.items[..i])
      {
        WalkCells(stacks.items[i].cells);
        StackCellsStep(old(history.visited), stacks.items, i);
      }
      assert stacks.items[..|stacks.items|] == stacks.items;
    }

    method WalkCells(listed: Listing<Cell>)
      requires Valid() && Explains(w)
      modifies this
      ensures Valid() && history.start == old(history.start)
      ensures history.visited == old(history.visited) + Items(listed)
    {
      if listed.Unlisted? {
        Skip();
        return;
      }
      for i := 0 to |listed.items|
        invariant Valid() && history.start == old(history.start)
        invariant history.visited == old(history.visited) + listed.items[..i]
      {
        VisitCell(listed.items[i]);
        CellsStep(old(history.visited), listed.items, i);
      }
      assert listed.items[..|listed.items|] == listed.items;
    }
  }
}
