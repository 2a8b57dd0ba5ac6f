/**
 Drift detection for Config-lineage cells and the reconcile walk that runs it
 (internal/controller/reconcile_outofsync.go, reconcile.go).
 */
module OutOfSync {
  import opened Order
  import opened Cells

  // ----- Finding the lineage Config -----

  datatype Reply<+T> = Found(value: T) | NotFound | Failure(text: string)

  /** The (space, stack) scopes probed for a cell, widening from its own. */
  function Probes(space: string, stack: string): seq<(string, string)> {
    [(space, stack)] + (if stack != "" then [(space, "")] else []) + (if space != "" then [("", "")] else [])
  }

  /** Every enclosing scope is probed, each once. */
  lemma ProbesCoverScopes(space: string, stack: string)
    ensures Elements(Probes(space, stack)) == {(space, stack), (space, ""), ("", "")}
    ensures forall i, j | 0 <= i < j < |Probes(space, stack)| :: Probes(space, stack)[i] != Probes(space, stack)[j]
  {
    var ps := Probes(space, stack);
    assert ps[0] in ps && ps[|ps| - 1] in ps;
    assert forall p <- ps :: p in {(space, stack), (space, ""), ("", "")};
    assert (space, "") in ps by {
      assert stack != "" ==> ps[1] == (space, "");
    }
  }

  /** The first scope that does not report the Config missing decides. */
  function Lookup<C>(get: ((string, string)) -> Reply<C>, probes: seq<(string, string)>): Reply<C> {
    if probes == [] then NotFound
    else if !get(probes[0]).NotFound? then get(probes[0])
    else Lookup(get, probes[1..])
  }

  lemma {:induction false} LookupStep<C>(get: ((string, string)) -> Reply<C>, probes: seq<(string, string)>, i: nat)
    requires i <= |probes| && forall p <- probes[..i] :: get(p).NotFound?
    ensures Lookup(get, probes) == Lookup(get, probes[i..])
  {
    if i > 0 {
      assert probes[0] in probes[..i];
      assert probes[1..][..i - 1] == probes[1..i] && forall p <- probes[1..i] :: p in probes[..i];
      assert probes[1..][i - 1..] == probes[i..];
      LookupStep(get, probes[1..], i - 1);
    } else {
      assert probes[i..] == probes;
    }
  }

  lemma {:induction false} LookupMisses<C>(get: ((string, string)) -> Reply<C>, probes: seq<(string, string)>)
    ensures Lookup(get, probes).NotFound? <==> forall p <- probes :: get(p).NotFound?
  {
    if probes != [] {
      LookupMisses(get, probes[1..]);
      assert probes[0] in probes && forall p <- probes :: p == probes[0] || p in probes[1..];
    }
  }

  /** The cell's own scope decides unless it reports the Config missing, then its space, then the realm. */
  lemma NarrowestDecides<C>(get: ((string, string)) -> Reply<C>, space: string, stack: string)
    ensures var own, mid, top := get((space, stack)), get((space, "")), get(("", ""));
            Lookup(get, Probes(space, stack)) ==
            if !own.NotFound? then own else if !mid.NotFound? then mid else if !top.NotFound? then top else NotFound
  {
    var ps := Probes(space, stack);
    assert ps[1..] == (if stack != "" then [(space, "")] else []) + (if space != "" then [("", "")] else []);
    assert Lookup(get, ps[1..]) ==
           if stack != "" && !get((space, "")).NotFound? then get((space, ""))
           else if space != "" && !get(("", "")).NotFound? then get(("", "")) else NotFound by {
      LookupTwo(get, if stack != "" then [(space, "")] else [], if space != "" then [("", "")] else []);
    }
  }

  lemma LookupTwo<C>(get: ((string, string)) -> Reply<C>, a: seq<(string, string)>, b: seq<(string, string)>)
    requires |a| <= 1 && |b| <= 1
    ensures Lookup(get, a + b) ==
            if a != [] && !get(a[0]).NotFound? then get(a[0])
            else if b != [] && !get(b[0]).NotFound? then get(b[0]) else NotFound
  {
    if a == [] {
      assert a + b == b;
    } else {
      assert (a + b)[1..] == b;
    }
    if b != [] {
      assert b[1..] == [];
    }
  }

  /** lookupLineageConfig */
  method LookupLineageConfig<C>(get: ((string, string)) -> Reply<C>, space: string, stack: string) returns (r: Reply<C>)
    ensures r == Lookup(get, Probes(space, stack))
    ensures r.NotFound? <==> forall p <- Probes(space, stack) :: get(p).NotFound?
    ensures !r.NotFound? ==> exists i | 0 <= i < |Probes(space, stack)| ::
      get(Probes(space, stack)[i]) == r && forall p <- Probes(space, stack)[..i] :: get(p).NotFound?
  {
    var probes := [(space, stack)];
    if stack != "" {
      probes := probes + [(space, "")];
    }
    if space != "" {
      probes := probes + [("", "")];
    }
    assert probes == Probes(space, stack);
    for i := 0 to |probes|
      invariant forall p <- probes[..i] :: get(p).NotFound?
    {
      r := get(probes[i]);
      LookupStep(get, probes, i);
      if !r.NotFound? {
        return;
      }
    }
    assert probes[..|probes|] == probes;
    LookupStep(get, probes, |probes|);
    r := NotFound;
  }

  // ----- Rendering a difference -----

  datatype Action = Add | Update | Other

  datatype ContainerDiff = ContainerDiff(name: string, action: Action, changed: seq<string>, breaking: seq<string>)

  datatype CellDiff = CellDiff(
    hasChanges: bool, changed: seq<string>, breaking: seq<string>, rootChanged: bool,
    containers: seq<ContainerDiff>, orphans: seq<string>)

  function Added(name: string): string { "containers[" + name + "] (added)" }

  function Removed(id: string): string { "containers[" + id + "] (removed)" }

  function Field(name: string, f: string): string { "containers[" + name + "]." + f }

  /** The paths one container difference contributes. */
  ghost function ContainerPaths(c: ContainerDiff): set<string> {
    match c.action
    case Add => {Added(c.name)}
    case Update => set f | f in c.changed + c.breaking :: Field(c.name, f)
    case Other => {}
  }

  ghost function AllContainerPaths(cs: seq<ContainerDiff>): set<string> {
    set c, p | c in cs && p in ContainerPaths(c) :: p
  }

  /** Every field path a difference names. */
  ghost function FieldPaths(d: CellDiff): set<string> {
    (Elements(d.changed) + Elements(d.breaking) - {""})
    + (if d.rootChanged then {"spec.rootContainer"} else {})
    + AllContainerPaths(d.containers)
    + (set id | id in d.orphans :: Removed(id))
  }

  /** A listing of paths as it is persisted: sorted, each path once. */
  ghost predicate IsListing(fields: seq<string>, paths: set<string>) {
    Sorted(StringLe, fields) && multiset(fields) == multiset(paths)
  }

  /** The same paths are always listed the same way, whatever order the difference or the set had. */
  lemma ListingUnique(a: seq<string>, b: seq<string>, paths: set<string>)
    requires IsListing(a, paths) && IsListing(b, paths)
    ensures a == b
  {
    StringOrder();
    SortedUnique(StringLe, a, b);
  }

  /** The non-empty entries of one field list, added to seen. */
  method AddAll(seen: set<string>, fields: seq<string>) returns (r: set<string>)
    ensures r == seen + (Elements(fields) - {""})
  {
    r := seen;
    for i := 0 to |fields|
      invariant r == seen + (Elements(fields[..i]) - {""})
    {
      if fields[i] != "" {
        r := r + {fields[i]};
      }
      assert fields[..i + 1] == fields[..i] + [fields[i]];
    }
    assert fields[..|fields|] == fields;
  }

  method AddContainer(seen: set<string>, c: ContainerDiff) returns (r: set<string>)
    ensures r == seen + ContainerPaths(c)
  {
    r := seen;
    match c.action {
      case Add => r := r + {Added(c.name)};
      case Update =>
        var fs := c.changed + c.breaking;
        for i := 0 to |fs|
          invariant r == seen + set f | f in fs[..i] :: Field(c.name, f)
        {
          r := r + {Field(c.name, fs[i])};
          assert fs[..i + 1] == fs[..i] + [fs[i]];
        }
        assert fs[..|fs|] == fs;
      case Other =>
    }
  }

  /** collectDiffFieldPaths: gather into a set, range over it in whatever order, sort. */
  method CollectFieldPaths(d: CellDiff) returns (fields: seq<string>)
    ensures IsListing(fields, FieldPaths(d))
  {
    var seen := AddAll({}, d.changed);
    seen := AddAll(seen, d.breaking);
    if d.rootChanged {
      seen := seen + {"spec.rootContainer"};
    }
    seen := AddContainers(seen, d.containers);
    seen := AddOrphans(seen, d.orphans);
    assert seen == FieldPaths(d);
    fields := ListPaths(seen);
  }

  method AddContainers(seen: set<string>, cs: seq<ContainerDiff>) returns (r: set<string>)
    ensures r == seen + AllContainerPaths(cs)
  {
    r := seen;
    for i := 0 to |cs|
      invariant r == seen + AllContainerPaths(cs[..i])
    {
      r := AddContainer(r, cs[i]);
      assert cs[..i + 1] == cs[..i] + [cs[i]];
      assert AllContainerPaths(cs[..i + 1]) == AllContainerPaths(cs[..i]) + ContainerPaths(cs[i]);
    }
    assert cs[..|cs|] == cs;
  }

  method AddOrphans(seen: set<string>, ids: seq<string>) returns (r: set<string>)
    ensures r == seen + set id | id in ids :: Removed(id)
  {
    r := seen;
    for i := 0 to |ids|
      invariant r == seen + set id | id in ids[..i] :: Removed(id)
    {
      r := r + {Removed(ids[i])};
      assert ids[..i + 1] == ids[..i] + [ids[i]];
    }
    assert ids[..|ids|] == ids;
  }

  /** Ranges over the set in whatever order, then sorts. */
  method ListPaths(seen: set<string>) returns (fields: seq<string>)
    ensures IsListing(fields, seen)
  {
    fields := [];
    var rest := seen;
    while rest != {}
      invariant rest <= seen && multiset(fields) == multiset(seen - rest)
    {
      var path :| path in rest;
      fields := fields + [path];
      assert seen - (rest - {path}) == (seen - rest) + {path};
      rest := rest - {path};
    }
    assert seen - rest == seen;
    StringOrder();
    fields := Sort(StringLe, fields);
  }

  function Join(fields: seq<string>): string {
    if |fields| == 0 then "" else if |fields| == 1 then fields[0] else fields[0] + ", " + Join(fields[1..])
  }

  const CONFIG_DELETED := "lineage Config deleted"
  const SPEC_DIFFERS := "spec differs"

  /** outOfSyncSpecDifferReason */
  function Reason(fields: seq<string>): string {
    if fields == [] then SPEC_DIFFERS else SPEC_DIFFERS + " at " + Join(fields)
  }

  // ----- The verdict -----

  /** Re-materialising a Config: a body, or an error whose text is any one of these (map iteration picks it). */
  datatype Materialized = Body(body: Cells.Body) | Errors(texts: set<string>)

  /** The stores as one pass reads them. */
  datatype World<!C> = World(
    config: Cells.Body -> Reply<C>,
    materialize: (C, string, seq<string>) -> Materialized,
    diff: (Cells.Body, Cells.Body) -> CellDiff)

  /** A failed materialisation always comes with a text. */
  ghost predicate Explains<C(!new)>(w: World<C>) {
    forall c, name, env | w.materialize(c, name, env).Errors? :: w.materialize(c, name, env).texts != {}
  }

  /** v is a verdict one pass over a cell with body b may reach (desiredCellOutOfSync). */
  ghost predicate IsVerdict<C>(w: World<C>, b: Cells.Body, v: Sync) {
    match w.config(b)
    case Failure(text) => v == Sync(false, "", "read lineage config: " + text)
    case NotFound => v == Sync(true, CONFIG_DELETED, "")
    case Found(cfg) =>
      match w.materialize(cfg, b.name, b.envOverrides)
      case Errors(texts) => exists t <- texts :: v == Sync(false, "", t)
      case Body(desired) =>
        var d := w.diff(desired, b);
        if !d.hasChanges then v == Sync(false, "", "")
        else exists fields :: IsListing(fields, FieldPaths(d)) && v == Sync(true, Reason(fields), "")
  }

  /** desiredCellOutOfSync */
  method DesiredVerdict<C(!new)>(w: World<C>, b: Cells.Body) returns (v: Sync)
    requires Explains(w)
    ensures IsVerdict(w, b, v)
  {
    match w.config(b) {
      case Failure(text) =>
        v := Sync(false, "", "read lineage config: " + text);
      case NotFound =>
        v := Sync(true, CONFIG_DELETED, "");
      case Found(cfg) =>
        match w.materialize(cfg, b.name, b.envOverrides) {
          case Errors(texts) =>
            var t :| t in texts;
            v := Sync(false, "", t);
          case Body(desired) =>
            var d := w.diff(desired, b);
            if !d.hasChanges {
              v := Sync(false, "", "");
            } else {
              var fields := CollectFieldPaths(d);
              v := Sync(true, Reason(fields), "");
            }
        }
    }
  }

  /** Drift and undecidable never go together, and a reason is given exactly with drift. */
  lemma VerdictsAreExclusive<C>(w: World<C>, b: Cells.Body, v: Sync)
    requires IsVerdict(w, b, v)
    ensures v.outOfSync ==> v.error == "" && v.reason != ""
    ensures !v.outOfSync ==> v.reason == ""
  {
  }

  /** The error texts a pass may report when materialisation fails. */
  ghost function ErrorTexts<C>(w: World<C>, b: Cells.Body): set<string> {
    match w.config(b)
    case Found(cfg) =>
      (match w.materialize(cfg, b.name, b.envOverrides)
       case Errors(texts) => texts
       case Body(_) => {})
    case _ => {}
  }

  /** A failed materialisation has one text to report. */
  ghost predicate Settled<C>(w: World<C>, b: Cells.Body) {
    forall t, t' | t in ErrorTexts(w, b) && t' in ErrorTexts(w, b) :: t == t'
  }

  /** With the stores unchanged the verdict is settled exactly when the error text is. */
  lemma VerdictIsSettled<C>(w: World<C>, b: Cells.Body)
    ensures (forall v, v' | IsVerdict(w, b, v) && IsVerdict(w, b, v') :: v == v') <==> Settled(w, b)
  {
    var texts := ErrorTexts(w, b);
    forall t | t in texts ensures IsVerdict(w, b, Sync(false, "", t)) {
    }
    if forall v, v' | IsVerdict(w, b, v) && IsVerdict(w, b, v') :: v == v' {
      forall t, t' | t in texts && t' in texts ensures t == t' {
        assert Sync(false, "", t) == Sync(false, "", t');
      }
    }
    if forall t, t' | t in texts && t' in texts :: t == t' {
      forall v, v' | IsVerdict(w, b, v) && IsVerdict(w, b, v') ensures v == v' {
        if v.outOfSync && v'.outOfSync {
          DriftVerdictUnique(w, b, v, v');
        }
      }
    }
  }

  // ----- What a verdict means -----

  /** A cell is out of sync exactly when its Config is gone, or what that materialises to now differs from the cell. */
  lemma OutOfSyncExactly<C>(w: World<C>, b: Cells.Body, v: Sync)
    requires IsVerdict(w, b, v)
    ensures v.outOfSync <==>
            || w.config(b).NotFound?
            || (w.config(b).Found?
                && w.materialize(w.config(b).value, b.name, b.envOverrides).Body?
                && w.diff(w.materialize(w.config(b).value, b.name, b.envOverrides).body, b).hasChanges)
    ensures v.error == "" && !v.outOfSync && w.config(b).Found? ==>
      match w.materialize(w.config(b).value, b.name, b.envOverrides)
      case Errors(texts) => "" in texts
      case Body(desired) => !w.diff(desired, b).hasChanges
  {
  }

  /** A difference that finds none between a body and itself. */
  ghost predicate Reflexive(diff: (Cells.Body, Cells.Body) -> CellDiff) {
    forall b :: !diff(b, b).hasChanges
  }

  /** A cell that is what its Config materialises to is in sync. */
  lemma MatchingIsInSync<C>(w: World<C>, b: Cells.Body, cfg: C, v: Sync)
    requires IsVerdict(w, b, v) && Reflexive(w.diff)
    requires w.config(b) == Found(cfg) && w.materialize(cfg, b.name, b.envOverrides) == Materialized.Body(b)
    ensures v == Sync(false, "", "")
  {
  }

  ghost predicate Contains(s: string, t: string) {
    exists a, b :: Framed(s, a, t, b)
  }

  ghost predicate Framed(s: string, a: string, t: string, b: string) { s == a + t + b }

  lemma ContainsWithin(a: string, s: string, b: string, t: string)
    requires Contains(s, t)
    ensures Contains(a + s + b, t)
  {
    var a', b' :| Framed(s, a', t, b');
    assert a + (a' + t + b') + b == (a + a') + t + (b' + b);
    assert Framed(a + s + b, a + a', t, b' + b);
  }

  lemma {:induction false} JoinContains(fields: seq<string>, f: string)
    requires f in fields
    ensures Contains(Join(fields), f)
  {
    if |fields| == 1 {
      assert Framed(Join(fields), "", f, "");
    } else if f == fields[0] {
      assert Framed(Join(fields), "", f, ", " + Join(fields[1..]));
    } else {
      JoinContains(fields[1..], f);
      ContainsWithin(fields[0] + ", ", Join(fields[1..]), "", f);
      assert fields[0] + ", " + Join(fields[1..]) + "" == Join(fields);
    }
  }

  /** The reason for a difference spells out every path it names. */
  lemma ReasonNamesPaths<C>(w: World<C>, b: Cells.Body, cfg: C, desired: Cells.Body, v: Sync, path: string)
    requires IsVerdict(w, b, v) && w.config(b) == Found(cfg)
    requires w.materialize(cfg, b.name, b.envOverrides) == Materialized.Body(desired)
    requires w.diff(desired, b).hasChanges && path in FieldPaths(w.diff(desired, b))
    ensures v.outOfSync && Contains(v.reason, path)
  {
    var paths := FieldPaths(w.diff(desired, b));
    var fields :| IsListing(fields, paths) && v == Sync(true, Reason(fields), "");
    assert path in multiset(fields);
    JoinContains(fields, path);
    ContainsWithin(SPEC_DIFFERS + " at ", Join(fields), "", path);
    assert SPEC_DIFFERS + " at " + Join(fields) + "" == Reason(fields);
  }

  /** The paths a difference names: its own fields, the root container, added and removed containers, and the changed
      fields of the others. */
  lemma PathsNamed(d: CellDiff, path: string)
    ensures path in FieldPaths(d) <==>
            || (path != "" && (path in d.changed || path in d.breaking))
            || (path == "spec.rootContainer" && d.rootChanged)
            || (exists c <- d.containers :: NamesContainer(c, path))
            || (exists id <- d.orphans :: path == "containers[" + id + "] (removed)")
  {
    forall c | c in d.containers ensures path in ContainerPaths(c) <==> NamesContainer(c, path) {
      ContainerPathsNamed(c, path);
    }
  }

  predicate NamesContainer(c: ContainerDiff, path: string) {
    match c.action
    case Add => path == "containers[" + c.name + "] (added)"
    case Update =>
      || (exists f <- c.changed :: path == "containers[" + c.name + "]." + f)
      || (exists f <- c.breaking :: path == "containers[" + c.name + "]." + f)
    case Other => false
  }

  lemma ContainerPathsNamed(c: ContainerDiff, path: string)
    ensures path in ContainerPaths(c) <==> NamesContainer(c, path)
  {
    if c.action.Update? {
      forall f ensures f in c.changed + c.breaking <==> f in c.changed || f in c.breaking {
      }
      if path in ContainerPaths(c) {
        var f :| f in c.changed + c.breaking && path == Field(c.name, f);
        assert f in c.changed || f in c.breaking;
      }
      if f :| f in c.changed && path == "containers[" + c.name + "]." + f {
        assert f in c.changed + c.breaking && path == Field(c.name, f);
      }
      if f :| f in c.breaking && path == "containers[" + c.name + "]." + f {
        assert f in c.changed + c.breaking && path == Field(c.name, f);
      }
    }
  }

  /** The Config counts as deleted exactly when the lookup does not find it; no other drift has that reason. */
  lemma DeletedExactly<C>(w: World<C>, b: Cells.Body, v: Sync)
    requires IsVerdict(w, b, v)
    ensures v == Sync(true, CONFIG_DELETED, "") <==> w.config(b).NotFound?
  {
    assert CONFIG_DELETED[0] != SPEC_DIFFERS[0];
    assert forall fields :: Reason(fields)[0] == SPEC_DIFFERS[0];
  }

  lemma DriftVerdictUnique<C>(w: World<C>, b: Cells.Body, v: Sync, v': Sync)
    requires IsVerdict(w, b, v) && IsVerdict(w, b, v') && v.outOfSync && v'.outOfSync
    ensures v == v'
  {
    if w.config(b).Found? {
      var d := w.diff(w.materialize(w.config(b).value, b.name, b.envOverrides).body, b);
      var f :| IsListing(f, FieldPaths(d)) && v == Sync(true, Reason(f), "");
      var f' :| IsListing(f', FieldPaths(d)) && v' == Sync(true, Reason(f'), "");
      ListingUnique(f, f', FieldPaths(d));
    }
  }

  lemma ListingExists(paths: set<string>) returns (fields: seq<string>)
    ensures IsListing(fields, paths)
  {
    StringOrder();
    fields := Sort(StringLe, SomeListing(paths));
  }

  ghost function SomeListing(paths: set<string>): (r: seq<string>)
    ensures multiset(r) == multiset(paths)
  {
    if paths == {} then []
    else
      var p :| p in paths;
      assert paths == (paths - {p}) + {p};
      [p] + SomeListing(paths - {p})
  }

  /** Every cell gets a verdict. */
  lemma VerdictExists<C(!new)>(w: World<C>, b: Cells.Body) returns (v: Sync)
    requires Explains(w)
    ensures IsVerdict(w, b, v)
  {
    match w.config(b) {
      case Failure(text) => v := Sync(false, "", "read lineage config: " + text);
      case NotFound => v := Sync(true, CONFIG_DELETED, "");
      case Found(cfg) =>
        match w.materialize(cfg, b.name, b.envOverrides) {
          case Errors(texts) =>
            var t :| t in texts;
            v := Sync(false, "", t);
          case Body(desired) =>
            var fields := ListingExists(FieldPaths(w.diff(desired, b)));
            v := if w.diff(desired, b).hasChanges then Sync(true, Reason(fields), "") else Sync(false, "", "");
        }
    }
  }

  // ----- Persisting it -----

  datatype SyncStep = NotTried | Quiet | Wrote | WriteError

  /** persistCellOutOfSync: the stored cell afterwards, and what happened. */
  function Persist(cell: Cell, v: Sync, writeOk: bool): (Cell, SyncStep) {
    if cell.status.sync == v then (cell, Quiet)
    else if writeOk then (cell.(status := cell.status.(sync := v)), Wrote)
    else (cell, WriteError)
  }

  /** Writing one verdict leaves nothing to write for the next, whichever two verdicts are reached. */
  ghost predicate StaysWritten<C>(w: World<C>, cell: Cell) {
    forall v, v', ok: bool | IsVerdict(w, cell.body, v) && IsVerdict(w, Persist(cell, v, true).0.body, v') ::
      Persist(Persist(cell, v, true).0, v', ok).1 == Quiet
  }

  lemma PassIsFixpoint<C>(w: World<C>, cell: Cell)
    ensures StaysWritten(w, cell) <==> Settled(w, cell.body)
  {
    VerdictIsSettled(w, cell.body);
    forall v: Sync, v': Sync, ok: bool
      ensures Persist(cell, v, true).0.body == cell.body
      ensures Persist(Persist(cell, v, true).0, v', ok).1 == Quiet <==> v == v'
    {
    }
    if StaysWritten(w, cell) {
      forall v, v' | IsVerdict(w, cell.body, v) && IsVerdict(w, cell.body, v') ensures v == v' {
        assert Persist(Persist(cell, v, true).0, v', true).1 == Quiet;
      }
    }
  }
}
