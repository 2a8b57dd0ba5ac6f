/**
 Applying documents for a team and pruning what the team no longer declares
 (internal/controller/apply.go). Only the two kinds the prune looks at are
 stored: blueprints and configs, under their scoped names, with their team
 label; a config also names the blueprint it instantiates.
 */
module TeamApply {
  import opened Documents

  datatype Ref = Ref(realm: string, space: string, stack: string, name: string)

  const LABEL_TEAM := "kukeon.io/team"

  type Labels = map<string, string>

  datatype Stored = Stored(labels: Labels, blueprint: Ref)

  type Table = map<Ref, Stored>

  /** What a parsed document carries. */
  datatype Object = Object(ref: Ref, content: Stored)

  type Doc = Document<Object>

  predicate HasTeam(s: Stored, team: string) {
    LABEL_TEAM in s.labels && s.labels[LABEL_TEAM] == team
  }

  ghost function TeamRefs(t: Table, team: string): set<Ref> {
    set r | r in t && HasTeam(t[r], team)
  }

  /** stampTeamLabel */
  function Stamp(labels: Labels, team: string): Labels {
    labels[LABEL_TEAM := team]
  }

  /** The object as it is persisted. */
  function Persisted(d: Doc, team: string): Stored {
    var s := d.payload.content;
    if team == "" then s else s.(labels := Stamp(s.labels, team))
  }

  // ----- Pruning -----

  /** What remains when the team's objects outside kept are deleted, the failed deletions aside. */
  ghost function Pruned(t: Table, team: string, kept: set<Ref>, failed: set<Ref>): Table {
    map r | r in t && !(HasTeam(t[r], team) && r !in kept && r !in failed) :: t[r]
  }

  /** A prune without failures leaves exactly the kept objects of the team and every other object as it was. */
  lemma PruneIsExact(t: Table, team: string, kept: set<Ref>)
    ensures var t' := Pruned(t, team, kept, {});
            && TeamRefs(t', team) == TeamRefs(t, team) * kept
            && (forall r <- t :: !HasTeam(t[r], team) ==> r in t' && t'[r] == t[r])
            && (forall r <- t' :: r in t && t'[r] == t[r])
  {
  }

  /** The runner's part of a prune: the two listings, and the deletions that fail. */
  datatype PruneAnswers = PruneAnswers(
    configsListed: bool, blueprintsListed: bool, stuckConfigs: set<Ref>, stuckBlueprints: set<Ref>)

  class Daemon {
    var blueprints: Table
    var configs: Table

    constructor (blueprints: Table, configs: Table)
      ensures this.blueprints == blueprints && this.configs == configs
    {
      this.blueprints := blueprints;
      this.configs := configs;
    }

    /** runner.DeleteBlueprint, which fails for the stuck ones. */
    method DeleteBlueprint(r: Ref, stuck: set<Ref>)
      modifies this`blueprints
      ensures blueprints == if r in stuck then old(blueprints) else old(blueprints) - {r}
    {
      if r !in stuck {
        blueprints := blueprints - {r};
      }
    }

    /** runner.DeleteConfig, likewise. */
    method DeleteConfig(r: Ref, stuck: set<Ref>)
      modifies this`configs
      ensures configs == if r in stuck then old(configs) else old(configs) - {r}
    {
      if r !in stuck {
        configs := configs - {r};
      }
    }

    /** pruneTeamObjects: nothing is deleted unless both listings succeed. */
    method PruneTeamObjects(team: string, keptBlueprints: set<Ref>, keptConfigs: set<Ref>, a: PruneAnswers)
      returns (ok: bool)
      modifies this
      ensures ok <==> a.configsListed && a.blueprintsListed
      ensures !ok ==> blueprints == old(blueprints) && configs == old(configs)
      ensures ok ==> blueprints == Pruned(old(blueprints), team, keptBlueprints, a.stuckBlueprints)
      ensures ok ==> configs == Pruned(old(configs), team, keptConfigs, a.stuckConfigs)
    {
      if !a.configsListed {
        return false;
      }
      var listedConfigs := configs;
      if !a.blueprintsListed {
        return false;
      }
      var listedBlueprints := blueprints;

      var todo := listedConfigs.Keys;
      while todo != {}
        invariant todo <= listedConfigs.Keys && blueprints == old(blueprints)
        invariant configs == map r | r in listedConfigs &&
          !(r !in todo && HasTeam(listedConfigs[r], team) && r !in keptConfigs && r !in a.stuckConfigs) ::
            listedConfigs[r]
      {
        var r :| r in todo;
        todo := todo - {r};
        if !HasTeam(listedConfigs[r], team) || r in keptConfigs {
          continue;
        }
        DeleteConfig(r, a.stuckConfigs);
      }

      todo := listedBlueprints.Keys;
      while todo != {}
        invariant todo <= listedBlueprints.Keys
        invariant configs == Pruned(listedConfigs, team, keptConfigs, a.stuckConfigs)
        invariant blueprints == map r | r in listedBlueprints &&
          !(r !in todo && HasTeam(listedBlueprints[r], team) && r !in keptBlueprints && r !in a.stuckBlueprints) ::
          listedBlueprints[r]
      {
        var r :| r in todo;
        todo := todo - {r};
        if !HasTeam(listedBlueprints[r], team) || r in keptBlueprints {
          continue;
        }
        DeleteBlueprint(r, a.stuckBlueprints);
      }
      ok := true;
    }

    /** ApplyDocuments: the sorted documents in turn, then the prune when a team is named. goes says of each position
        whether conversion, scope lookup and write go through. */
    method ApplyDocuments(docs: seq<Doc>, team: string, goes: nat -> bool, a: PruneAnswers)
      returns (ok: bool, ghost sorted: seq<Doc>)
      modifies this
      ensures multiset(sorted) == multiset(docs) && InOrder(false, sorted)
      ensures ok <==> team == "" || (a.configsListed && a.blueprintsListed)
      ensures var p := Applied(Progress(old(blueprints), old(configs), {}, {}), sorted, Answered(goes, |sorted|), team);
              if team == "" || !ok then blueprints == p.blueprints && configs == p.configs
              else
                && blueprints == Pruned(p.blueprints, team, p.appliedBlueprints, a.stuckBlueprints)
                && configs == Pruned(p.configs, team, p.appliedConfigs, a.stuckConfigs)
    {
      var appliedBlueprints, appliedConfigs: set<Ref> := {}, {};
      var ds := SortDocumentsByKind(docs, false);
      sorted := ds;
      ghost var start := Progress(blueprints, configs, {}, {});
      for i := 0 to |ds|
        invariant Progress(blueprints, configs, appliedBlueprints, appliedConfigs) ==
                  Applied(start, ds[..i], Answered(goes, i), team)
      {
        var d := ds[i];
        NextApplied(start, ds, i, goes, team);
        if goes(i) {
          match d.kind {
            case CellBlueprint =>
              blueprints := blueprints[d.payload.ref := Persisted(d, team)];
              appliedBlueprints := appliedBlueprints + {d.payload.ref};
            case CellConfig =>
              if d.payload.content.blueprint in blueprints {
                configs := configs[d.payload.ref := Persisted(d, team)];
                appliedConfigs := appliedConfigs + {d.payload.ref};
              }
            case _ =>
          }
        }
      }
      assert ds[..|ds|] == ds;
      ok := true;
      if team != "" {
        ok := PruneTeamObjects(team, appliedBlueprints, appliedConfigs, a);
      }
    }
  }

  // ----- What an apply achieves -----

  /** The stores and the references applied so far. */
  datatype Progress = Progress(blueprints: Table, configs: Table, appliedBlueprints: set<Ref>, appliedConfigs: set<Ref>)

  /** One document; ok says whether conversion, scope lookup and write go through. A config also needs its blueprint. */
  function ApplyOne(p: Progress, d: Doc, ok: bool, team: string): Progress {
    var r := d.payload.ref;
    if !ok then p
    else match d.kind
      case CellBlueprint =>
        p.(blueprints := p.blueprints[r := Persisted(d, team)], appliedBlueprints := p.appliedBlueprints + {r})
      case CellConfig =>
        if d.payload.content.blueprint in p.blueprints then
          p.(configs := p.configs[r := Persisted(d, team)], appliedConfigs := p.appliedConfigs + {r})
        else p
      case _ => p
  }

  ghost function Applied(p: Progress, docs: seq<Doc>, oks: seq<bool>, team: string): Progress
    requires |docs| == |oks|
    decreases docs
  {
    if docs == [] then p
    else
      var n := |docs| - 1;
      ApplyOne(Applied(p, docs[..n], oks[..n], team), docs[n], oks[n], team)
  }

  /** The first answers of a list of documents. */
  ghost function Answered(goes: nat -> bool, n: nat): (r: seq<bool>)
    ensures |r| == n && forall i | 0 <= i < n :: r[i] == goes(i)
  {
    if n == 0 then [] else Answered(goes, n - 1) + [goes(n - 1)]
  }

  lemma NextApplied(p: Progress, docs: seq<Doc>, i: nat, goes: nat -> bool, team: string)
    requires i < |docs|
    ensures Applied(p, docs[..i + 1], Answered(goes, i + 1), team) ==
            ApplyOne(Applied(p, docs[..i], Answered(goes, i), team), docs[i], goes(i), team)
  {
    assert docs[..i + 1][..i] == docs[..i] && Answered(goes, i + 1)[..i] == Answered(goes, i);
  }

  // ----- Which documents go in, and as what -----

  /** The references of the documents of one kind that go through. */
  ghost function RefsThrough(docs: seq<Doc>, oks: seq<bool>, kind: Kind): set<Ref>
    requires |docs| == |oks|
  {
    set i | 0 <= i < |docs| && oks[i] && docs[i].kind == kind :: docs[i].payload.ref
  }

  lemma RefsThroughStep(docs: seq<Doc>, oks: seq<bool>, kind: Kind, n: nat)
    requires |docs| == |oks| == n + 1
    ensures RefsThrough(docs, oks, kind) ==
            RefsThrough(docs[..n], oks[..n], kind)
            + if oks[n] && docs[n].kind == kind then {docs[n].payload.ref} else {}
  {
    var before := RefsThrough(docs[..n], oks[..n], kind);
    forall i | 0 <= i < n && oks[i] && docs[i].kind == kind ensures docs[i].payload.ref in before {
      assert docs[..n][i] == docs[i] && oks[..n][i] == oks[i];
    }
  }

  /** Every blueprint document that goes through is applied. */
  lemma {:induction false} BlueprintsGoIn(start: Progress, docs: seq<Doc>, oks: seq<bool>, team: string)
    requires |docs| == |oks| && start.appliedBlueprints == {}
    ensures var p := Applied(start, docs, oks, team);
            && p.appliedBlueprints == RefsThrough(docs, oks, CellBlueprint)
            && p.blueprints.Keys == start.blueprints.Keys + p.appliedBlueprints
    decreases docs
  {
    if docs != [] {
      var n := |docs| - 1;
      BlueprintsGoIn(start, docs[..n], oks[..n], team);
      RefsThroughStep(docs, oks, CellBlueprint, n);
    }
  }

  /** The references of the config documents that go through and whose blueprint is stored or applied with them. */
  ghost function ConfigsThrough(start: Progress, docs: seq<Doc>, oks: seq<bool>): set<Ref>
    requires |docs| == |oks|
  {
    set i | 0 <= i < |docs| && GoesInAsConfig(start, docs, oks, i) :: docs[i].payload.ref
  }

  ghost predicate GoesInAsConfig(start: Progress, docs: seq<Doc>, oks: seq<bool>, i: nat)
    requires |docs| == |oks| && i < |docs|
  {
    && oks[i] && docs[i].kind == CellConfig
    && docs[i].payload.content.blueprint in start.blueprints.Keys + RefsThrough(docs, oks, CellBlueprint)
  }

  /** In the order of the sort no blueprint comes after a config. */
  lemma BlueprintsFirst(docs: seq<Doc>, oks: seq<bool>, i: nat)
    requires |docs| == |oks| && InOrder(false, docs) && i < |docs| && docs[i].kind == CellConfig
    ensures RefsThrough(docs[..i], oks[..i], CellBlueprint) == RefsThrough(docs, oks, CellBlueprint)
  {
    assert forall j | i < j < |docs| :: Precedes(false, docs[i], docs[j]) && docs[j].kind != CellBlueprint;
    forall r | r in RefsThrough(docs, oks, CellBlueprint) ensures r in RefsThrough(docs[..i], oks[..i], CellBlueprint) {
      var j :| 0 <= j < |docs| && oks[j] && docs[j].kind == CellBlueprint && docs[j].payload.ref == r;
      assert docs[..i][j] == docs[j] && oks[..i][j] == oks[j];
    }
  }

  /** So whether a config goes in does not depend on what comes later. */
  lemma LaterDoesNotMatter(start: Progress, docs: seq<Doc>, oks: seq<bool>, n: nat, i: nat)
    requires |docs| == |oks| && InOrder(false, docs) && i < n <= |docs|
    ensures GoesInAsConfig(start, docs, oks, i) <==> GoesInAsConfig(start, docs[..n], oks[..n], i)
  {
    if docs[i].kind == CellConfig {
      BlueprintsFirst(docs, oks, i);
      BlueprintsFirst(docs[..n], oks[..n], i);
      assert docs[..n][..i] == docs[..i] && oks[..n][..i] == oks[..i];
    }
  }

  lemma ConfigsThroughStep(start: Progress, docs: seq<Doc>, oks: seq<bool>, n: nat)
    requires |docs| == |oks| == n + 1 && InOrder(false, docs)
    ensures ConfigsThrough(start, docs, oks) ==
            ConfigsThrough(start, docs[..n], oks[..n])
            + if GoesInAsConfig(start, docs, oks, n) then {docs[n].payload.ref} else {}
  {
    forall i | 0 <= i < n
      ensures GoesInAsConfig(start, docs, oks, i) <==> GoesInAsConfig(start, docs[..n], oks[..n], i)
    {
      LaterDoesNotMatter(start, docs, oks, n, i);
    }
    assert forall i | 0 <= i < n :: docs[..n][i] == docs[i];
  }

  lemma GoesInAt(start: Progress, docs: seq<Doc>, oks: seq<bool>, team: string, n: nat)
    requires |docs| == |oks| == n + 1 && InOrder(false, docs) && start.appliedBlueprints == {}
    ensures GoesInAsConfig(start, docs, oks, n) <==>
            && oks[n] && docs[n].kind == CellConfig
            && docs[n].payload.content.blueprint in Applied(start, docs[..n], oks[..n], team).blueprints
  {
    BlueprintsGoIn(start, docs[..n], oks[..n], team);
    if docs[n].kind == CellConfig {
      BlueprintsFirst(docs, oks, n);
    }
  }

  /** And every config document that does, and whose blueprint is stored or goes in with it. */
  lemma {:induction false} ConfigsGoIn(start: Progress, docs: seq<Doc>, oks: seq<bool>, team: string)
    requires |docs| == |oks| && InOrder(false, docs) && start.appliedBlueprints == {} == start.appliedConfigs
    ensures Applied(start, docs, oks, team).appliedConfigs == ConfigsThrough(start, docs, oks)
    decreases docs
  {
    if docs != [] {
      var n := |docs| - 1;
      ConfigsGoIn(start, docs[..n], oks[..n], team);
      GoesInAt(start, docs, oks, team, n);
      ConfigsThroughStep(start, docs, oks, n);
    }
  }

  /** A document as it is stored: its own content, with the team's label beside its other labels. */
  ghost predicate StoredAs(s: Stored, d: Doc, team: string) {
    && s.blueprint == d.payload.content.blueprint
    && (forall k | k != LABEL_TEAM ::
          (k in s.labels <==> k in d.payload.content.labels)
          && (k in s.labels ==> s.labels[k] == d.payload.content.labels[k]))
    && (team != "" ==> HasTeam(s, team))
    && (team == "" ==> s.labels == d.payload.content.labels)
  }

  /** No later document of the kind that goes through has the same reference. */
  ghost predicate LastThrough(docs: seq<Doc>, oks: seq<bool>, i: nat)
    requires |docs| == |oks|
  {
    && i < |docs| && oks[i]
    && forall j | i < j < |docs| && oks[j] && docs[j].kind == docs[i].kind :: docs[j].payload.ref != docs[i].payload.ref
  }

  lemma {:induction false} BlueprintStored(start: Progress, docs: seq<Doc>, oks: seq<bool>, team: string, i: nat)
    requires |docs| == |oks| && LastThrough(docs, oks, i) && docs[i].kind == CellBlueprint
    ensures var t := Applied(start, docs, oks, team).blueprints;
            docs[i].payload.ref in t && StoredAs(t[docs[i].payload.ref], docs[i], team)
    decreases docs
  {
    var n := |docs| - 1;
    if i < n {
      BlueprintStored(start, docs[..n], oks[..n], team, i);
    }
  }

  lemma {:induction false} ConfigStored(start: Progress, docs: seq<Doc>, oks: seq<bool>, team: string, i: nat)
    requires |docs| == |oks| && InOrder(false, docs) && start.appliedBlueprints == {} == start.appliedConfigs
    requires LastThrough(docs, oks, i) && GoesInAsConfig(start, docs, oks, i)
    ensures var t := Applied(start, docs, oks, team).configs;
            docs[i].payload.ref in t && StoredAs(t[docs[i].payload.ref], docs[i], team)
    decreases docs
  {
    var n := |docs| - 1;
    if i < n {
      LaterDoesNotMatter(start, docs, oks, n, i);
      ConfigStored(start, docs[..n], oks[..n], team, i);
      OtherConfigKept(Applied(start, docs[..n], oks[..n], team), docs[n], oks[n], team, docs[i].payload.ref);
    } else {
      GoesInAt(start, docs, oks, team, n);
    }
  }

  lemma OtherConfigKept(p: Progress, d: Doc, ok: bool, team: string, r: Ref)
    requires r in p.configs && !(ok && d.kind == CellConfig && d.payload.ref == r)
    ensures var p' := ApplyOne(p, d, ok, team); r in p'.configs && p'.configs[r] == p.configs[r]
  {
  }

  ghost predicate SameOutside(t: Table, t': Table, refs: set<Ref>) {
    forall r | r !in refs :: (r in t <==> r in t') && (r in t && r in t' ==> t[r] == t'[r])
  }

  /** What a store looks like while a team's documents go in: the applied objects labelled, all others as they were. */
  ghost predicate Labelled(t: Table, start: Table, refs: set<Ref>, team: string) {
    (forall r <- refs :: r in t && HasTeam(t[r], team)) && SameOutside(t, start, refs)
  }

  lemma StoringLabels(t: Table, start: Table, refs: set<Ref>, team: string, d: Doc)
    requires team != "" && Labelled(t, start, refs, team)
    ensures Labelled(t[d.payload.ref := Persisted(d, team)], start, refs + {d.payload.ref}, team)
  {
  }

  lemma {:induction false} BlueprintsLabelled(start: Progress, docs: seq<Doc>, oks: seq<bool>, team: string)
    requires |docs| == |oks| && team != "" && start.appliedBlueprints == {}
    ensures var p := Applied(start, docs, oks, team);
            Labelled(p.blueprints, start.blueprints, p.appliedBlueprints, team)
    decreases docs
  {
    if docs != [] {
      var n := |docs| - 1;
      BlueprintsLabelled(start, docs[..n], oks[..n], team);
      var before := Applied(start, docs[..n], oks[..n], team);
      StoringLabels(before.blueprints, start.blueprints, before.appliedBlueprints, team, docs[n]);
    }
  }

  lemma {:induction false} ConfigsLabelled(start: Progress, docs: seq<Doc>, oks: seq<bool>, team: string)
    requires |docs| == |oks| && team != "" && start.appliedConfigs == {}
    ensures var p := Applied(start, docs, oks, team); Labelled(p.configs, start.configs, p.appliedConfigs, team)
    decreases docs
  {
    if docs != [] {
      var n := |docs| - 1;
      ConfigsLabelled(start, docs[..n], oks[..n], team);
      var before := Applied(start, docs[..n], oks[..n], team);
      StoringLabels(before.configs, start.configs, before.appliedConfigs, team, docs[n]);
    }
  }

  /** Applied objects carry the team's label; everything else is as it was. */
  lemma AppliedEffect(start: Progress, docs: seq<Doc>, oks: seq<bool>, team: string)
    requires |docs| == |oks| && team != "" && start.appliedBlueprints == {} == start.appliedConfigs
    ensures var p := Applied(start, docs, oks, team);
            && Labelled(p.blueprints, start.blueprints, p.appliedBlueprints, team)
            && Labelled(p.configs, start.configs, p.appliedConfigs, team)
  {
    BlueprintsLabelled(start, docs, oks, team);
    ConfigsLabelled(start, docs, oks, team);
  }

  /** After a team apply whose deletions all succeed, the team owns exactly what it applied, and objects of
      other teams that the apply did not name are untouched. */
  lemma TeamOwnsExactlyItsApply(start: Progress, docs: seq<Doc>, oks: seq<bool>, team: string)
    requires |docs| == |oks| && team != "" && start.appliedBlueprints == {} == start.appliedConfigs
    ensures var p := Applied(start, docs, oks, team);
            var bps := Pruned(p.blueprints, team, p.appliedBlueprints, {});
            var cfgs := Pruned(p.configs, team, p.appliedConfigs, {});
            && TeamRefs(bps, team) == p.appliedBlueprints && TeamRefs(cfgs, team) == p.appliedConfigs
            && (forall r <- start.blueprints :: !HasTeam(start.blueprints[r], team) && r !in p.appliedBlueprints ==>
                  r in bps && bps[r] == start.blueprints[r])
            && (forall r <- start.configs :: !HasTeam(start.configs[r], team) && r !in p.appliedConfigs ==>
                  r in cfgs && cfgs[r] == start.configs[r])
  {
    var p := Applied(start, docs, oks, team);
    AppliedEffect(start, docs, oks, team);
    PruneIsExact(p.blueprints, team, p.appliedBlueprints);
    PruneIsExact(p.configs, team, p.appliedConfigs);
  }

  /** A config is written only while its blueprint is stored. */
  lemma {:induction false} WrittenWithBlueprint(start: Progress, docs: seq<Doc>, oks: seq<bool>, team: string, c: Ref)
    requires |docs| == |oks| && start.appliedBlueprints == {} == start.appliedConfigs
    requires c in Applied(start, docs, oks, team).appliedConfigs
    ensures var p := Applied(start, docs, oks, team); c in p.configs && p.configs[c].blueprint in p.blueprints
    decreases docs
  {
    if docs != [] {
      var n := |docs| - 1;
      var before := Applied(start, docs[..n], oks[..n], team);
      if c in before.appliedConfigs {
        WrittenWithBlueprint(start, docs[..n], oks[..n], team, c);
      }
    }
  }

  /**
   Which config, of whatever team, is without its blueprint after the apply and its prune: exactly one whose blueprint
   this apply did not apply and which either was not stored before or carried the team's label.
   */
  lemma WithoutBlueprintExactly(start: Progress, docs: seq<Doc>, oks: seq<bool>, team: string, c: Ref)
    requires |docs| == |oks| && team != "" && start.appliedBlueprints == {} == start.appliedConfigs
    requires var p := Applied(start, docs, oks, team); c in Pruned(p.configs, team, p.appliedConfigs, {})
    ensures var p := Applied(start, docs, oks, team);
            var bp := p.configs[c].blueprint;
            && (c !in p.appliedConfigs ==> c in start.configs && p.configs[c] == start.configs[c])
            && (bp !in Pruned(p.blueprints, team, p.appliedBlueprints, {}) <==>
                bp !in p.appliedBlueprints && (bp !in start.blueprints || HasTeam(start.blueprints[bp], team)))
  {
    AppliedEffect(start, docs, oks, team);
  }

  /** For a config applied in this run only the label can be the reason. */
  lemma ConfigHasItsBlueprint(start: Progress, docs: seq<Doc>, oks: seq<bool>, team: string, c: Ref)
    requires |docs| == |oks| && team != "" && start.appliedBlueprints == {} == start.appliedConfigs
    requires c in Applied(start, docs, oks, team).appliedConfigs
    ensures var p := Applied(start, docs, oks, team);
            && c in p.configs
            && var bp := p.configs[c].blueprint;
            && bp in p.blueprints
            && (bp !in Pruned(p.blueprints, team, p.appliedBlueprints, {}) <==>
                bp !in p.appliedBlueprints && bp in start.blueprints && HasTeam(start.blueprints[bp], team))
  {
    AppliedEffect(start, docs, oks, team);
    WrittenWithBlueprint(start, docs, oks, team, c);
  }

  /** A team that applies only the config loses the blueprint it had applied before, and the config stays without it. */
  lemma OmittedBlueprintIsPruned(bp: Ref, c: Ref, team: string)
    requires team != ""
    ensures var mine := Stored(map[LABEL_TEAM := team], bp);
            var start := Progress(map[bp := mine], map[], {}, {});
            var p := Applied(start, [Document(0, CellConfig, Object(c, mine))], [true], team);
            && p.appliedConfigs == {c} && c in Pruned(p.configs, team, p.appliedConfigs, {})
            && p.configs[c].blueprint == bp && bp !in Pruned(p.blueprints, team, p.appliedBlueprints, {})
  {
    var mine := Stored(map[LABEL_TEAM := team], bp);
    var start := Progress(map[bp := mine], map[], {}, {});
    var docs, oks := [Document(0, CellConfig, Object(c, mine))], [true];
    assert docs[..0] == [] && oks[..0] == [];
    assert Applied(start, docs[..0], oks[..0], team) == start;
  }

  /** And an apply of nothing takes the team's blueprint from another team's config. */
  lemma OtherTeamLosesBlueprint(bp: Ref, c: Ref, team: string, other: string)
    requires team != "" && other != team
    ensures var mine, theirs := Stored(map[LABEL_TEAM := team], bp), Stored(map[LABEL_TEAM := other], bp);
            var start := Progress(map[bp := mine], map[c := theirs], {}, {});
            var p := Applied(start, [], [], team);
            && c in Pruned(p.configs, team, p.appliedConfigs, {})
            && bp !in Pruned(p.blueprints, team, p.appliedBlueprints, {})
  {
  }
}
