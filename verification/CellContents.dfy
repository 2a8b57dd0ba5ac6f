/**
 What a materialised cell holds, field by field, whichever channel made it
 (internal/cellblueprint/cellblueprint.go:203-338, internal/cellconfig/materialize.go:63-281).
 */
module CellContents {
  import opened Wrappers
  import opened Text
  import opened Substitution
  import opened Blueprints
  import opened Configs
  import opened ConfigCells
  import PerCellVolumes

  // ----- Resolved fields -----

  predicate RepoResolved(x: Repo, r: Repo, v: Values) {
    && x.name == Sub(r.name, v) && x.url == Sub(r.url, v) && x.branch == Sub(r.branch, v) && x.ref == Sub(r.ref, v)
    && x.required == r.required
  }

  predicate SecretResolved(x: SecretSlot, s: SecretSlot, v: Values) {
    && x.name == Sub(s.name, v) && x.mode == Sub(s.mode, v) && x.envName == Sub(s.envName, v)
    && x.mountPath == Sub(s.mountPath, v) && x.required == s.required
  }

  /** Every field of every slot is substituted into its own place. */
  lemma SlotsResolved(c: Container, v: Values)
    ensures var d := ResolveContainer(c, v);
            && |d.repos| == |c.repos| && |d.secrets| == |c.secrets|
            && (forall j | 0 <= j < |c.repos| :: RepoResolved(d.repos[j], c.repos[j], v))
            && (forall j | 0 <= j < |c.secrets| :: SecretResolved(d.secrets[j], c.secrets[j], v))
  {
  }

  /** A mount: what it names is substituted, and a volume's names get the cell's name for the variable. */
  ghost predicate MountComesOut(x: Volume, m: Volume, v: Values, name: string) {
    var source := Sub(m.source, v);
    var ref := if m.refName.Some? then Sub(m.refName.value, v) else "";
    && x.isVolume == m.isVolume
    && x.refName.Some? == m.refName.Some?
    && x.source == (if m.isVolume then PerCellVolumes.Expand(source, name) else source)
    && (m.refName.Some? ==> x.refName.value == if m.isVolume then PerCellVolumes.Expand(ref, name) else ref)
    && (x.ensure <==> m.ensure || (m.isVolume && (PerCellVolumes.HasVar(source) || PerCellVolumes.HasVar(ref))))
  }

  lemma StampedMount(m: Volume, v: Values, name: string)
    ensures MountComesOut(StampVolume(ResolveVolume(m, v), name), m, v, name)
  {
    var x := ResolveVolume(m, v);
    if !PerCellVolumes.HasVar(x.source) {
      PerCellVolumes.NoVarNoChange(x.source, name);
    }
    if x.refName.Some? && !PerCellVolumes.HasVar(x.refName.value) {
      PerCellVolumes.NoVarNoChange(x.refName.value, name);
    }
  }

  /** What the two channels agree on: id, texts and mounts. */
  ghost predicate Carries(spec: ContainerSpec, c: Container, v: Values, name: string) {
    && spec.id == Sub(c.id, v)
    && |spec.scalars| == |c.scalars| && (forall j | 0 <= j < |c.scalars| :: spec.scalars[j] == Sub(c.scalars[j], v))
    && |spec.volumes| == |c.volumes|
    && (forall j | 0 <= j < |c.volumes| :: MountComesOut(spec.volumes[j], c.volumes[j], v, name))
  }

  lemma StampCarries(spec: ContainerSpec, c: Container, v: Values, name: string)
    requires var d := ResolveContainer(c, v); spec.id == d.id && spec.scalars == d.scalars && spec.volumes == d.volumes
    ensures Carries(Stamp(spec, name), c, v, name)
    ensures Stamp(spec, name).repos == spec.repos && Stamp(spec, name).secrets == spec.secrets
  {
    forall j | 0 <= j < |c.volumes|
      ensures MountComesOut(Stamp(spec, name).volumes[j], c.volumes[j], v, name)
    {
      StampedMount(c.volumes[j], v, name);
    }
  }

  // ----- The inline channel -----

  /** A blueprint's containers in order, with the repos that have a url and no secrets. */
  lemma InlineContents(bp: Blueprint, v: Values, name: string, specs: seq<ContainerSpec>)
    requires InlineAs(bp, v, name) == Some(specs)
    ensures |specs| == |bp.containers|
    ensures forall i | 0 <= i < |specs| ::
      && Carries(specs[i], bp.containers[i], v, name)
      && specs[i].repos == KeptRepos(ResolveContainer(bp.containers[i], v).repos) && specs[i].secrets == []
  {
    var cs := ResolveContainers(bp.containers, v);
    forall i | 0 <= i < |specs|
      ensures Carries(specs[i], bp.containers[i], v, name)
      ensures specs[i].repos == KeptRepos(cs[i].repos) && specs[i].secrets == []
    {
      StampCarries(InlineSpec(cs[i]), bp.containers[i], v, name);
    }
  }

  // ----- The Config channel -----

  /** What a filled repo slot becomes: the fill's url, and its branch and ref where it gives one. */
  lemma FilledRepoMeans(r: Repo, cfg: Config)
    requires TrimSpace(r.url) == "" && TrimSpace(r.name) in cfg.repos
    ensures var x, fill := FillRepo(r, cfg), cfg.repos[TrimSpace(r.name)];
            && x.Keep? && x.value.name == r.name && x.value.url == TrimSpace(fill.url) && x.value.required == r.required
            && x.value.branch == (if TrimSpace(fill.branch) == "" then r.branch else TrimSpace(fill.branch))
            && x.value.ref == (if TrimSpace(fill.ref) == "" then r.ref else TrimSpace(fill.ref))
  {
    TrimsToNothing(r.url);
  }

  /** And any other repo: kept as it is with a url, refused when required, dropped otherwise. */
  lemma UnfilledRepoMeans(r: Repo, cfg: Config)
    ensures TrimSpace(r.url) != "" ==> FillRepo(r, cfg) == Keep(r)
    ensures TrimSpace(r.url) == "" && TrimSpace(r.name) !in cfg.repos ==>
      FillRepo(r, cfg) == if r.required then Unfilled else Drop
  {
    TrimsToNothing(r.url);
  }

  /** What a filled secret slot becomes: a variable of the slot's name for it, or a file of the slot's name at its path;
      either way with the Config's secret. */
  lemma FilledSecretMeans(s: SecretSlot, cfg: Config, ref: string)
    requires TrimSpace(s.name) in cfg.secrets && cfg.secrets[TrimSpace(s.name)].secretRef == Some(ref)
    ensures TrimSpace(s.mode) in {"", "env"} ==>
      FillSecret(s, cfg).Keep? && FillSecret(s, cfg).value == ContainerSecret(TrimSpace(s.envName), ref, "")
    ensures TrimSpace(s.mode) == "file" ==>
      && FillSecret(s, cfg).Keep?
      && FillSecret(s, cfg).value == ContainerSecret(TrimSpace(s.name), ref, TrimSpace(s.mountPath))
    ensures TrimSpace(s.mode) !in {"", "env", "file"} ==> FillSecret(s, cfg) == Invalid
  {
    assert "file"[0] != "env"[0];
  }

  /** The slots of two lists are filled one after the other. */
  ghost function Both<T>(a: Option<seq<T>>, b: Option<seq<T>>): Option<seq<T>> {
    if a.Some? && b.Some? then Some(a.value + b.value) else None
  }

  lemma BothUnit<T>(a: Option<seq<T>>)
    ensures Both(a, Some([])) == a
  {
    if a.Some? {
      assert a.value + [] == a.value;
    }
  }

  lemma ExtendBoth<T>(a: Option<seq<T>>, b: Option<seq<T>>, fill: Fill<T>)
    ensures Extend(Both(a, b), fill) == Both(a, Extend(b, fill))
  {
    if a.Some? && b.Some? && fill.Keep? {
      assert a.value + b.value + [fill.value] == a.value + (b.value + [fill.value]);
    }
  }

  lemma {:induction false} FilledReposConcat(a: seq<Repo>, b: seq<Repo>, cfg: Config)
    ensures FilledRepos(a + b, cfg) == Both(FilledRepos(a, cfg), FilledRepos(b, cfg))
  {
    if b == [] {
      BothUnit(FilledRepos(a, cfg));
      assert a + b == a;
    } else {
      assert (a + b)[..|a + b| - 1] == a + b[..|b| - 1];
      FilledReposConcat(a, b[..|b| - 1], cfg);
      assert (a + b)[|a + b| - 1] == b[|b| - 1];
      ExtendBoth(FilledRepos(a, cfg), FilledRepos(b[..|b| - 1], cfg), FillRepo(b[|b| - 1], cfg));
    }
  }

  lemma {:induction false} FilledSecretsConcat(a: seq<SecretSlot>, b: seq<SecretSlot>, cfg: Config)
    ensures FilledSecrets(a + b, cfg) == Both(FilledSecrets(a, cfg), FilledSecrets(b, cfg))
  {
    if b == [] {
      BothUnit(FilledSecrets(a, cfg));
      assert a + b == a;
    } else {
      assert (a + b)[..|a + b| - 1] == a + b[..|b| - 1];
      FilledSecretsConcat(a, b[..|b| - 1], cfg);
      assert (a + b)[|a + b| - 1] == b[|b| - 1];
      ExtendBoth(FilledSecrets(a, cfg), FilledSecrets(b[..|b| - 1], cfg), FillSecret(b[|b| - 1], cfg));
    }
  }

  lemma SpecsStep(cs: seq<Container>, cfg: Config)
    requires ConfigSpecs(cs, cfg).Some? && cs != []
    ensures var n := |cs| - 1;
            && ConfigSpecs(cs[..n], cfg).Some? && ConfigSpec(cs[n], cfg).Some?
            && ConfigSpecs(cs, cfg).value == ConfigSpecs(cs[..n], cfg).value + [ConfigSpec(cs[n], cfg).value]
  {
  }

  lemma {:induction false} SpecsCount(cs: seq<Container>, cfg: Config)
    requires ConfigSpecs(cs, cfg).Some?
    ensures |ConfigSpecs(cs, cfg).value| == |cs|
  {
    if cs != [] {
      SpecsStep(cs, cfg);
      SpecsCount(cs[..|cs| - 1], cfg);
    }
  }

  lemma {:induction false} SpecsAt(cs: seq<Container>, cfg: Config, i: nat)
    requires ConfigSpecs(cs, cfg).Some? && i < |cs| == |ConfigSpecs(cs, cfg).value|
    ensures ConfigSpec(cs[i], cfg) == Some(ConfigSpecs(cs, cfg).value[i])
  {
    var n := |cs| - 1;
    SpecsStep(cs, cfg);
    SpecsCount(cs[..n], cfg);
    if i < n {
      SpecsAt(cs[..n], cfg, i);
    }
  }

  /** A Config's containers: the blueprint's in order, with its repo and secret slots filled in order. */
  lemma ConfigContents(cfg: Config, bp: Blueprint, name: string, v: Values, specs: seq<ContainerSpec>)
    requires ValuesFor(bp, cfg.values, map[], true) == Some(v) && FromConfig(cfg, bp, name) == Some(specs)
    ensures |specs| == |bp.containers|
    ensures forall i | 0 <= i < |specs| ::
      var d := ResolveContainer(bp.containers[i], v);
      && Carries(specs[i], bp.containers[i], v, TrimSpace(name))
      && FilledRepos(d.repos, cfg) == Some(specs[i].repos) && FilledSecrets(d.secrets, cfg) == Some(specs[i].secrets)
  {
    var cs := ResolveContainers(bp.containers, v);
    SpecsCount(cs, cfg);
    forall i | 0 <= i < |specs|
      ensures Carries(specs[i], bp.containers[i], v, TrimSpace(name))
      ensures FilledRepos(cs[i].repos, cfg) == Some(specs[i].repos)
      ensures FilledSecrets(cs[i].secrets, cfg) == Some(specs[i].secrets)
    {
      SpecsAt(cs, cfg, i);
      StampCarries(ConfigSpec(cs[i], cfg).value, bp.containers[i], v, TrimSpace(name));
    }
  }

  // ----- From a parameter to the cell -----

  /** A value as a text field shows it. */
  function Shown(value: string): string { if IsNull(value) then "" else value }

  /** A field that is a reference to a supplied key shows that value, in both channels, whatever the defaults say. */
  lemma SuppliedReachesCell(bp: Blueprint, supplied: Values, env: Values, name: string, random: Option<HexText>,
                            cfg: Config, i: nat, j: nat, k: string)
    requires i < |bp.containers| && j < |bp.containers[i].scalars| && bp.containers[i].scalars[j] == Reference(k)
    requires IsName(k) && k in supplied && cfg.values == supplied
    ensures var specs := Inline(bp, supplied, env, name, random);
            specs.Some? ==> |specs.value| > i && |specs.value[i].scalars| > j
                            && specs.value[i].scalars[j] == Shown(supplied[k])
    ensures var specs := FromConfig(cfg, bp, name);
            specs.Some? ==> |specs.value| > i && |specs.value[i].scalars| > j
                            && specs.value[i].scalars[j] == Shown(supplied[k])
  {
    if Inline(bp, supplied, env, name, random).Some? {
      var v := ValuesFor(bp, supplied, env, false).value;
      SuppliedWins(bp, supplied, env, false, v);
      InlineContents(bp, v, CellName(bp, v, name, random).value, Inline(bp, supplied, env, name, random).value);
      SubMeans(Reference(k), v);
    }
    if FromConfig(cfg, bp, name).Some? {
      var v := ValuesFor(bp, supplied, map[], true).value;
      SuppliedWins(bp, supplied, map[], true, v);
      ConfigContents(cfg, bp, name, v, FromConfig(cfg, bp, name).value);
      SubMeans(Reference(k), v);
    }
  }

  /** One that is a reference to a key nobody supplies shows the last declaration's default, else what the environment
      says on the inline channel, else nothing. */
  lemma DefaultReachesCell(bp: Blueprint, supplied: Values, env: Values, name: string, random: Option<HexText>,
                           i: nat, j: nat, n: nat)
    requires i < |bp.containers| && j < |bp.containers[i].scalars| && IsLast(bp.parameters, n)
    requires var k := bp.parameters[n].name;
             IsName(k) && k !in supplied && bp.containers[i].scalars[j] == Reference(k)
    ensures var specs, p := Inline(bp, supplied, env, name, random), bp.parameters[n];
            specs.Some? ==> |specs.value| > i && |specs.value[i].scalars| > j
                            && specs.value[i].scalars[j] ==
                               Shown(if p.default.Some? then p.default.value
                                     else if p.name in env then env[p.name] else "")
  {
    if Inline(bp, supplied, env, name, random).Some? {
      var v := ValuesFor(bp, supplied, env, false).value;
      DefaultElseEnvironment(bp, supplied, env, false, v, n);
      InlineContents(bp, v, CellName(bp, v, name, random).value, Inline(bp, supplied, env, name, random).value);
      SubMeans(Reference(bp.parameters[n].name), v);
    }
  }
}
