/**
 Materialising a cell from a CellConfig (internal/cellconfig/materialize.go), and
 its agreement with inline materialisation of the same blueprint.
 */
module ConfigCells {
  import opened Wrappers
  import opened Text
  import opened Substitution
  import opened Blueprints
  import opened Configs

  // ----- Filling slots -----

  /** What becomes of one declared repo or secret slot. */
  datatype Fill<+T> = Keep(value: T) | Drop | Unfilled | Invalid

  function FillRepo(r: Repo, cfg: Config): Fill<Repo> {
    if !IsSlot(r) then Keep(r)
    else if TrimSpace(r.name) in cfg.repos then
      var fill := cfg.repos[TrimSpace(r.name)];
      Keep(Repo(r.name, TrimSpace(fill.url),
                if TrimSpace(fill.branch) != "" then TrimSpace(fill.branch) else r.branch,
                if TrimSpace(fill.ref) != "" then TrimSpace(fill.ref) else r.ref, r.required))
    else if r.required then Unfilled
    else Drop
  }

  /** The slot's lookup and materializeSecretSlot: the blueprint says how the secret is consumed, the Config which
      one. */
  function FillSecret(s: SecretSlot, cfg: Config): Fill<ContainerSecret> {
    var name := TrimSpace(s.name);
    if name !in cfg.secrets then (if s.required then Unfilled else Drop)
    else if cfg.secrets[name].secretRef.None? then Unfilled
    else
      var ref := cfg.secrets[name].secretRef.value;
      var mode := TrimSpace(s.mode);
      if mode == "" || mode == "env" then Keep(ContainerSecret(TrimSpace(s.envName), ref, ""))
      else if mode == "file" then Keep(ContainerSecret(name, ref, TrimSpace(s.mountPath)))
      else Invalid
  }

  ghost function FilledRepos(rs: seq<Repo>, cfg: Config): Option<seq<Repo>> {
    if rs == [] then Some([])
    else Extend(FilledRepos(rs[..|rs| - 1], cfg), FillRepo(rs[|rs| - 1], cfg))
  }

  ghost function FilledSecrets(ss: seq<SecretSlot>, cfg: Config): Option<seq<ContainerSecret>> {
    if ss == [] then Some([])
    else Extend(FilledSecrets(ss[..|ss| - 1], cfg), FillSecret(ss[|ss| - 1], cfg))
  }

  /** The list built so far, or the error that stopped it. */
  ghost function Extend<T>(done: Option<seq<T>>, fill: Fill<T>): Option<seq<T>> {
    if done.None? || fill.Unfilled? || fill.Invalid? then None
    else if fill.Keep? then Some(done.value + [fill.value])
    else done
  }

  ghost function ConfigSpec(c: Container, cfg: Config): Option<ContainerSpec> {
    match (FilledRepos(c.repos, cfg), FilledSecrets(c.secrets, cfg))
    case (Some(repos), Some(secrets)) => Some(ContainerSpec(c.id, c.scalars, c.volumes, repos, secrets))
    case _ => None
  }

  ghost function ConfigSpecs(cs: seq<Container>, cfg: Config): Option<seq<ContainerSpec>> {
    if cs == [] then Some([])
    else match (ConfigSpecs(cs[..|cs| - 1], cfg), ConfigSpec(cs[|cs| - 1], cfg))
      case (Some(done), Some(spec)) => Some(done + [spec])
      case _ => None
  }

  lemma FilledReposStep(rs: seq<Repo>, i: nat, cfg: Config)
    requires i < |rs| && FilledRepos(rs[..i], cfg).Some?
    ensures var so := FilledRepos(rs[..i], cfg).value;
            FilledRepos(rs[..i + 1], cfg) == match FillRepo(rs[i], cfg)
              case Keep(x) => Some(so + [x])
              case Drop => Some(so)
              case _ => None
  {
    assert rs[..i + 1][..i] == rs[..i];
  }

  method FillRepos(rs: seq<Repo>, cfg: Config) returns (r: Option<seq<Repo>>)
    ensures r == FilledRepos(rs, cfg)
  {
    var repos := [];
    for i := 0 to |rs|
      invariant FilledRepos(rs[..i], cfg) == Some(repos)
    {
      FilledReposStep(rs, i, cfg);
      var fill := FillRepo(rs[i], cfg);
      if fill.Unfilled? || fill.Invalid? {
        ReposFailFrom(rs, i + 1, cfg);
        return None;
      }
      if fill.Keep? {
        repos := repos + [fill.value];
      }
    }
    assert rs[..|rs|] == rs;
    r := Some(repos);
  }

  method FillSecrets(ss: seq<SecretSlot>, cfg: Config) returns (r: Option<seq<ContainerSecret>>)
    ensures r == FilledSecrets(ss, cfg)
  {
    var secrets := [];
    for i := 0 to |ss|
      invariant FilledSecrets(ss[..i], cfg) == Some(secrets)
    {
      assert ss[..i + 1][..i] == ss[..i];
      var fill := FillSecret(ss[i], cfg);
      if fill.Unfilled? || fill.Invalid? {
        SecretsFailFrom(ss, i + 1, cfg);
        return None;
      }
      if fill.Keep? {
        secrets := secrets + [fill.value];
      }
    }
    assert ss[..|ss|] == ss;
    r := Some(secrets);
  }

  method MaterializeContainer(c: Container, cfg: Config) returns (r: Option<ContainerSpec>)
    ensures r == ConfigSpec(c, cfg)
  {
    var repos := FillRepos(c.repos, cfg);
    if repos.None? {
      return None;
    }
    var secrets := FillSecrets(c.secrets, cfg);
    if secrets.None? {
      return None;
    }
    r := Some(ContainerSpec(c.id, c.scalars, c.volumes, repos.value, secrets.value));
  }

  lemma {:induction false} ReposFailFrom(rs: seq<Repo>, i: nat, cfg: Config)
    requires i <= |rs| && FilledRepos(rs[..i], cfg).None?
    ensures FilledRepos(rs, cfg).None?
    decreases |rs|
  {
    if i == |rs| {
      assert rs[..i] == rs;
    } else {
      assert rs[..|rs| - 1][..i] == rs[..i];
      ReposFailFrom(rs[..|rs| - 1], i, cfg);
    }
  }

  lemma {:induction false} SecretsFailFrom(ss: seq<SecretSlot>, i: nat, cfg: Config)
    requires i <= |ss| && FilledSecrets(ss[..i], cfg).None?
    ensures FilledSecrets(ss, cfg).None?
    decreases |ss|
  {
    if i == |ss| {
      assert ss[..i] == ss;
    } else {
      assert ss[..|ss| - 1][..i] == ss[..i];
      SecretsFailFrom(ss[..|ss| - 1], i, cfg);
    }
  }

  // ----- The whole channel -----

  /** MaterializeWithName for a Config: the containers, or an error. */
  ghost function FromConfig(cfg: Config, bp: Blueprint, name: string): Option<seq<ContainerSpec>> {
    if !Accepts(cfg, bp.containers) then None
    else match ValuesFor(bp, cfg.values, map[], true)
      case None => None
      case Some(v) =>
        match ConfigSpecs(ResolveContainers(bp.containers, v), cfg)
        case None => None
        case Some(specs) => Some(StampAll(specs, TrimSpace(name)))
  }

  method MaterializeFromConfig(cfg: Config, bp: Blueprint, name: string, o: Checks<seq<string>>)
    returns (r: Option<seq<ContainerSpec>>)
    requires PossibleOrders(o, Ranged(cfg, bp.containers))
    ensures r == FromConfig(cfg, bp, name)
  {
    var e := ValidateSlotFill(cfg, bp.containers, o);
    if e.Some? {
      return None;
    }
    var values := ResolveValues(bp, cfg.values, map[], true);
    if values.None? {
      return None;
    }
    var cs := ResolveContainers(bp.containers, values.value);
    var specs := MaterializeContainers(cs, cfg);
    r := if specs.None? then None else Some(StampAll(specs.value, TrimSpace(name)));
  }

  method MaterializeContainers(cs: seq<Container>, cfg: Config) returns (r: Option<seq<ContainerSpec>>)
    ensures r == ConfigSpecs(cs, cfg)
  {
    var specs := [];
    for i := 0 to |cs|
      invariant ConfigSpecs(cs[..i], cfg) == Some(specs)
    {
      assert cs[..i + 1][..i] == cs[..i];
      var spec := MaterializeContainer(cs[i], cfg);
      if spec.None? {
        ContainersFailFrom(cs, i + 1, cfg);
        return None;
      }
      specs := specs + [spec.value];
    }
    assert cs[..|cs|] == cs;
    r := Some(specs);
  }

  lemma {:induction false} ContainersFailFrom(cs: seq<Container>, i: nat, cfg: Config)
    requires i <= |cs| && ConfigSpecs(cs[..i], cfg).None?
    ensures ConfigSpecs(cs, cfg).None?
    decreases |cs|
  {
    if i == |cs| {
      assert cs[..i] == cs;
    } else {
      assert cs[..|cs| - 1][..i] == cs[..i];
      ContainersFailFrom(cs[..|cs| - 1], i, cfg);
    }
  }

  // ----- Agreement with the inline channel -----

  ghost predicate NoFills(cfg: Config) {
    cfg.repos == map[] && cfg.secrets == map[]
  }

  lemma {:induction false} UnfilledRepos(rs: seq<Repo>, cfg: Config)
    requires NoFills(cfg)
    ensures FilledRepos(rs, cfg) == if AnyMustFill(rs) then None else Some(KeptRepos(rs))
  {
    if rs != [] {
      UnfilledRepos(rs[..|rs| - 1], cfg);
      var last := rs[|rs| - 1];
      assert FillRepo(last, cfg) == if MustFill(last) then Unfilled else if IsSlot(last) then Drop else Keep(last);
      assert IsSlot(last) ==> KeptRepos(rs) == KeptRepos(rs[..|rs| - 1]);
    }
  }

  lemma {:induction false} UnfilledSecrets(ss: seq<SecretSlot>, cfg: Config)
    requires NoFills(cfg)
    ensures FilledSecrets(ss, cfg) == if AnyRequired(ss) then None else Some([])
  {
    if ss != [] {
      UnfilledSecrets(ss[..|ss| - 1], cfg);
      var last := ss[|ss| - 1];
      assert FillSecret(last, cfg) == if last.required then Unfilled else Drop;
    }
  }

  lemma UnfilledContainer(c: Container, cfg: Config)
    requires NoFills(cfg)
    ensures ConfigSpec(c, cfg) == if Blocked(c) then None else Some(InlineSpec(c))
  {
    UnfilledRepos(c.repos, cfg);
    UnfilledSecrets(c.secrets, cfg);
  }

  lemma {:induction false} UnfilledContainers(cs: seq<Container>, cfg: Config)
    requires NoFills(cfg)
    ensures ConfigSpecs(cs, cfg) == if AnyBlocked(cs) then None else Some(InlineSpecs(cs))
  {
    if cs == [] {
      assert InlineSpecs(cs) == [];
    } else {
      var init, c := cs[..|cs| - 1], cs[|cs| - 1];
      UnfilledContainers(init, cfg);
      UnfilledContainer(c, cfg);
      LastInlineSpec(cs);
    }
  }

  lemma LastInlineSpec(cs: seq<Container>)
    requires cs != []
    ensures InlineSpecs(cs) == InlineSpecs(cs[..|cs| - 1]) + [InlineSpec(cs[|cs| - 1])]
  {
  }

  /** White space holds no reference, so a slot stays a slot. */
  lemma BlankHasNoOpener(s: string)
    requires Blank(s)
    ensures !HasOpener(s)
  {
    assert !IsSpace('$');
    assert forall i | 0 <= i < |s| :: s[i] in s;
  }

  /** What the gate rejects in the unresolved blueprint blocks the resolved one too. */
  lemma GateBlocks(cfg: Config, bp: Blueprint, v: Values)
    requires NoFills(cfg) && !Accepts(cfg, bp.containers)
    ensures AnyBlocked(ResolveContainers(bp.containers, v))
  {
    var cs := bp.containers;
    if n :| n in RequiredRepos(cs) {
      var c, r :| c in cs && r in c.repos && IsSlot(r) && r.required && TrimSpace(r.name) == n;
      var i :| 0 <= i < |cs| && cs[i] == c;
      var j :| 0 <= j < |c.repos| && c.repos[j] == r;
      SlotStaysSlot(cs, i, j, v);
    } else {
      var n :| n in RequiredSecrets(cs);
      var c, s :| c in cs && s in c.secrets && s.required && TrimSpace(s.name) == n;
      var i :| 0 <= i < |cs| && cs[i] == c;
      var j :| 0 <= j < |c.secrets| && c.secrets[j] == s;
      var rs := ResolveContainers(cs, v);
      assert rs[i].secrets[j].required;
      RequiredSomewhere(rs[i].secrets);
      assert Blocked(rs[i]);
      BlockedSomewhere(rs);
    }
  }

  lemma SlotStaysSlot(cs: seq<Container>, i: nat, j: nat, v: Values)
    requires i < |cs| && j < |cs[i].repos| && MustFill(cs[i].repos[j])
    ensures AnyBlocked(ResolveContainers(cs, v))
  {
    var rs := ResolveContainers(cs, v);
    BlankHasNoOpener(cs[i].repos[j].url);
    assert rs[i].repos[j] == ResolveRepo(cs[i].repos[j], v);
    assert MustFill(rs[i].repos[j]);
    MustFillSomewhere(rs[i].repos);
    assert Blocked(rs[i]);
    BlockedSomewhere(rs);
  }

  /** Without fills the Config channel gives what the inline one gives under the same name and values. */
  lemma SameContainers(cfg: Config, bp: Blueprint, v: Values, cellName: string)
    requires NoFills(cfg) && ValuesFor(bp, cfg.values, map[], true) == Some(v) && TrimSpace(cellName) == cellName
    ensures FromConfig(cfg, bp, cellName) == InlineAs(bp, v, cellName)
  {
    UnfilledContainers(ResolveContainers(bp.containers, v), cfg);
    if !Accepts(cfg, bp.containers) {
      GateBlocks(cfg, bp, v);
    }
  }

  /** With nothing to fill and no environment, the two channels agree on every blueprint and under every name, asked
      for or generated: the inline one fails in addition only on undeclared keys or without a name, and otherwise
      both fail together or produce the same containers. */
  lemma ChannelsAgree(cfg: Config, bp: Blueprint, name: string, random: Option<HexText>)
    requires NoFills(cfg)
    ensures Inline(bp, cfg.values, map[], name, random) ==
            match ValuesFor(bp, cfg.values, map[], true)
            case None => None
            case Some(v) =>
              if !(cfg.values.Keys <= Declared(bp.parameters)) then None
              else match CellName(bp, v, name, random) case None => None case Some(n) => FromConfig(cfg, bp, n)
    ensures TrimSpace(name) != "" && cfg.values.Keys <= Declared(bp.parameters) ==>
      Inline(bp, cfg.values, map[], name, random) == FromConfig(cfg, bp, name)
  {
    StrictIsLenient(bp, cfg.values, map[]);
    TrimTwice(name);
    var values := ValuesFor(bp, cfg.values, map[], true);
    if values.Some? {
      var n := CellName(bp, values.value, name, random);
      CellNameIsTrimmed(bp, values.value, name, random);
      if n.Some? {
        SameContainers(cfg, bp, values.value, n.value);
      }
    }
  }
}
