/**
 How far the slot-fill gate reaches (internal/cellconfig/cellconfig.go:78-122): it looks at the blueprint before
 substitution, and what it accepts is filled after it (internal/cellconfig/materialize.go:63-112).
 */
module SlotGate {
  import opened Wrappers
  import opened Text
  import opened Substitution
  import opened Blueprints
  import opened Configs
  import opened ConfigCells

  // ----- Which slots an accepted Config leaves open -----

  /** A required repo that resolves to an open slot; only a template can, once the gate has passed. */
  predicate RepoStaysOpen(r: Repo, v: Values, cfg: Config) {
    && r.required
    && Blank(Sub(r.url, v)) && TrimSpace(Sub(r.name, v)) !in cfg.repos
    && (HasOpener(r.url) || HasOpener(r.name))
  }

  /** A required secret slot whose templated name resolves to one without a fill. */
  predicate SecretStaysOpen(s: SecretSlot, v: Values, cfg: Config) {
    s.required && TrimSpace(Sub(s.name, v)) !in cfg.secrets && HasOpener(s.name)
  }

  /** A secret slot whose fill names no secret, or whose mode resolves to neither of the two there are. */
  predicate SecretFillFails(s: SecretSlot, v: Values, cfg: Config) {
    var n, mode := TrimSpace(Sub(s.name, v)), TrimSpace(Sub(s.mode, v));
    n in cfg.secrets && (cfg.secrets[n].secretRef.None? || mode !in {"", "env", "file"})
  }

  predicate SecretStillFails(s: SecretSlot, v: Values, cfg: Config) {
    SecretStaysOpen(s, v, cfg) || SecretFillFails(s, v, cfg)
  }

  /** Behind the gate a repo slot is left open exactly when it is a template that resolves to an unfilled slot. */
  lemma RepoLeftOpenExactly(cfg: Config, cs: seq<Container>, v: Values, c: Container, r: Repo)
    requires Accepts(cfg, cs) && c in cs && r in c.repos
    ensures FillRepo(ResolveRepo(r, v), cfg).Unfilled? <==> RepoStaysOpen(r, v, cfg)
    ensures !FillRepo(ResolveRepo(r, v), cfg).Invalid?
  {
    if MustFill(r) && !HasOpener(r.url) && !HasOpener(r.name) {
      assert TrimSpace(r.name) in RequiredRepos(cs);
    }
  }

  /** When filling a resolved secret slot fails. */
  lemma SecretOutcome(s: SecretSlot, cfg: Config, n: string, mode: string)
    requires n == TrimSpace(s.name) && mode == TrimSpace(s.mode)
    ensures SecretFails(s, cfg) <==>
            if n in cfg.secrets then cfg.secrets[n].secretRef.None? || mode !in {"", "env", "file"} else s.required
  {
  }

  predicate RepoFails(r: Repo, cfg: Config) { FillRepo(r, cfg).Unfilled? || FillRepo(r, cfg).Invalid? }

  predicate SecretFails(s: SecretSlot, cfg: Config) { FillSecret(s, cfg).Unfilled? || FillSecret(s, cfg).Invalid? }

  /** And a secret slot is left open or spoilt exactly in these two ways. */
  lemma SecretLeftOpenExactly(cfg: Config, cs: seq<Container>, v: Values, c: Container, s: SecretSlot)
    requires Accepts(cfg, cs) && c in cs && s in c.secrets
    ensures SecretFails(ResolveSecret(s, v), cfg) <==> SecretStillFails(s, v, cfg)
  {
    SecretOutcome(ResolveSecret(s, v), cfg, TrimSpace(Sub(s.name, v)), TrimSpace(Sub(s.mode, v)));
    if s.required && !HasOpener(s.name) {
      assert TrimSpace(s.name) in RequiredSecrets(cs);
    }
  }

  // ----- Lifted to the whole channel -----

  lemma {:induction false} ReposFail(rs: seq<Repo>, cfg: Config)
    ensures FilledRepos(rs, cfg).None? <==> exists r <- rs :: RepoFails(r, cfg)
  {
    if rs != [] {
      var init, last := rs[..|rs| - 1], rs[|rs| - 1];
      ReposFail(init, cfg);
      assert FilledRepos(rs, cfg).None? <==> FilledRepos(init, cfg).None? || RepoFails(last, cfg);
      assert last in rs && forall r <- init :: r in rs;
      assert forall r <- rs :: r in init || r == last;
    }
  }

  lemma {:induction false} SecretsFail(ss: seq<SecretSlot>, cfg: Config)
    ensures FilledSecrets(ss, cfg).None? <==> exists s <- ss :: SecretFails(s, cfg)
  {
    if ss != [] {
      var init, last := ss[..|ss| - 1], ss[|ss| - 1];
      SecretsFail(init, cfg);
      assert FilledSecrets(ss, cfg).None? <==> FilledSecrets(init, cfg).None? || SecretFails(last, cfg);
      assert last in ss && forall s <- init :: s in ss;
      assert forall s <- ss :: s in init || s == last;
    }
  }

  lemma {:induction false} SpecsFail(cs: seq<Container>, cfg: Config)
    ensures ConfigSpecs(cs, cfg).None? <==> exists c <- cs :: ConfigSpec(c, cfg).None?
  {
    if cs != [] {
      var init, last := cs[..|cs| - 1], cs[|cs| - 1];
      SpecsFail(init, cfg);
      assert ConfigSpecs(cs, cfg).None? <==> ConfigSpecs(init, cfg).None? || ConfigSpec(last, cfg).None?;
      assert last in cs && forall c <- init :: c in cs;
      assert forall c <- cs :: c in init || c == last;
    }
  }

  /** Some slot of the container fails although the gate has passed. */
  ghost predicate ContainerFails(c: Container, v: Values, cfg: Config) {
    || (exists r <- c.repos :: RepoStaysOpen(r, v, cfg))
    || (exists s <- c.secrets :: SecretStillFails(s, v, cfg))
  }

  lemma RepoPart(cfg: Config, cs: seq<Container>, v: Values, c: Container)
    requires Accepts(cfg, cs) && c in cs
    ensures FilledRepos(ResolveContainer(c, v).repos, cfg).None? <==> exists r <- c.repos :: RepoStaysOpen(r, v, cfg)
  {
    var rs := ResolveContainer(c, v).repos;
    ReposFail(rs, cfg);
    forall j | 0 <= j < |rs|
      ensures RepoFails(rs[j], cfg) <==> RepoStaysOpen(c.repos[j], v, cfg)
    {
      RepoLeftOpenExactly(cfg, cs, v, c, c.repos[j]);
    }
    forall r | r in c.repos && RepoStaysOpen(r, v, cfg) ensures FilledRepos(rs, cfg).None? {
      var j :| 0 <= j < |c.repos| && c.repos[j] == r;
      assert rs[j] in rs;
    }
  }

  lemma SecretPart(cfg: Config, cs: seq<Container>, v: Values, c: Container)
    requires Accepts(cfg, cs) && c in cs
    ensures FilledSecrets(ResolveContainer(c, v).secrets, cfg).None? <==>
            exists s <- c.secrets :: SecretStillFails(s, v, cfg)
  {
    var ss := ResolveContainer(c, v).secrets;
    SecretsFail(ss, cfg);
    forall j | 0 <= j < |ss| ensures SecretFails(ss[j], cfg) <==> SecretStillFails(c.secrets[j], v, cfg) {
      SecretLeftOpenExactly(cfg, cs, v, c, c.secrets[j]);
    }
    forall s | s in c.secrets && SecretStillFails(s, v, cfg) ensures FilledSecrets(ss, cfg).None? {
      var j :| 0 <= j < |c.secrets| && c.secrets[j] == s;
      assert ss[j] in ss;
    }
  }

  lemma SpecFailsExactly(cfg: Config, cs: seq<Container>, v: Values, c: Container)
    requires Accepts(cfg, cs) && c in cs
    ensures ConfigSpec(ResolveContainer(c, v), cfg).None? <==> ContainerFails(c, v, cfg)
  {
    RepoPart(cfg, cs, v, c);
    SecretPart(cfg, cs, v, c);
  }

  lemma SpecsFailExactly(cfg: Config, cs: seq<Container>, v: Values)
    requires Accepts(cfg, cs)
    ensures ConfigSpecs(ResolveContainers(cs, v), cfg).None? <==> exists c <- cs :: ContainerFails(c, v, cfg)
  {
    var rs := ResolveContainers(cs, v);
    SpecsFail(rs, cfg);
    forall i | 0 <= i < |cs| ensures ConfigSpec(rs[i], cfg).None? <==> ContainerFails(cs[i], v, cfg) {
      SpecFailsExactly(cfg, cs, v, cs[i]);
    }
    forall c | c in cs && ContainerFails(c, v, cfg) ensures ConfigSpecs(rs, cfg).None? {
      var i :| 0 <= i < |cs| && cs[i] == c;
      assert rs[i] in rs;
    }
  }

  /**
   A Config that passes the gate, and whose values resolve, still fails to materialise exactly when a templated slot
   resolves to an open one, or a secret is filled without a reference or consumed in an unknown mode.
   */
  lemma AcceptedConfigFailsExactly(cfg: Config, bp: Blueprint, name: string, v: Values)
    requires Accepts(cfg, bp.containers) && ValuesFor(bp, cfg.values, map[], true) == Some(v)
    ensures FromConfig(cfg, bp, name).None? <==> exists c <- bp.containers :: ContainerFails(c, v, cfg)
  {
    SpecsFailExactly(cfg, bp.containers, v);
  }

  /** So a Config whose slots are all literal, and whose fills name a secret, is safe behind the gate. */
  lemma GateSuffices(cfg: Config, bp: Blueprint, name: string, v: Values)
    requires Accepts(cfg, bp.containers) && ValuesFor(bp, cfg.values, map[], true) == Some(v)
    requires forall c <- bp.containers ::
      && (forall r <- c.repos :: !HasOpener(r.name) && !HasOpener(r.url))
      && (forall s <- c.secrets :: !HasOpener(s.name) && !SecretFillFails(s, v, cfg))
    ensures FromConfig(cfg, bp, name).Some?
  {
    AcceptedConfigFailsExactly(cfg, bp, name, v);
  }

  /** A lenient resolution of a blueprint without parameters carries the supplied values as they are. */
  lemma NothingDeclared(bp: Blueprint, supplied: Values)
    requires bp.parameters == []
    ensures ValuesFor(bp, supplied, map[], true) == Some(supplied)
  {
    assert Undeclared(bp.parameters, supplied) == supplied;
    assert DeclaredValues([], supplied, map[]) == Some(map[]);
    assert supplied + map[] == supplied;
  }

  /** A value that leaves the text field it is substituted for empty or blank. */
  predicate IsNothing(value: string) { Blank(value) || IsNull(value) }

  lemma TemplateStaysOpen(k: string, r: Repo, cfg: Config)
    requires IsName(k) && r.url == Reference(k) && r.required
    requires NoFills(cfg) && k in cfg.values && IsNothing(cfg.values[k])
    ensures !IsSlot(r) && RepoStaysOpen(r, cfg.values, cfg)
  {
    assert r.url[0] in r.url && !IsSpace('$');
    assert r.url[0] == '$' && r.url[1] == '{';
    LoneReference(k, cfg.values);
  }

  lemma NoSlotsAccepted(cfg: Config, c: Container)
    requires NoFills(cfg) && c.secrets == [] && forall r <- c.repos :: !IsSlot(r)
    ensures Accepts(cfg, [c])
  {
    assert RequiredRepos([c]) == {} && RequiredSecrets([c]) == {};
  }

  /** A blueprint with nothing but this repo. */
  predicate HasOnly(bp: Blueprint, r: Repo) {
    && bp.parameters == [] && |bp.containers| == 1
    && bp.containers[0].repos == [r] && bp.containers[0].secrets == []
  }

  /** A required repo whose url is a parameter set to nothing passes the gate. */
  lemma TemplatedUrlIsAccepted(k: string, r: Repo, cfg: Config, bp: Blueprint)
    requires IsName(k) && r.url == Reference(k) && r.required && HasOnly(bp, r)
    requires NoFills(cfg) && k in cfg.values && IsNothing(cfg.values[k])
    ensures Accepts(cfg, bp.containers)
  {
    TemplateStaysOpen(k, r, cfg);
    NoSlotsAccepted(cfg, bp.containers[0]);
    assert bp.containers == [bp.containers[0]];
  }

  /** And then fails. */
  lemma TemplatedUrlPassesTheGate(k: string, r: Repo, cfg: Config, bp: Blueprint, name: string)
    requires IsName(k) && r.url == Reference(k) && r.required && HasOnly(bp, r)
    requires NoFills(cfg) && k in cfg.values && IsNothing(cfg.values[k])
    ensures Accepts(cfg, bp.containers) && FromConfig(cfg, bp, name).None?
  {
    TemplatedUrlIsAccepted(k, r, cfg, bp);
    NothingDeclared(bp, cfg.values);
    AcceptedConfigFailsExactly(cfg, bp, name, cfg.values);
    TemplateStaysOpen(k, r, cfg);
    var c := bp.containers[0];
    assert c in bp.containers && r in c.repos && ContainerFails(c, cfg.values, cfg);
  }

  /** For instance with the url set to a YAML null. */
  lemma NullUrlPassesTheGate(r: Repo, cfg: Config, bp: Blueprint, name: string)
    requires r == Repo("src", "${URL}", "", "", true) && HasOnly(bp, r)
    requires cfg == Config(map["URL" := "~"], map[], map[])
    ensures Accepts(cfg, bp.containers) && FromConfig(cfg, bp, name).None?
  {
    assert "URL"[0] == 'U' && Reference("URL") == "${URL}";
    assert IsName("URL");
    assert IsNull("~") by {
      assert ["", "~", "null", "Null", "NULL"][1] == "~";
    }
    TemplatedUrlPassesTheGate("URL", r, cfg, bp, name);
  }

  // ----- Fills under untrimmed keys -----

  /** The fills whose keys carry no surrounding white space. */
  function TrimmedKeys<F>(fills: map<string, F>): map<string, F> {
    map k | k in fills && TrimSpace(k) == k :: fills[k]
  }

  function WithTrimmedKeys(cfg: Config): Config {
    cfg.(repos := TrimmedKeys(cfg.repos), secrets := TrimmedKeys(cfg.secrets))
  }

  lemma {:induction false} ReposIgnoreUntrimmed(rs: seq<Repo>, cfg: Config)
    ensures FilledRepos(rs, cfg) == FilledRepos(rs, WithTrimmedKeys(cfg))
  {
    if rs != [] {
      ReposIgnoreUntrimmed(rs[..|rs| - 1], cfg);
      TrimTwice(rs[|rs| - 1].name);
    }
  }

  lemma {:induction false} SecretsIgnoreUntrimmed(ss: seq<SecretSlot>, cfg: Config)
    ensures FilledSecrets(ss, cfg) == FilledSecrets(ss, WithTrimmedKeys(cfg))
  {
    if ss != [] {
      SecretsIgnoreUntrimmed(ss[..|ss| - 1], cfg);
      TrimTwice(ss[|ss| - 1].name);
    }
  }

  lemma {:induction false} SpecsIgnoreUntrimmed(cs: seq<Container>, cfg: Config)
    ensures ConfigSpecs(cs, cfg) == ConfigSpecs(cs, WithTrimmedKeys(cfg))
  {
    if cs != [] {
      SpecsIgnoreUntrimmed(cs[..|cs| - 1], cfg);
      ReposIgnoreUntrimmed(cs[|cs| - 1].repos, cfg);
      SecretsIgnoreUntrimmed(cs[|cs| - 1].secrets, cfg);
    }
  }

  /** The gate needs no untrimmed key either: slots are declared under trimmed names. */
  lemma TrimmedStillAccepted(cfg: Config, cs: seq<Container>)
    requires Accepts(cfg, cs)
    ensures Accepts(WithTrimmedKeys(cfg), cs)
  {
    forall n | n in RequiredRepos(cs) ensures n in WithTrimmedKeys(cfg).repos {
      var c, r :| c in cs && r in c.repos && IsSlot(r) && r.required && TrimSpace(r.name) == n;
      TrimTwice(r.name);
    }
    forall n | n in RequiredSecrets(cs) ensures n in WithTrimmedKeys(cfg).secrets {
      var c, s :| c in cs && s in c.secrets && s.required && TrimSpace(s.name) == n;
      TrimTwice(s.name);
    }
  }

  /** An accepted Config's fills under untrimmed keys make no difference to the cell. */
  lemma UntrimmedFillsAreIgnored(cfg: Config, bp: Blueprint, name: string)
    requires Accepts(cfg, bp.containers)
    ensures FromConfig(cfg, bp, name) == FromConfig(WithTrimmedKeys(cfg), bp, name)
  {
    TrimmedStillAccepted(cfg, bp.containers);
    var values := ValuesFor(bp, cfg.values, map[], true);
    if values.Some? {
      SpecsIgnoreUntrimmed(ResolveContainers(bp.containers, values.value), cfg);
    }
  }

  /** A Config without values and secrets, and one repo fill. */
  function FilledUnder(key: string, fill: RepoFill): Config { Config(map[], map[key := fill], map[]) }

  lemma OneSlotAccepted(cfg: Config, c: Container, r: Repo)
    requires c.repos == [r] && c.secrets == [] && IsSlot(r) && !r.required && cfg.secrets == map[]
    requires forall k <- cfg.repos :: TrimSpace(k) == TrimSpace(r.name)
    ensures Accepts(cfg, [c])
  {
    assert c in [c] && r in c.repos;
    assert TrimSpace(r.name) in RepoSlots([c]);
    assert RequiredRepos([c]) == {} && RequiredSecrets([c]) == {};
  }

  /** So an optional slot's fill under an untrimmed key is accepted and lost; under the slot's name it is used. */
  lemma UntrimmedFillIsLost(key: string, fill: RepoFill, r: Repo, bp: Blueprint, name: string)
    requires HasOnly(bp, r) && IsSlot(r) && !r.required
    requires TrimSpace(key) == TrimSpace(r.name) && TrimSpace(key) != key
    ensures Accepts(FilledUnder(key, fill), bp.containers)
    ensures FromConfig(FilledUnder(key, fill), bp, name) == FromConfig(Config(map[], map[], map[]), bp, name)
    ensures FillRepo(r, FilledUnder(TrimSpace(key), fill)).Keep?
  {
    var cfg := FilledUnder(key, fill);
    OneSlotAccepted(cfg, bp.containers[0], r);
    assert bp.containers == [bp.containers[0]];
    UntrimmedFillsAreIgnored(cfg, bp, name);
    assert WithTrimmedKeys(cfg) == Config(map[], map[], map[]);
  }

  lemma SpacedKey()
    ensures TrimSpace(" s") == TrimSpace("s") == "s" && " s" != "s"
  {
    assert " s"[1..] == "s" && |" s"| == 2;
  }

  /** For instance under a key with a space in front. */
  lemma SpacedFillIsLost(fill: RepoFill, r: Repo, bp: Blueprint, name: string)
    requires r == Repo("s", "", "", "", false) && HasOnly(bp, r)
    ensures Accepts(FilledUnder(" s", fill), bp.containers)
    ensures FromConfig(FilledUnder(" s", fill), bp, name) == FromConfig(Config(map[], map[], map[]), bp, name)
  {
    SpacedKey();
    UntrimmedFillIsLost(" s", fill, r, bp, name);
  }
}
