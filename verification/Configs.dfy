/**
 Materialising a cell from a CellConfig and its CellBlueprint, with the slot-fill
 gate in front (internal/cellconfig/cellconfig.go, materialize.go).
 */
module Configs {
  import opened Wrappers
  import opened Text
  import opened Substitution
  import opened Blueprints

  datatype RepoFill = RepoFill(url: string, branch: string, ref: string)

  datatype SecretFill = SecretFill(secretRef: Option<string>)

  datatype Config = Config(values: Values, repos: map<string, RepoFill>, secrets: map<string, SecretFill>)

  // ----- The slot-fill gate -----

  /** The slots the (unresolved) blueprint declares, and those some declaration requires. */
  ghost function RepoSlots(cs: seq<Container>): set<string> {
    set c, r | c in cs && r in c.repos && IsSlot(r) :: TrimSpace(r.name)
  }

  ghost function RequiredRepos(cs: seq<Container>): set<string> {
    set c, r | c in cs && r in c.repos && IsSlot(r) && r.required :: TrimSpace(r.name)
  }

  ghost function SecretSlots(cs: seq<Container>): set<string> {
    set c, s | c in cs && s in c.secrets :: TrimSpace(s.name)
  }

  ghost function RequiredSecrets(cs: seq<Container>): set<string> {
    set c, s | c in cs && s in c.secrets && s.required :: TrimSpace(s.name)
  }

  datatype SlotError =
    | UnknownRepo(name: string) | UnknownSecret(name: string)
    | UnfilledRepo(name: string) | UnfilledSecret(name: string)

  /** One of something per check, in the order the checks are made. */
  datatype Checks<+T> = Checks(repoFills: T, secretFills: T, repoSlots: T, secretSlots: T)

  /** The names each check ranges over. */
  ghost function Ranged(cfg: Config, cs: seq<Container>): Checks<set<string>> {
    Checks(cfg.repos.Keys, cfg.secrets.Keys, RepoSlots(cs), SecretSlots(cs))
  }

  /** The names each check objects to: unknown fills, then unfilled required slots. */
  ghost function Offenders(cfg: Config, cs: seq<Container>): Checks<set<string>> {
    Checks((set k | k in cfg.repos.Keys && TrimSpace(k) !in RepoSlots(cs)),
           (set k | k in cfg.secrets.Keys && TrimSpace(k) !in SecretSlots(cs)),
           RequiredRepos(cs) - cfg.repos.Keys,
           RequiredSecrets(cs) - cfg.secrets.Keys)
  }

  ghost predicate Within(bad: Checks<set<string>>, keys: Checks<set<string>>) {
    && bad.repoFills <= keys.repoFills
    && bad.secretFills <= keys.secretFills
    && bad.repoSlots <= keys.repoSlots
    && bad.secretSlots <= keys.secretSlots
  }

  lemma OffendersAreRanged(cfg: Config, cs: seq<Container>)
    ensures Within(Offenders(cfg, cs), Ranged(cfg, cs))
  {
  }

  /** The offences of the first check that has any: one of these is reported. */
  ghost function Offences(bad: Checks<set<string>>): set<SlotError> {
    if bad.repoFills != {} then set k | k in bad.repoFills :: UnknownRepo(k)
    else if bad.secretFills != {} then set k | k in bad.secretFills :: UnknownSecret(k)
    else if bad.repoSlots != {} then set k | k in bad.repoSlots :: UnfilledRepo(k)
    else set k | k in bad.secretSlots :: UnfilledSecret(k)
  }

  /** Go's map ranges yield their keys in any order. */
  ghost predicate PossibleOrders(o: Checks<seq<string>>, keys: Checks<set<string>>) {
    && multiset(o.repoFills) == multiset(keys.repoFills)
    && multiset(o.secretFills) == multiset(keys.secretFills)
    && multiset(o.repoSlots) == multiset(keys.repoSlots)
    && multiset(o.secretSlots) == multiset(keys.secretSlots)
  }

  /** The first element of an iteration order that offends. */
  ghost function FirstBad(order: seq<string>, bad: set<string>): Option<string> {
    if order == [] then None
    else if order[0] in bad then Some(order[0])
    else FirstBad(order[1..], bad)
  }

  /** The error reported when the maps are ranged over in the given orders. */
  ghost function Report(o: Checks<seq<string>>, bad: Checks<set<string>>): Option<SlotError> {
    var e1, e2 := FirstBad(o.repoFills, bad.repoFills), FirstBad(o.secretFills, bad.secretFills);
    var e3, e4 := FirstBad(o.repoSlots, bad.repoSlots), FirstBad(o.secretSlots, bad.secretSlots);
    if e1.Some? then Some(UnknownRepo(e1.value))
    else if e2.Some? then Some(UnknownSecret(e2.value))
    else if e3.Some? then Some(UnfilledRepo(e3.value))
    else if e4.Some? then Some(UnfilledSecret(e4.value))
    else None
  }

  lemma {:induction false} FirstBadMeaning(order: seq<string>, bad: set<string>)
    ensures var r := FirstBad(order, bad);
            if r.Some? then r.value in bad && r.value in order else forall k <- order :: k !in bad
  {
    if order != [] && order[0] !in bad {
      FirstBadMeaning(order[1..], bad);
    }
  }

  lemma FirstBadFinds(order: seq<string>, keys: set<string>, bad: set<string>)
    requires multiset(order) == multiset(keys) && bad <= keys
    ensures var r := FirstBad(order, bad); if r.Some? then r.value in bad else bad == {}
  {
    FirstBadMeaning(order, bad);
    forall k | k in bad ensures k in order {
      assert k in multiset(order);
    }
  }

  /** The gate passes exactly when nothing offends, and reports one of the first check's offences otherwise. */
  lemma ReportIsAnOffence(o: Checks<seq<string>>, keys: Checks<set<string>>, bad: Checks<set<string>>)
    requires PossibleOrders(o, keys) && Within(bad, keys)
    ensures var r := Report(o, bad); if r.Some? then r.value in Offences(bad) else Offences(bad) == {}
  {
    FirstBadFinds(o.repoFills, keys.repoFills, bad.repoFills);
    FirstBadFinds(o.secretFills, keys.secretFills, bad.secretFills);
    FirstBadFinds(o.repoSlots, keys.repoSlots, bad.repoSlots);
    FirstBadFinds(o.secretSlots, keys.secretSlots, bad.secretSlots);
  }

  ghost function SomeOrder(keys: set<string>): (r: seq<string>)
    ensures multiset(r) == multiset(keys)
  {
    if keys == {} then []
    else
      var k :| k in keys;
      assert keys == (keys - {k}) + {k};
      [k] + SomeOrder(keys - {k})
  }

  ghost function OrderFrom(keys: set<string>, first: string): (r: seq<string>)
    ensures multiset(r) == multiset(keys)
    ensures first in keys ==> r != [] && r[0] == first
  {
    if first in keys then
      assert keys == (keys - {first}) + {first};
      [first] + SomeOrder(keys - {first})
    else SomeOrder(keys)
  }

  /** Every offence of the first check is reported under some iteration order. */
  lemma EveryOffenceIsReported(keys: Checks<set<string>>, bad: Checks<set<string>>, e: SlotError)
    returns (o: Checks<seq<string>>)
    requires Within(bad, keys) && e in Offences(bad)
    ensures PossibleOrders(o, keys) && Report(o, bad) == Some(e)
  {
    o := Checks(OrderFrom(keys.repoFills, e.name), OrderFrom(keys.secretFills, e.name),
                OrderFrom(keys.repoSlots, e.name), OrderFrom(keys.secretSlots, e.name));
    FirstBadFinds(o.repoFills, keys.repoFills, bad.repoFills);
    FirstBadFinds(o.secretFills, keys.secretFills, bad.secretFills);
    FirstBadFinds(o.repoSlots, keys.repoSlots, bad.repoSlots);
  }

  /** The reported error is the same on every run exactly when the first objecting check has one offender. */
  lemma ErrorIsStableExactly(cfg: Config, cs: seq<Container>)
    ensures var keys, bad := Ranged(cfg, cs), Offenders(cfg, cs);
            (forall o, o' | PossibleOrders(o, keys) && PossibleOrders(o', keys) ::
               Report(o, bad) == Report(o', bad)) <==>
            (forall e, e' | e in Offences(bad) && e' in Offences(bad) :: e == e')
  {
    var keys, bad := Ranged(cfg, cs), Offenders(cfg, cs);
    OffendersAreRanged(cfg, cs);
    if forall o, o' | PossibleOrders(o, keys) && PossibleOrders(o', keys) :: Report(o, bad) == Report(o', bad) {
      forall e, e' | e in Offences(bad) && e' in Offences(bad) ensures e == e' {
        var o := EveryOffenceIsReported(keys, bad, e);
        var o' := EveryOffenceIsReported(keys, bad, e');
        assert Report(o, bad) == Report(o', bad);
      }
    }
    forall o | PossibleOrders(o, keys)
      ensures var r := Report(o, bad); if r.Some? then r.value in Offences(bad) else Offences(bad) == {}
    {
      ReportIsAnOffence(o, keys, bad);
    }
  }

  /** Two fills the blueprint does not declare: which of them is reported is up to the map. */
  lemma TwoOrdersTwoErrors(f: RepoFill)
    ensures var cfg := Config(map[], map["a" := f, "b" := f], map[]);
            var o, o' := Checks(["a", "b"], [], [], []), Checks(["b", "a"], [], [], []);
            && PossibleOrders(o, Ranged(cfg, [])) && PossibleOrders(o', Ranged(cfg, []))
            && Report(o, Offenders(cfg, [])) == Some(UnknownRepo("a"))
            && Report(o', Offenders(cfg, [])) == Some(UnknownRepo("b"))
  {
    var cfg := Config(map[], map["a" := f, "b" := f], map[]);
    assert cfg.repos.Keys == {"a", "b"} && "a"[0] != "b"[0];
    assert multiset({"a", "b"}) == multiset{"a", "b"};
    assert Offenders(cfg, []).repoFills == {"a", "b"};
  }

  ghost function RepoSlotsOf(rs: seq<Repo>): set<string> {
    set r | r in rs && IsSlot(r) :: TrimSpace(r.name)
  }

  ghost function RequiredReposOf(rs: seq<Repo>): set<string> {
    set r | r in rs && IsSlot(r) && r.required :: TrimSpace(r.name)
  }

  ghost function SecretSlotsOf(ss: seq<SecretSlot>): set<string> {
    set s | s in ss :: TrimSpace(s.name)
  }

  ghost function RequiredSecretsOf(ss: seq<SecretSlot>): set<string> {
    set s | s in ss && s.required :: TrimSpace(s.name)
  }

  /** slots[name] = slots[name] || required */
  function Note(slots: map<string, bool>, name: string, required: bool): map<string, bool> {
    slots[name := (name in slots && slots[name]) || required]
  }

  /** slots records which names are declared and which of them are required. */
  ghost predicate Records(slots: map<string, bool>, declared: set<string>, required: set<string>) {
    slots.Keys == declared && forall n <- slots :: slots[n] <==> n in required
  }

  lemma NoteRecords(slots: map<string, bool>, name: string, must: bool, declared: set<string>, required: set<string>)
    requires Records(slots, declared, required) && required <= declared
    ensures Records(Note(slots, name, must), declared + {name}, required + if must then {name} else {})
  {
  }

  lemma RepoStep(rs: seq<Repo>, i: nat)
    requires i < |rs|
    ensures RequiredReposOf(rs[..i]) <= RepoSlotsOf(rs[..i])
    ensures if IsSlot(rs[i]) then
              && RepoSlotsOf(rs[..i + 1]) == RepoSlotsOf(rs[..i]) + {TrimSpace(rs[i].name)}
              && RequiredReposOf(rs[..i + 1]) ==
                 RequiredReposOf(rs[..i]) + if rs[i].required then {TrimSpace(rs[i].name)} else {}
            else
              && RepoSlotsOf(rs[..i + 1]) == RepoSlotsOf(rs[..i])
              && RequiredReposOf(rs[..i + 1]) == RequiredReposOf(rs[..i])
  {
    assert rs[..i + 1] == rs[..i] + [rs[i]];
    assert forall r <- rs[..i] :: r in rs[..i + 1];
    assert rs[i] in rs[..i + 1];
  }

  method NoteRepos(slots: map<string, bool>, rs: seq<Repo>, ghost declared: set<string>, ghost required: set<string>)
    returns (r: map<string, bool>)
    requires Records(slots, declared, required) && required <= declared
    ensures Records(r, declared + RepoSlotsOf(rs), required + RequiredReposOf(rs))
  {
    r := slots;
    ghost var d, q := declared, required;
    for i := 0 to |rs|
      invariant d == declared + RepoSlotsOf(rs[..i]) && q == required + RequiredReposOf(rs[..i])
      invariant Records(r, d, q)
    {
      RepoStep(rs, i);
      TrimsToNothing(rs[i].url);
      if TrimSpace(rs[i].url) != "" {
        continue;
      }
      var name := TrimSpace(rs[i].name);
      NoteRecords(r, name, rs[i].required, d, q);
      r := Note(r, name, rs[i].required);
      d, q := d + {name}, q + if rs[i].required then {name} else {};
    }
    assert rs[..|rs|] == rs;
  }

  lemma SecretStep(ss: seq<SecretSlot>, i: nat)
    requires i < |ss|
    ensures RequiredSecretsOf(ss[..i]) <= SecretSlotsOf(ss[..i])
    ensures SecretSlotsOf(ss[..i + 1]) == SecretSlotsOf(ss[..i]) + {TrimSpace(ss[i].name)}
    ensures RequiredSecretsOf(ss[..i + 1]) ==
            RequiredSecretsOf(ss[..i]) + if ss[i].required then {TrimSpace(ss[i].name)} else {}
  {
    assert ss[..i + 1] == ss[..i] + [ss[i]];
    assert forall s <- ss[..i] :: s in ss[..i + 1];
    assert ss[i] in ss[..i + 1];
  }

  method NoteSecrets(slots: map<string, bool>, ss: seq<SecretSlot>,
                     ghost declared: set<string>, ghost required: set<string>)
    returns (r: map<string, bool>)
    requires Records(slots, declared, required) && required <= declared
    ensures Records(r, declared + SecretSlotsOf(ss), required + RequiredSecretsOf(ss))
  {
    r := slots;
    ghost var d, q := declared, required;
    for i := 0 to |ss|
      invariant d == declared + SecretSlotsOf(ss[..i]) && q == required + RequiredSecretsOf(ss[..i])
      invariant Records(r, d, q)
    {
      SecretStep(ss, i);
      var name := TrimSpace(ss[i].name);
      NoteRecords(r, name, ss[i].required, d, q);
      r := Note(r, name, ss[i].required);
      d, q := d + {name}, q + if ss[i].required then {name} else {};
    }
    assert ss[..|ss|] == ss;
  }

  lemma SlotsStep(cs: seq<Container>, i: nat)
    requires i < |cs|
    ensures RepoSlots(cs[..i + 1]) == RepoSlots(cs[..i]) + RepoSlotsOf(cs[i].repos)
    ensures RequiredRepos(cs[..i + 1]) == RequiredRepos(cs[..i]) + RequiredReposOf(cs[i].repos)
    ensures SecretSlots(cs[..i + 1]) == SecretSlots(cs[..i]) + SecretSlotsOf(cs[i].secrets)
    ensures RequiredSecrets(cs[..i + 1]) == RequiredSecrets(cs[..i]) + RequiredSecretsOf(cs[i].secrets)
  {
    assert cs[..i + 1] == cs[..i] + [cs[i]];
  }

  /** The first half of ValidateSlotFill: which slots are declared, and which required. */
  method CollectSlots(cs: seq<Container>) returns (repos: map<string, bool>, secrets: map<string, bool>)
    ensures Records(repos, RepoSlots(cs), RequiredRepos(cs))
    ensures Records(secrets, SecretSlots(cs), RequiredSecrets(cs))
  {
    repos, secrets := map[], map[];
    for i := 0 to |cs|
      invariant Records(repos, RepoSlots(cs[..i]), RequiredRepos(cs[..i]))
      invariant Records(secrets, SecretSlots(cs[..i]), RequiredSecrets(cs[..i]))
    {
      SlotsStep(cs, i);
      repos := NoteRepos(repos, cs[i].repos, RepoSlots(cs[..i]), RequiredRepos(cs[..i]));
      secrets := NoteSecrets(secrets, cs[i].secrets, SecretSlots(cs[..i]), RequiredSecrets(cs[..i]));
    }
    assert cs[..|cs|] == cs;
  }

  method FirstUnknown(order: seq<string>, slots: map<string, bool>, ghost bad: set<string>) returns (r: Option<string>)
    requires forall k <- order :: k in bad <==> TrimSpace(k) !in slots
    ensures r == FirstBad(order, bad)
  {
    for i := 0 to |order|
      invariant FirstBad(order, bad) == FirstBad(order[i..], bad)
    {
      assert order[i] in order && order[i..][1..] == order[i + 1..];
      if TrimSpace(order[i]) !in slots {
        return Some(order[i]);
      }
    }
    r := None;
  }

  method FirstUnfilled<F>(order: seq<string>, slots: map<string, bool>, fills: map<string, F>, ghost bad: set<string>)
    returns (r: Option<string>)
    requires forall k <- order :: k in slots && (k in bad <==> slots[k] && k !in fills)
    ensures r == FirstBad(order, bad)
  {
    for i := 0 to |order|
      invariant FirstBad(order, bad) == FirstBad(order[i..], bad)
    {
      assert order[i] in order && order[i..][1..] == order[i + 1..];
      if slots[order[i]] {
        if order[i] !in fills {
          return Some(order[i]);
        }
      }
    }
    r := None;
  }

  /** ValidateSlotFill, its map ranges taken in the orders o. */
  method ValidateSlotFill(cfg: Config, cs: seq<Container>, o: Checks<seq<string>>) returns (r: Option<SlotError>)
    requires PossibleOrders(o, Ranged(cfg, cs))
    ensures r == Report(o, Offenders(cfg, cs))
    ensures r.None? <==> Accepts(cfg, cs)
  {
    ghost var keys, bad := Ranged(cfg, cs), Offenders(cfg, cs);
    OffendersAreRanged(cfg, cs);
    ReportIsAnOffence(o, keys, bad);
    OrdersRange(o, keys);
    AcceptsWithoutOffence(cfg, cs);
    var repos, secrets := CollectSlots(cs);
    OffendersAreTested(cfg, cs, repos, secrets);
    var e := FirstUnknown(o.repoFills, repos, bad.repoFills);
    if e.Some? {
      return Some(UnknownRepo(e.value));
    }
    e := FirstUnknown(o.secretFills, secrets, bad.secretFills);
    if e.Some? {
      return Some(UnknownSecret(e.value));
    }
    e := FirstUnfilled(o.repoSlots, repos, cfg.repos, bad.repoSlots);
    if e.Some? {
      return Some(UnfilledRepo(e.value));
    }
    e := FirstUnfilled(o.secretSlots, secrets, cfg.secrets, bad.secretSlots);
    if e.Some? {
      return Some(UnfilledSecret(e.value));
    }
    r := None;
  }

  lemma OffendersAreTested(cfg: Config, cs: seq<Container>, repos: map<string, bool>, secrets: map<string, bool>)
    requires Records(repos, RepoSlots(cs), RequiredRepos(cs)) && Records(secrets, SecretSlots(cs), RequiredSecrets(cs))
    ensures forall k <- cfg.repos.Keys :: k in Offenders(cfg, cs).repoFills <==> TrimSpace(k) !in repos
    ensures forall k <- cfg.secrets.Keys :: k in Offenders(cfg, cs).secretFills <==> TrimSpace(k) !in secrets
    ensures forall k <- RepoSlots(cs) ::
      k in repos && (k in Offenders(cfg, cs).repoSlots <==> repos[k] && k !in cfg.repos)
    ensures forall k <- SecretSlots(cs) ::
      k in secrets && (k in Offenders(cfg, cs).secretSlots <==> secrets[k] && k !in cfg.secrets)
  {
  }

  lemma AcceptsWithoutOffence(cfg: Config, cs: seq<Container>)
    ensures Accepts(cfg, cs) <==> Offences(Offenders(cfg, cs)) == {}
  {
    var bad := Offenders(cfg, cs);
    NoOffenders(bad);
    if bad.repoFills == {} {
      forall k | k in cfg.repos ensures TrimSpace(k) in RepoSlots(cs) {
        assert k !in bad.repoFills;
      }
    }
    if bad.secretFills == {} {
      forall k | k in cfg.secrets ensures TrimSpace(k) in SecretSlots(cs) {
        assert k !in bad.secretFills;
      }
    }
    DifferenceEmpty(RequiredRepos(cs), cfg.repos.Keys);
    DifferenceEmpty(RequiredSecrets(cs), cfg.secrets.Keys);
  }

  lemma DifferenceEmpty(a: set<string>, b: set<string>)
    ensures a - b == {} <==> a <= b
  {
    if a - b == {} {
      forall k | k in a ensures k in b {
        assert k !in a - b;
      }
    }
  }

  lemma NoOffenders(bad: Checks<set<string>>)
    ensures Offences(bad) == {} <==>
            bad.repoFills == {} && bad.secretFills == {} && bad.repoSlots == {} && bad.secretSlots == {}
  {
    if k :| k in bad.repoFills {
      assert UnknownRepo(k) in Offences(bad);
    } else if k :| k in bad.secretFills {
      assert UnknownSecret(k) in Offences(bad);
    } else if k :| k in bad.repoSlots {
      assert UnfilledRepo(k) in Offences(bad);
    } else if k :| k in bad.secretSlots {
      assert UnfilledSecret(k) in Offences(bad);
    }
  }

  lemma OrdersRange(o: Checks<seq<string>>, keys: Checks<set<string>>)
    requires PossibleOrders(o, keys)
    ensures (forall k <- o.repoFills :: k in keys.repoFills) && (forall k <- o.secretFills :: k in keys.secretFills)
    ensures (forall k <- o.repoSlots :: k in keys.repoSlots) && (forall k <- o.secretSlots :: k in keys.secretSlots)
  {
    assert forall k <- o.repoFills :: k in multiset(o.repoFills);
    assert forall k <- o.secretFills :: k in multiset(o.secretFills);
    assert forall k <- o.repoSlots :: k in multiset(o.repoSlots);
    assert forall k <- o.secretSlots :: k in multiset(o.secretSlots);
  }

  /** Every fill names a declared slot and every required slot is filled. */
  ghost predicate Accepts(cfg: Config, cs: seq<Container>) {
    && (forall k <- cfg.repos :: TrimSpace(k) in RepoSlots(cs))
    && (forall k <- cfg.secrets :: TrimSpace(k) in SecretSlots(cs))
    && RequiredRepos(cs) <= cfg.repos.Keys
    && RequiredSecrets(cs) <= cfg.secrets.Keys
  }
}
