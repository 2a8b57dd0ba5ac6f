/**
 Resolving a CellBlueprint and materialising it inline
 (internal/cellblueprint/cellblueprint.go).
 */
module Blueprints {
  import opened Wrappers
  import opened Text
  import opened Substitution
  import PerCellVolumes

  datatype Parameter = Parameter(name: string, default: Option<string>, required: bool)

  datatype Repo = Repo(name: string, url: string, branch: string, ref: string, required: bool)

  datatype SecretSlot = SecretSlot(name: string, mode: string, envName: string, mountPath: string, required: bool)

  datatype Volume = Volume(isVolume: bool, source: string, refName: Option<string>, ensure: bool)

  /** scalars stands for the text fields copied through unchanged: image, command, user and so on. */
  datatype Container = Container(
    id: string, scalars: seq<string>, volumes: seq<Volume>, repos: seq<Repo>, secrets: seq<SecretSlot>)

  datatype Blueprint = Blueprint(name: string, prefix: string, parameters: seq<Parameter>, containers: seq<Container>)

  /** The runtime container both channels produce. */
  datatype ContainerSecret = ContainerSecret(name: string, secretRef: string, mountPath: string)

  datatype ContainerSpec = ContainerSpec(
    id: string, scalars: seq<string>, volumes: seq<Volume>, repos: seq<Repo>, secrets: seq<ContainerSecret>)

  type Values = map<string, string>

  // ----- Parameter values -----

  ghost function Declared(ps: seq<Parameter>): set<string> {
    set p | p in ps :: p.name
  }

  /** The value of one declared parameter: supplied, else default, else environment, else empty unless required. */
  function ValueOf(p: Parameter, supplied: Values, env: Values): Option<string> {
    if p.name in supplied then Some(supplied[p.name])
    else if p.default.Some? then p.default
    else if p.name in env then Some(env[p.name])
    else if p.required then None
    else Some("")
  }

  /** The last declaration of a name decides its value; any declaration without one is an error. */
  ghost function DeclaredValues(ps: seq<Parameter>, supplied: Values, env: Values): Option<Values> {
    if ps == [] then Some(map[])
    else
      var last := ps[|ps| - 1];
      match DeclaredValues(ps[..|ps| - 1], supplied, env)
      case None => None
      case Some(m) =>
        var v := ValueOf(last, supplied, env);
        if v.None? then None else Some(m[last.name := v.value])
  }

  ghost function Undeclared(ps: seq<Parameter>, supplied: Values): Values {
    map k | k in supplied && k !in Declared(ps) :: supplied[k]
  }

  /** resolveValues: strict rejects undeclared keys, lenient carries them along. */
  ghost function ValuesFor(bp: Blueprint, supplied: Values, env: Values, lenient: bool): Option<Values> {
    var extra := Undeclared(bp.parameters, supplied);
    if !lenient && extra != map[] then None
    else match DeclaredValues(bp.parameters, supplied, env)
      case None => None
      case Some(m) => Some(extra + m)
  }

  method ResolveValues(bp: Blueprint, supplied: Values, env: Values, lenient: bool) returns (r: Option<Values>)
    ensures r == ValuesFor(bp, supplied, env, lenient)
  {
    var extra := CarryUndeclared(bp.parameters, supplied, lenient);
    if extra.None? {
      return None;
    }
    r := BindDeclared(bp.parameters, supplied, env, extra.value);
  }

  /** The first loop: undeclared keys, in whatever order the map yields them. */
  method CarryUndeclared(ps: seq<Parameter>, supplied: Values, lenient: bool) returns (r: Option<Values>)
    ensures r == if lenient || Undeclared(ps, supplied) == map[] then Some(Undeclared(ps, supplied)) else None
  {
    var declared: set<string> := {};
    for i := 0 to |ps|
      invariant declared == Declared(ps[..i])
    {
      declared := declared + {ps[i].name};
      assert ps[..i + 1] == ps[..i] + [ps[i]];
    }
    assert ps[..|ps|] == ps;
    ghost var extra := Undeclared(ps, supplied);
    var values: Values := map[];
    var keys := supplied.Keys;
    while keys != {}
      invariant keys <= supplied.Keys
      invariant values.Keys == extra.Keys - keys
      invariant forall k <- values :: values[k] == supplied[k]
      invariant !lenient ==> values == map[]
    {
      var k :| k in keys;
      keys := keys - {k};
      if k in declared {
        continue;
      }
      assert k in extra;
      if !lenient {
        return None;
      }
      values := values[k := supplied[k]];
    }
    assert values == extra;
    r := Some(values);
  }

  /** The second loop: declared parameters in order. */
  method BindDeclared(ps: seq<Parameter>, supplied: Values, env: Values, extra: Values) returns (r: Option<Values>)
    ensures r == match DeclaredValues(ps, supplied, env) case None => None case Some(m) => Some(extra + m)
  {
    var values := extra;
    for i := 0 to |ps|
      invariant DeclaredValues(ps[..i], supplied, env).Some?
      invariant values == extra + DeclaredValues(ps[..i], supplied, env).value
    {
      assert ps[..i + 1][..i] == ps[..i];
      var v := ValueOf(ps[i], supplied, env);
      if v.None? {
        FailsFrom(ps, i + 1, supplied, env);
        return None;
      }
      values := values[ps[i].name := v.value];
    }
    assert ps[..|ps|] == ps;
    r := Some(values);
  }

  lemma {:induction false} FailsFrom(ps: seq<Parameter>, i: nat, supplied: Values, env: Values)
    requires i <= |ps| && DeclaredValues(ps[..i], supplied, env).None?
    ensures DeclaredValues(ps, supplied, env).None?
    decreases |ps|
  {
    if i == |ps| {
      assert ps[..i] == ps;
    } else {
      assert ps[..|ps| - 1][..i] == ps[..i];
      FailsFrom(ps[..|ps| - 1], i, supplied, env);
    }
  }

  /** Strict resolution succeeds exactly when lenient does and every supplied key is declared, with the same values. */
  lemma StrictIsLenient(bp: Blueprint, supplied: Values, env: Values)
    ensures ValuesFor(bp, supplied, env, false) ==
            if supplied.Keys <= Declared(bp.parameters) then ValuesFor(bp, supplied, env, true) else None
  {
    var extra := Undeclared(bp.parameters, supplied);
    if supplied.Keys <= Declared(bp.parameters) {
      assert extra == map[];
    } else {
      var k :| k in supplied && k !in Declared(bp.parameters);
      assert k in extra;
    }
  }

  // ----- Which value a key gets -----

  /** A declaration that finds no value anywhere. */
  predicate Missing(p: Parameter, supplied: Values, env: Values) {
    p.required && p.default.None? && p.name !in supplied && p.name !in env
  }

  lemma {:induction false} DeclaredExactly(ps: seq<Parameter>, supplied: Values, env: Values)
    ensures DeclaredValues(ps, supplied, env).None? <==> exists p <- ps :: Missing(p, supplied, env)
    ensures var m := DeclaredValues(ps, supplied, env);
            m.Some? ==>
              && m.value.Keys == Declared(ps)
              && forall k <- m.value :: k in supplied ==> m.value[k] == supplied[k]
    decreases ps
  {
    if ps != [] {
      var init, last := ps[..|ps| - 1], ps[|ps| - 1];
      DeclaredExactly(init, supplied, env);
      assert ps == init + [last];
      assert Declared(ps) == Declared(init) + {last.name};
      assert ValueOf(last, supplied, env).None? <==> Missing(last, supplied, env);
    }
  }

  /** Resolution fails exactly on an undeclared key in strict mode, or on a required parameter nothing gives a value. */
  lemma ValuesFailExactly(bp: Blueprint, supplied: Values, env: Values, lenient: bool)
    ensures ValuesFor(bp, supplied, env, lenient).None? <==>
            || (!lenient && !(supplied.Keys <= Declared(bp.parameters)))
            || exists p <- bp.parameters :: Missing(p, supplied, env)
  {
    DeclaredExactly(bp.parameters, supplied, env);
    StrictIsLenient(bp, supplied, env);
  }

  /** What is supplied wins, and nothing but supplied and declared keys has a value. */
  lemma SuppliedWins(bp: Blueprint, supplied: Values, env: Values, lenient: bool, v: Values)
    requires ValuesFor(bp, supplied, env, lenient) == Some(v)
    ensures v.Keys == supplied.Keys + Declared(bp.parameters)
    ensures forall k <- supplied :: v[k] == supplied[k]
  {
    DeclaredExactly(bp.parameters, supplied, env);
  }

  /** A key that is not supplied gets its last declaration's default, else the environment's value, else nothing. */
  lemma DefaultElseEnvironment(bp: Blueprint, supplied: Values, env: Values, lenient: bool, v: Values, i: nat)
    requires ValuesFor(bp, supplied, env, lenient) == Some(v) && IsLast(bp.parameters, i)
    requires bp.parameters[i].name !in supplied
    ensures var p := bp.parameters[i];
            && p.name in v
            && v[p.name] == (if p.default.Some? then p.default.value else if p.name in env then env[p.name] else "")
  {
    LastDeclaration(bp.parameters, supplied, env, i);
  }

  /** No later declaration has the same name. */
  ghost predicate IsLast(ps: seq<Parameter>, i: nat) {
    i < |ps| && forall j | i < j < |ps| :: ps[j].name != ps[i].name
  }

  lemma {:induction false} LastDeclaration(ps: seq<Parameter>, supplied: Values, env: Values, i: nat)
    requires IsLast(ps, i) && DeclaredValues(ps, supplied, env).Some? && ps[i].name !in supplied
    ensures var m, p := DeclaredValues(ps, supplied, env).value, ps[i];
            && p.name in m
            && m[p.name] == (if p.default.Some? then p.default.value else if p.name in env then env[p.name] else "")
    decreases ps
  {
    var n := |ps| - 1;
    if i < n {
      LastDeclaration(ps[..n], supplied, env, i);
    }
  }

  // ----- Resolution -----

  /** A plain scalar the YAML decoder reads as null, which leaves the text field it is for empty. */
  predicate IsNull(s: string) { s in ["", "~", "null", "Null", "NULL"] }

  /** A text field after substitution and decoding: a rewritten scalar is plain and has lost its tag, so a null is read
      for what it is; a text without references keeps the quotes it was written with. */
  function Sub(s: string, v: Values): string {
    var t := Substituted(s, v);
    if HasOpener(s) && IsNull(t) then "" else t
  }

  /** A text without references comes out as it is, and one that is a single reference as its value. */
  lemma SubMeans(s: string, v: Values)
    ensures !HasOpener(s) ==> Sub(s, v) == s
    ensures forall k | IsName(k) && k in v && s == Reference(k) :: Sub(s, v) == if IsNull(v[k]) then "" else v[k]
  {
    forall k | IsName(k) && k in v && s == Reference(k) ensures Sub(s, v) == if IsNull(v[k]) then "" else v[k] {
      LoneReference(k, v);
      assert s[0] == '$' && s[1] == '{';
    }
  }

  function SubAll(ss: seq<string>, v: Values): seq<string> {
    seq(|ss|, i requires 0 <= i < |ss| => Sub(ss[i], v))
  }

  function ResolveRepo(r: Repo, v: Values): Repo {
    Repo(Sub(r.name, v), Sub(r.url, v), Sub(r.branch, v), Sub(r.ref, v), r.required)
  }

  function ResolveSecret(s: SecretSlot, v: Values): SecretSlot {
    SecretSlot(Sub(s.name, v), Sub(s.mode, v), Sub(s.envName, v), Sub(s.mountPath, v), s.required)
  }

  function ResolveVolume(x: Volume, v: Values): Volume {
    Volume(x.isVolume, Sub(x.source, v), if x.refName.Some? then Some(Sub(x.refName.value, v)) else None, x.ensure)
  }

  /** Every text field of a container with its references substituted. */
  function ResolveContainer(c: Container, v: Values): Container {
    Container(Sub(c.id, v), SubAll(c.scalars, v),
              seq(|c.volumes|, i requires 0 <= i < |c.volumes| => ResolveVolume(c.volumes[i], v)),
              seq(|c.repos|, i requires 0 <= i < |c.repos| => ResolveRepo(c.repos[i], v)),
              seq(|c.secrets|, i requires 0 <= i < |c.secrets| => ResolveSecret(c.secrets[i], v)))
  }

  function ResolveContainers(cs: seq<Container>, v: Values): seq<Container> {
    seq(|cs|, i requires 0 <= i < |cs| => ResolveContainer(cs[i], v))
  }

  // ----- Inline materialisation -----

  /** A repo without a url is a slot (see TrimsToNothing for the test the code makes). */
  predicate IsSlot(r: Repo) { Blank(r.url) }

  /** The repos an inline run keeps: those with a url. */
  ghost function KeptRepos(rs: seq<Repo>): seq<Repo> {
    if rs == [] then [] else KeptRepos(rs[..|rs| - 1]) + if IsSlot(rs[|rs| - 1]) then [] else [rs[|rs| - 1]]
  }

  lemma {:induction false} KeptReposConcat(a: seq<Repo>, b: seq<Repo>)
    ensures KeptRepos(a + b) == KeptRepos(a) + KeptRepos(b)
  {
    if b == [] {
      assert a + b == a;
    } else {
      assert (a + b)[..|a + b| - 1] == a + b[..|b| - 1];
      KeptReposConcat(a, b[..|b| - 1]);
    }
  }

  /** A repo slot that must be filled. */
  predicate MustFill(r: Repo) { IsSlot(r) && r.required }

  ghost predicate AnyMustFill(rs: seq<Repo>) {
    rs != [] && (AnyMustFill(rs[..|rs| - 1]) || MustFill(rs[|rs| - 1]))
  }

  ghost predicate AnyRequired(ss: seq<SecretSlot>) {
    ss != [] && (AnyRequired(ss[..|ss| - 1]) || ss[|ss| - 1].required)
  }

  /** A container with a required slot only a Config could fill. */
  ghost predicate Blocked(c: Container) {
    AnyMustFill(c.repos) || AnyRequired(c.secrets)
  }

  ghost predicate AnyBlocked(cs: seq<Container>) {
    cs != [] && (AnyBlocked(cs[..|cs| - 1]) || Blocked(cs[|cs| - 1]))
  }

  lemma {:induction false} MustFillSomewhere(rs: seq<Repo>)
    ensures AnyMustFill(rs) <==> exists i | 0 <= i < |rs| :: MustFill(rs[i])
  {
    if rs != [] {
      MustFillSomewhere(rs[..|rs| - 1]);
    }
  }

  lemma {:induction false} RequiredSomewhere(ss: seq<SecretSlot>)
    ensures AnyRequired(ss) <==> exists i | 0 <= i < |ss| :: ss[i].required
  {
    if ss != [] {
      RequiredSomewhere(ss[..|ss| - 1]);
    }
  }

  lemma {:induction false} BlockedSomewhere(cs: seq<Container>)
    ensures AnyBlocked(cs) <==> exists i | 0 <= i < |cs| :: Blocked(cs[i])
  {
    if cs != [] {
      BlockedSomewhere(cs[..|cs| - 1]);
    }
  }

  /** materializeContainer: the runtime container and how many required slots block it. */
  method MaterializeContainer(c: Container) returns (spec: ContainerSpec, blockers: nat)
    ensures spec == InlineSpec(c)
    ensures blockers > 0 <==> Blocked(c)
  {
    blockers := 0;
    var repos := [];
    for i := 0 to |c.repos|
      invariant repos == KeptRepos(c.repos[..i])
      invariant blockers > 0 <==> AnyMustFill(c.repos[..i])
    {
      var r := c.repos[i];
      assert c.repos[..i + 1][..i] == c.repos[..i];
      TrimsToNothing(r.url);
      if TrimSpace(r.url) == "" {
        if r.required {
          blockers := blockers + 1;
        }
        continue;
      }
      repos := repos + [r];
    }
    assert c.repos[..|c.repos|] == c.repos;
    for i := 0 to |c.secrets|
      invariant blockers > 0 <==> AnyMustFill(c.repos) || AnyRequired(c.secrets[..i])
    {
      assert c.secrets[..i + 1][..i] == c.secrets[..i];
      if c.secrets[i].required {
        blockers := blockers + 1;
      }
    }
    assert c.secrets[..|c.secrets|] == c.secrets;
    spec := ContainerSpec(c.id, c.scalars, c.volumes, repos, []);
  }

  /** ${CELL_NAME} expansion of one mount, by value. */
  function StampVolume(x: Volume, name: string): Volume {
    if !x.isVolume then x
    else
      var bySource := PerCellVolumes.HasVar(x.source);
      var byRef := x.refName.Some? && PerCellVolumes.HasVar(x.refName.value);
      Volume(true, if bySource then PerCellVolumes.Expand(x.source, name) else x.source,
             if byRef then Some(PerCellVolumes.Expand(x.refName.value, name)) else x.refName,
             x.ensure || bySource || byRef)
  }

  function Stamp(c: ContainerSpec, name: string): ContainerSpec {
    c.(volumes := seq(|c.volumes|, i requires 0 <= i < |c.volumes| => StampVolume(c.volumes[i], name)))
  }

  function StampAll(cs: seq<ContainerSpec>, name: string): seq<ContainerSpec> {
    seq(|cs|, i requires 0 <= i < |cs| => Stamp(cs[i], name))
  }

  ghost function InlineSpec(c: Container): ContainerSpec {
    ContainerSpec(c.id, c.scalars, c.volumes, KeptRepos(c.repos), [])
  }

  ghost function InlineSpecs(cs: seq<Container>): seq<ContainerSpec> {
    seq(|cs|, i requires 0 <= i < |cs| => InlineSpec(cs[i]))
  }

  /** The random digits of a generated name. */
  type HexText = s: string | forall c <- s :: '0' <= c <= '9' || 'a' <= c <= 'f'

  /** Prefix, of the resolved document: spec.prefix when set, else the blueprint's name. */
  function Prefix(bp: Blueprint, v: Values): string {
    if TrimSpace(Sub(bp.prefix, v)) != "" then TrimSpace(Sub(bp.prefix, v)) else TrimSpace(Sub(bp.name, v))
  }

  /** resolveCellName: the name asked for, else a generated one; none when the random source fails. */
  function CellName(bp: Blueprint, v: Values, name: string, random: Option<HexText>): Option<string> {
    if TrimSpace(name) != "" then Some(TrimSpace(name))
    else if random.Some? then Some(TrimSpace(Prefix(bp, v)) + ['-'] + random.value)
    else None
  }

  /** A name asked for is used; otherwise one is made of the blueprint's prefix, or failing that its name, a dash and
      the random digits. */
  lemma CellNameMeans(bp: Blueprint, v: Values, name: string, random: Option<HexText>)
    ensures !Blank(name) ==> CellName(bp, v, name, random) == Some(TrimSpace(name))
    ensures Blank(name) && random.None? ==> CellName(bp, v, name, random) == None
    ensures Blank(name) && random.Some? ==>
      var from := if Blank(Sub(bp.prefix, v)) then Sub(bp.name, v) else Sub(bp.prefix, v);
      CellName(bp, v, name, random) == Some(TrimSpace(from) + "-" + random.value)
  {
    TrimsToNothing(name);
    TrimsToNothing(Sub(bp.prefix, v));
    TrimTwice(Sub(bp.prefix, v));
    TrimTwice(Sub(bp.name, v));
  }

  /** Both kinds of name come trimmed. */
  lemma CellNameIsTrimmed(bp: Blueprint, v: Values, name: string, random: Option<HexText>)
    ensures var n := CellName(bp, v, name, random); n.Some? ==> n.value != "" && TrimSpace(n.value) == n.value
  {
    TrimTwice(name);
    if TrimSpace(name) == "" && random.Some? {
      TrimLeftStarts(Prefix(bp, v));
      TrimRightEnds(TrimLeft(Prefix(bp, v)));
      GeneratedIsTrimmed(TrimSpace(Prefix(bp, v)), random.value);
    }
  }

  lemma GeneratedIsTrimmed(p: string, digits: HexText)
    requires p == "" || !IsSpace(p[0])
    ensures TrimSpace(p + ['-'] + digits) == p + ['-'] + digits
  {
    var n := p + ['-'] + digits;
    assert n[0] == if p != "" then p[0] else '-';
    assert n[|n| - 1] == if digits != "" then digits[|digits| - 1] else '-';
    assert digits != "" ==> digits[|digits| - 1] in digits;
  }

  /** The containers of a cell with the given name, or an error when a required slot is open. */
  ghost function InlineAs(bp: Blueprint, v: Values, cellName: string): Option<seq<ContainerSpec>> {
    var cs := ResolveContainers(bp.containers, v);
    if AnyBlocked(cs) then None else Some(StampAll(InlineSpecs(cs), cellName))
  }

  /** Resolve followed by MaterializeWithName: the containers, or an error. */
  ghost function Inline(bp: Blueprint, supplied: Values, env: Values, name: string, random: Option<HexText>)
    : Option<seq<ContainerSpec>>
  {
    match ValuesFor(bp, supplied, env, false)
    case None => None
    case Some(v) =>
      match CellName(bp, v, name, random)
      case None => None
      case Some(cellName) => InlineAs(bp, v, cellName)
  }

  method MaterializeInline(bp: Blueprint, supplied: Values, env: Values, name: string, random: Option<HexText>)
    returns (r: Option<seq<ContainerSpec>>)
    ensures r == Inline(bp, supplied, env, name, random)
  {
    var values := ResolveValues(bp, supplied, env, false);
    if values.None? {
      return None;
    }
    var cellName := CellName(bp, values.value, name, random);
    if cellName.None? {
      return None;
    }
    var cs := ResolveContainers(bp.containers, values.value);
    var specs, blockers := MaterializeAll(cs);
    if blockers > 0 {
      return None;
    }
    r := Some(StampAll(specs, cellName.value));
  }

  method MaterializeAll(cs: seq<Container>) returns (specs: seq<ContainerSpec>, blockers: nat)
    ensures specs == InlineSpecs(cs)
    ensures blockers > 0 <==> AnyBlocked(cs)
  {
    specs, blockers := [], 0;
    for i := 0 to |cs|
      invariant specs == InlineSpecs(cs[..i])
      invariant blockers > 0 <==> AnyBlocked(cs[..i])
    {
      var spec, n := MaterializeContainer(cs[i]);
      blockers := blockers + n;
      specs := specs + [spec];
      assert cs[..i + 1][..i] == cs[..i];
    }
    assert cs[..|cs|] == cs;
  }
}
