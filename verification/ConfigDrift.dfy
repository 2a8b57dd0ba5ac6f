/**
 Drift detection against the Config and Blueprint a cell was made from: materializeCellFromConfig
 (internal/controller/reconcile_outofsync.go:215-266) with the slot-fill gate's own errors
 (internal/cellconfig/cellconfig.go:95-119), and what that makes of the passes.
 */
module ConfigDrift {
  import opened Wrappers
  import opened Quoting
  import opened OutOfSync
  import opened Reconcile
  import Cells
  import Blueprints
  import opened Configs
  import opened ConfigCells

  /** A lineage Config: its spec, and the name of the blueprint it refers to. */
  datatype StoredConfig = StoredConfig(spec: Config, blueprint: string)

  /** A finished body, or the error of a later step. */
  datatype Built = Built(body: Cells.Body) | Failed(text: string)

  /**
   What a pass reads. A Config is read by realm, name and (space, stack) scope; refusal is the error of a blueprint
   that cannot be resolved or filled, which both are found out by walking lists in order; build stands for the steps
   after materialisation.
   */
  datatype Stores = Stores(
    config: (string, string, (string, string)) -> Reply<StoredConfig>,
    blueprint: StoredConfig -> Reply<Blueprints.Blueprint>,
    refusal: (StoredConfig, Blueprints.Blueprint) -> string,
    build: (StoredConfig, seq<Blueprints.ContainerSpec>, string, seq<string>) -> Built,
    diff: (Cells.Body, Cells.Body) -> CellDiff,
    printable: char -> bool)

  // ----- The lineage Config -----

  /** The Config a cell's lineage label names, looked up from the cell's own scope outwards. A cell without the label is
      never asked about. */
  function ConfigOf(st: Stores, b: Cells.Body): Reply<StoredConfig> {
    match Cells.Lineage(b)
    case None => NotFound
    case Some(name) => Lookup(scope => st.config(b.realm, name, scope), Probes(b.space, b.stack))
  }

  // ----- The error texts -----

  /** Which check an offence comes from. */
  function CheckOf(e: SlotError): nat {
    match e case UnknownRepo(_) => 0 case UnknownSecret(_) => 1 case UnfilledRepo(_) => 2 case UnfilledSecret(_) => 3
  }

  function CheckText(check: nat): string {
    if check == 0 then "config fills a repo slot the blueprint does not declare: repo slot "
    else if check == 1 then "config fills a secret slot the blueprint does not declare: secret slot "
    else if check == 2 then "config leaves a required blueprint slot unfilled: repo slot "
    else "config leaves a required blueprint slot unfilled: secret slot "
  }

  function SlotText(e: SlotError, printable: char -> bool): string {
    "materialize cell: " + CheckText(CheckOf(e)) + Quote(e.name, printable)
  }

  /** Texts tell the offences of one check apart. */
  ghost predicate TellsApart(text: SlotError -> string) {
    forall d, e | CheckOf(d) == CheckOf(e) && text(d) == text(e) :: d == e
  }

  lemma SlotTextTellsApart(printable: char -> bool)
    ensures TellsApart(e => SlotText(e, printable))
  {
    forall d, e | CheckOf(d) == CheckOf(e) && SlotText(d, printable) == SlotText(e, printable) ensures d == e {
      QuoteInjective("materialize cell: " + CheckText(CheckOf(d)), d.name, e.name, printable);
    }
  }

  ghost function Texts(es: set<SlotError>, text: SlotError -> string): set<string> {
    set e | e in es :: text(e)
  }

  ghost function SlotTexts(es: set<SlotError>, printable: char -> bool): set<string> {
    Texts(es, e => SlotText(e, printable))
  }

  /** materializeCellFromConfig */
  ghost function Materialise(st: Stores, c: StoredConfig, name: string, env: seq<string>): Materialized {
    match st.blueprint(c)
    case NotFound => Errors({"referenced blueprint " + Quote(c.blueprint, st.printable) + " not found"})
    case Failure(t) => Errors({"read referenced blueprint " + Quote(c.blueprint, st.printable) + ": " + t})
    case Found(bp) =>
      var offences := Offences(Offenders(c.spec, bp.containers));
      if offences != {} then Errors(SlotTexts(offences, st.printable))
      else match FromConfig(c.spec, bp, name)
        case None => Errors({"materialize cell: " + st.refusal(c, bp)})
        case Some(specs) =>
          match st.build(c, specs, name, env)
          case Built(b) => Body(b)
          case Failed(t) => Errors({t})
  }

  ghost function ConfigWorld(st: Stores): World<StoredConfig> {
    World(b => ConfigOf(st, b), (c, name, env) => Materialise(st, c, name, env), st.diff)
  }

  lemma ConfigWorldExplains(st: Stores)
    ensures Explains(ConfigWorld(st))
  {
    forall c, name, env | Materialise(st, c, name, env).Errors? ensures Materialise(st, c, name, env).texts != {} {
      match st.blueprint(c) {
        case Found(bp) =>
          var offences := Offences(Offenders(c.spec, bp.containers));
          if e :| e in offences {
            assert SlotText(e, st.printable) in SlotTexts(offences, st.printable);
          }
        case _ =>
      }
    }
  }

  /** Every cell gets a verdict. */
  lemma ConfigVerdictExists(st: Stores, b: Cells.Body) returns (v: Cells.Sync)
    ensures IsVerdict(ConfigWorld(st), b, v)
  {
    ConfigWorldExplains(st);
    v := VerdictExists(ConfigWorld(st), b);
  }

  /** A cell's lineage Config counts as deleted exactly when every enclosing scope reports it missing. */
  lemma ConfigDeletedExactly(st: Stores, b: Cells.Body, name: string, v: Cells.Sync)
    requires Cells.Lineage(b) == Some(name) && IsVerdict(ConfigWorld(st), b, v)
    ensures v == Cells.Sync(true, CONFIG_DELETED, "") <==>
            forall scope <- {(b.space, b.stack), (b.space, ""), ("", "")} :: st.config(b.realm, name, scope).NotFound?
  {
    DeletedExactly(ConfigWorld(st), b, v);
    var probes := Probes(b.space, b.stack);
    LookupMisses(scope => st.config(b.realm, name, scope), probes);
    ProbesCoverScopes(b.space, b.stack);
    assert forall scope :: scope in probes <==> scope in {(b.space, b.stack), (b.space, ""), ("", "")};
  }

  /** What a lineage Config materialises to for a cell, if it is found and nothing fails. */
  ghost predicate MakesNow(st: Stores, b: Cells.Body, made: Cells.Body) {
    && ConfigOf(st, b).Found?
    && var c := ConfigOf(st, b).value;
    && st.blueprint(c).Found?
    && var bp := st.blueprint(c).value;
    && Accepts(c.spec, bp.containers)
    && FromConfig(c.spec, bp, b.name).Some?
    && st.build(c, FromConfig(c.spec, bp, b.name).value, b.name, b.envOverrides) == Built(made)
  }

  lemma MakesMaterialise(st: Stores, b: Cells.Body, made: Cells.Body)
    requires MakesNow(st, b, made)
    ensures Materialise(st, ConfigOf(st, b).value, b.name, b.envOverrides) == Body(made)
  {
    var c := ConfigOf(st, b).value;
    AcceptedHasNoOffence(c.spec, st.blueprint(c).value.containers);
  }

  lemma AcceptedHasNoOffence(cfg: Config, cs: seq<Blueprints.Container>)
    requires Accepts(cfg, cs)
    ensures Offences(Offenders(cfg, cs)) == {}
  {
    NoOffenders(Offenders(cfg, cs));
  }

  /** A cell that is what its Config makes now is in sync on the next pass. */
  lemma RebuiltIsInSync(st: Stores, b: Cells.Body, v: Cells.Sync)
    requires MakesNow(st, b, b) && Reflexive(st.diff) && IsVerdict(ConfigWorld(st), b, v)
    ensures v == Cells.Sync(false, "", "")
  {
    MakesMaterialise(st, b, b);
    MatchingIsInSync(ConfigWorld(st), b, ConfigOf(st, b).value, v);
  }

  /** A cell is out of sync exactly when it differs from that, there is no error, and the reason spells out every path
      of the difference. */
  lemma DriftIsReported(st: Stores, b: Cells.Body, made: Cells.Body, v: Cells.Sync, path: string)
    requires MakesNow(st, b, made)
    ensures IsVerdict(ConfigWorld(st), b, v) ==>
      && (v.outOfSync <==> st.diff(made, b).hasChanges) && v.error == ""
      && (v.outOfSync && path in FieldPaths(st.diff(made, b)) ==> Contains(v.reason, path))
  {
    MakesMaterialise(st, b, made);
    var w, c := ConfigWorld(st), ConfigOf(st, b).value;
    if IsVerdict(w, b, v) {
      OutOfSyncExactly(w, b, v);
      VerdictsAreExclusive(w, b, v);
      if v.outOfSync && path in FieldPaths(st.diff(made, b)) {
        ReasonNamesPaths(w, b, c, made, v, path);
      }
    }
  }

  /** The texts a pass may persist for a rejected Config are those the gate's map ranges can report, and no others. */
  lemma TextsAreReported(st: Stores, c: StoredConfig, bp: Blueprints.Blueprint, name: string,
                         env: seq<string>, t: string)
    requires st.blueprint(c) == Found(bp) && Offences(Offenders(c.spec, bp.containers)) != {}
    ensures var keys, bad := Ranged(c.spec, bp.containers), Offenders(c.spec, bp.containers);
            t in Materialise(st, c, name, env).texts <==>
            exists o ::
              && PossibleOrders(o, keys) && Report(o, bad).Some?
              && t == SlotText(Report(o, bad).value, st.printable)
  {
    var keys, bad := Ranged(c.spec, bp.containers), Offenders(c.spec, bp.containers);
    OffendersAreRanged(c.spec, bp.containers);
    if t in SlotTexts(Offences(bad), st.printable) {
      var e :| e in Offences(bad) && t == SlotText(e, st.printable);
      var o := EveryOffenceIsReported(keys, bad, e);
    }
    if o :| PossibleOrders(o, keys) && Report(o, bad).Some? && t == SlotText(Report(o, bad).value, st.printable) {
      ReportIsAnOffence(o, keys, bad);
    }
  }

  // ----- When the text is settled -----

  /** The names the first objecting check objects to. */
  ghost function FirstOffenders(bad: Checks<set<string>>): set<string> {
    if bad.repoFills != {} then bad.repoFills
    else if bad.secretFills != {} then bad.secretFills
    else if bad.repoSlots != {} then bad.repoSlots
    else bad.secretSlots
  }

  ghost predicate AllEqual<T(!new)>(s: set<T>) { forall x, y | x in s && y in s :: x == y }

  lemma OneOrNone(s: set<string>)
    ensures |s| <= 1 <==> AllEqual(s)
  {
    if s != {} {
      var x :| x in s;
      var rest := s - {x};
      assert |rest| == |s| - 1;
      assert rest == {} <==> AllEqual(s) by {
        if rest != {} {
          var y :| y in rest;
          assert y in s && y != x;
        } else {
          assert s == {x};
        }
      }
    }
  }

  /** One check makes all the offences, so an offence is its name. */
  lemma OffencesByName(bad: Checks<set<string>>, e: SlotError, e': SlotError)
    requires e in Offences(bad) && e' in Offences(bad)
    ensures e.name in FirstOffenders(bad) && CheckOf(e) == CheckOf(e') && (e.name == e'.name ==> e == e')
  {
  }

  lemma OffenderOffends(bad: Checks<set<string>>, n: string) returns (e: SlotError)
    requires n in FirstOffenders(bad)
    ensures e in Offences(bad) && e.name == n
  {
    e := if bad.repoFills != {} then UnknownRepo(n)
    else if bad.secretFills != {} then UnknownSecret(n)
    else if bad.repoSlots != {} then UnfilledRepo(n)
    else UnfilledSecret(n);
  }

  /** One text exactly for one offender. */
  lemma TextsByOffenders(bad: Checks<set<string>>, text: SlotError -> string)
    requires TellsApart(text)
    ensures AllEqual(Texts(Offences(bad), text)) <==> AllEqual(FirstOffenders(bad))
  {
    var texts, names := Texts(Offences(bad), text), FirstOffenders(bad);
    if AllEqual(texts) {
      forall m, n | m in names && n in names ensures m == n {
        var d := OffenderOffends(bad, m);
        var e := OffenderOffends(bad, n);
        assert text(d) in texts && text(e) in texts;
        OffencesByName(bad, d, e);
      }
    }
    if AllEqual(names) {
      forall t, u | t in texts && u in texts ensures t == u {
        var d :| d in Offences(bad) && t == text(d);
        var e :| e in Offences(bad) && u == text(e);
        OffencesByName(bad, d, e);
        OffencesByName(bad, e, d);
      }
    }
  }

  /** The first objecting check of the slot-fill gate, if the pass gets there and it objects, has one offender. */
  ghost predicate AtMostOneOffender(st: Stores, b: Cells.Body) {
    match ConfigOf(st, b)
    case Found(c) =>
      (match st.blueprint(c)
       case Found(bp) => |FirstOffenders(Offenders(c.spec, bp.containers))| <= 1
       case _ => true)
    case _ => true
  }

  lemma NoOffenceNoName(bad: Checks<set<string>>)
    ensures Offences(bad) == {} <==> FirstOffenders(bad) == {}
  {
    NoOffenders(bad);
  }

  /** The texts a materialisation may report. */
  ghost function TextsOf(m: Materialized): set<string> { if m.Errors? then m.texts else {} }

  lemma MaterialisedTexts(st: Stores, c: StoredConfig, bp: Blueprints.Blueprint, name: string, env: seq<string>)
    requires st.blueprint(c) == Found(bp)
    ensures var bad := Offenders(c.spec, bp.containers);
            AllEqual(TextsOf(Materialise(st, c, name, env))) <==> AllEqual(FirstOffenders(bad))
  {
    var bad := Offenders(c.spec, bp.containers);
    NoOffenceNoName(bad);
    SlotTextTellsApart(st.printable);
    TextsByOffenders(bad, e => SlotText(e, st.printable));
  }

  lemma SettledMeans(st: Stores, b: Cells.Body)
    ensures Settled(ConfigWorld(st), b) <==>
            match ConfigOf(st, b)
            case Found(c) => AllEqual(TextsOf(Materialise(st, c, b.name, b.envOverrides)))
            case _ => true
  {
    var w := ConfigWorld(st);
    match ConfigOf(st, b) {
      case Found(c) => assert ErrorTexts(w, b) == TextsOf(Materialise(st, c, b.name, b.envOverrides));
      case _ => assert ErrorTexts(w, b) == {};
    }
  }

  lemma SettledExactly(st: Stores, b: Cells.Body)
    ensures Settled(ConfigWorld(st), b) <==> AtMostOneOffender(st, b)
  {
    SettledMeans(st, b);
    match ConfigOf(st, b) {
      case Found(c) =>
        match st.blueprint(c) {
          case Found(bp) =>
            MaterialisedTexts(st, c, bp, b.name, b.envOverrides);
            OneOrNone(FirstOffenders(Offenders(c.spec, bp.containers)));
          case _ =>
        }
      case _ =>
    }
  }

  // ----- What that makes of the passes -----

  /** Writing a verdict leaves nothing to write for the next pass exactly when the first objecting check has at most
      one offender. */
  lemma ConfigPassIsFixpoint(st: Stores, cell: Cells.Cell)
    ensures StaysWritten(ConfigWorld(st), cell) <==> AtMostOneOffender(st, cell.body)
  {
    PassIsFixpoint(ConfigWorld(st), cell);
    SettledExactly(st, cell.body);
  }

  /** So a second pass over a host without such a Config writes nothing. */
  lemma SecondConfigPassWritesNothing(st: Stores, s: Store, first: seq<Visit>, second: seq<Visit>)
    requires var w := ConfigWorld(st);
             && LawfulRun(w, s, first) && ListsStore(s, first) && KeepsDeclared(first) && Clean(first)
             && LawfulRun(w, Replay(s, first), second) && ListsStore(Replay(s, first), second) && KeepsDeclared(second)
    requires forall v <- second :: Visits(first, IdOf(v.cell.body))
    requires forall v <- first :: AtMostOneOffender(st, v.cell.body)
    ensures WritesNothing(second)
  {
    forall v | v in first ensures Settled(ConfigWorld(st), v.cell.body) {
      SettledExactly(st, v.cell.body);
    }
    SecondPassWritesNothing(ConfigWorld(st), s, first, second);
  }

  /** And a cell of a Config with two offenders in that check can be rewritten by a second pass. */
  lemma TwoOffendersAreRewritten(st: Stores, c: Cells.Cell) returns (first: seq<Visit>, second: seq<Visit>)
    requires Cells.Lineage(c.body).Some? && !AtMostOneOffender(st, c.body)
    ensures var w, s := ConfigWorld(st), map[IdOf(c.body) := c];
            && LawfulRun(w, s, first) && ListsStore(s, first) && KeepsDeclared(first) && Clean(first)
            && LawfulRun(w, Replay(s, first), second) && ListsStore(Replay(s, first), second) && KeepsDeclared(second)
            && |first| == |second| == 1 && !WritesNothing(second)
  {
    SettledExactly(st, c.body);
    first, second := UnsettledIsRewritten(ConfigWorld(st), c);
  }
}
