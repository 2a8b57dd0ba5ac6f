/**
 Uninstalling a host: every enumerated realm is purged, and the rest is only torn down once every one of them is
 gone (internal/controller/uninstall.go).
 */
module Uninstall {
  import opened Wrappers
  import opened UninstallRealms

  // ----- What is done -----

  datatype Options = Options(pidFile: string, socketDir: string, runPath: string, skipUserGroup: bool)

  datatype Effect =
    | StopDaemon | Purge(realm: Realm) | ReclaimCache(namespace: string) | RemoveCacheBase
    | ReleaseMounts(dir: string) | RemoveDir(dir: string) | RemoveUserGroup

  datatype Err =
    | StopFailed | PurgeFailed(name: string) | CacheFailed(namespace: string) | CacheBaseFailed
    | MountFailed(dir: string) | RemoveFailed(dir: string) | UserGroupFailed

  /** removed: the realm lost its containerd namespace. */
  datatype RealmAnswer = RealmAnswer(removed: bool, purgeFails: bool, cacheFails: bool)

  /** residuals: how many mount errors releasing a directory reports. */
  datatype DirAnswer = DirAnswer(residuals: nat, removeFails: bool)

  /** Everything the host gets to decide in one run; a listing that fails is None. */
  datatype Answers = Answers(
    stopFails: bool, listed: Option<seq<Realm>>, namespaces: Option<seq<string>>,
    realms: seq<RealmAnswer>, baseFails: bool, socket: DirAnswer, run: DirAnswer, userFails: bool)

  /** The effects and the recorded errors of a part of the run. */
  datatype Part = Part(effects: seq<Effect>, errors: seq<Err>)

  function Then(a: Part, b: Part): Part { Part(a.effects + b.effects, a.errors + b.errors) }

  function One(e: Effect, fails: bool, err: Err): Part { Part([e], if fails then [err] else []) }

  const Nothing := Part([], [])

  function StopPart(o: Options, fails: bool): Part {
    if o.pidFile == "" && o.socketDir == "" then Nothing else One(StopDaemon, fails, StopFailed)
  }

  function RealmPart(r: Realm, a: RealmAnswer): Part {
    Then(One(Purge(r), a.purgeFails, PurgeFailed(r.name)), CachePart(r, a))
  }

  function CachePart(r: Realm, a: RealmAnswer): Part {
    if !a.removed || r.namespace == "" then Nothing
    else One(ReclaimCache(r.namespace), a.cacheFails, CacheFailed(r.namespace))
  }

  function RealmsPart(rs: seq<Realm>, a: seq<RealmAnswer>): Part
    requires |rs| == |a|
  {
    if rs == [] then Nothing else Then(RealmsPart(rs[..|rs| - 1], a[..|rs| - 1]), RealmPart(rs[|rs| - 1], a[|rs| - 1]))
  }

  lemma ThenAssociates(a: Part, b: Part, c: Part)
    ensures Then(Then(a, b), c) == Then(a, Then(b, c))
  {
    assert (a.effects + b.effects) + c.effects == a.effects + (b.effects + c.effects);
    assert (a.errors + b.errors) + c.errors == a.errors + (b.errors + c.errors);
  }

  lemma RealmsStep(start: Part, rs: seq<Realm>, a: seq<RealmAnswer>, i: nat, x: RealmAnswer, next: Part)
    requires i < |rs| && |a| == i && next == Then(Then(start, RealmsPart(rs[..i], a)), RealmPart(rs[i], x))
    ensures next == Then(start, RealmsPart(rs[..i + 1], a + [x]))
  {
    assert rs[..i + 1][..i] == rs[..i] && (a + [x])[..i] == a;
    ThenAssociates(start, RealmsPart(rs[..i], a), RealmPart(rs[i], x));
  }

  function Copies(e: Err, n: nat): seq<Err> { seq(n, i => e) }

  function DirPart(dir: string, a: DirAnswer): Part {
    if dir == "" then Nothing
    else Part([ReleaseMounts(dir), RemoveDir(dir)],
              Copies(MountFailed(dir), a.residuals) + if a.removeFails then [RemoveFailed(dir)] else [])
  }

  function UserPart(o: Options, a: Answers): Part {
    if o.skipUserGroup then Nothing else One(RemoveUserGroup, a.userFails, UserGroupFailed)
  }

  predicate AllRemoved(a: seq<RealmAnswer>) { forall x <- a :: x.removed }

  /** What is done whether or not a realm survives. */
  function Always(o: Options, rs: seq<Realm>, a: Answers): Part
    requires |rs| == |a.realms|
  {
    Then(Then(StopPart(o, a.stopFails), RealmsPart(rs, a.realms)), One(RemoveCacheBase, a.baseFails, CacheBaseFailed))
  }

  /** What is done only once no realm holds a namespace. */
  function TearDownPart(o: Options, a: Answers): Part {
    Then(Then(DirPart(o.socketDir, a.socket), DirPart(o.runPath, a.run)), UserPart(o, a))
  }

  function Script(o: Options, rs: seq<Realm>, a: Answers): Part
    requires |rs| == |a.realms|
  {
    if AllRemoved(a.realms) then Then(Always(o, rs, a), TearDownPart(o, a)) else Always(o, rs, a)
  }

  /** The realms of the run. */
  function Enumerated(suffix: string, a: Answers): seq<Realm> { Collected(suffix, a.listed, a.namespaces) }

  /** A run for every realm of which there is an answer. */
  ghost predicate Complete(suffix: string, a: Answers) { |a.realms| == |Enumerated(suffix, a)| }

  /** The whole run, enumeration included. */
  function Run(o: Options, suffix: string, a: Answers): Part
    requires Complete(suffix, a)
  {
    Script(o, Enumerated(suffix, a), a)
  }

  // ----- What every run keeps -----

  /** How often a step is taken. */
  ghost function Times(e: Effect, es: seq<Effect>): nat { multiset(es)[e] }

  lemma {:induction false} RealmsTakeNeither(rs: seq<Realm>, a: seq<RealmAnswer>)
    requires |rs| == |a|
    ensures forall e <- RealmsPart(rs, a).effects :: e != StopDaemon && e != RemoveCacheBase
  {
    if rs != [] {
      RealmsTakeNeither(rs[..|rs| - 1], a[..|rs| - 1]);
    }
  }

  lemma TimesAround(e: Effect, a: seq<Effect>, b: seq<Effect>, c: seq<Effect>, d: seq<Effect>)
    requires e !in b && e !in d
    ensures Times(e, a + b + c + d) == Times(e, a) + Times(e, c)
  {
    assert multiset(a + b + c + d) == multiset(a) + multiset(b) + multiset(c) + multiset(d);
  }

  /** What follows the realms and the cache base. */
  ghost function Rest(o: Options, a: Answers): seq<Effect> {
    if AllRemoved(a.realms) then TearDownPart(o, a).effects else []
  }

  lemma RestTearsDown(o: Options, a: Answers)
    ensures forall e <- Rest(o, a) :: IsTearDown(e)
  {
    forall e | e in Rest(o, a) ensures IsTearDown(e) {
      TearDownIsWanted(o, a, e);
    }
  }

  lemma ScriptEffects(o: Options, rs: seq<Realm>, a: Answers)
    requires |rs| == |a.realms|
    ensures Script(o, rs, a).effects ==
            StopPart(o, a.stopFails).effects + RealmsPart(rs, a.realms).effects + [RemoveCacheBase] + Rest(o, a)
  {
  }

  lemma StopTimes(o: Options, fails: bool)
    ensures Times(StopDaemon, StopPart(o, fails).effects) == if o.pidFile != "" || o.socketDir != "" then 1 else 0
    ensures Times(RemoveCacheBase, StopPart(o, fails).effects) == 0
    ensures Times(StopDaemon, [RemoveCacheBase]) == 0 && Times(RemoveCacheBase, [RemoveCacheBase]) == 1
  {
  }

  lemma ScriptTimes(o: Options, rs: seq<Realm>, a: Answers, e: Effect)
    requires |rs| == |a.realms| && e in {StopDaemon, RemoveCacheBase}
    ensures Times(e, Script(o, rs, a).effects) ==
            Times(e, StopPart(o, a.stopFails).effects) + Times(e, [RemoveCacheBase])
  {
    ScriptEffects(o, rs, a);
    RealmsTakeNeither(rs, a.realms);
    RestTearsDown(o, a);
    TimesAround(e, StopPart(o, a.stopFails).effects, RealmsPart(rs, a.realms).effects, [RemoveCacheBase], Rest(o, a));
  }

  /** Whatever happens, the daemon is stopped once when it has a PID file to be found by, and otherwise not. */
  lemma DaemonIsStopped(o: Options, rs: seq<Realm>, a: Answers)
    requires |rs| == |a.realms|
    ensures Times(StopDaemon, Script(o, rs, a).effects) == if o.pidFile != "" || o.socketDir != "" then 1 else 0
  {
    ScriptTimes(o, rs, a, StopDaemon);
    StopTimes(o, a.stopFails);
  }

  /** And the cache base is cleared once. */
  lemma CacheBaseIsCleared(o: Options, rs: seq<Realm>, a: Answers)
    requires |rs| == |a.realms|
    ensures Times(RemoveCacheBase, Script(o, rs, a).effects) == 1
  {
    ScriptTimes(o, rs, a, RemoveCacheBase);
    StopTimes(o, a.stopFails);
  }

  predicate IsTearDown(e: Effect) { e.ReleaseMounts? || e.RemoveDir? || e.RemoveUserGroup? }

  /** The part of the teardown the options ask for. */
  predicate Wanted(o: Options, e: Effect) {
    match e
    case ReleaseMounts(dir) => dir != "" && dir in {o.socketDir, o.runPath}
    case RemoveDir(dir) => dir != "" && dir in {o.socketDir, o.runPath}
    case RemoveUserGroup => !o.skipUserGroup
    case _ => false
  }

  lemma {:induction false} RealmsTearNothingDown(rs: seq<Realm>, a: seq<RealmAnswer>)
    requires |rs| == |a|
    ensures forall e <- RealmsPart(rs, a).effects :: !IsTearDown(e)
  {
    if rs != [] {
      RealmsTearNothingDown(rs[..|rs| - 1], a[..|rs| - 1]);
    }
  }

  lemma AlwaysTearsNothingDown(o: Options, rs: seq<Realm>, a: Answers)
    requires |rs| == |a.realms|
    ensures forall e <- Always(o, rs, a).effects :: !IsTearDown(e)
  {
    RealmsTearNothingDown(rs, a.realms);
  }

  lemma TearDownIsWanted(o: Options, a: Answers, e: Effect)
    ensures e in TearDownPart(o, a).effects <==> Wanted(o, e)
  {
    assert e in TearDownPart(o, a).effects <==>
           || e in DirPart(o.socketDir, a.socket).effects
           || e in DirPart(o.runPath, a.run).effects
           || e in UserPart(o, a).effects;
  }

  /**
   The half-cleaned-host gate: directories, mounts and the system user are touched exactly when every realm
   lost its namespace.
   */
  lemma GateHolds(o: Options, rs: seq<Realm>, a: Answers, e: Effect)
    requires |rs| == |a.realms| && IsTearDown(e)
    ensures e in Script(o, rs, a).effects <==> AllRemoved(a.realms) && Wanted(o, e)
  {
    AlwaysTearsNothingDown(o, rs, a);
    TearDownIsWanted(o, a, e);
  }

  /** No mount, directory or user is touched before the last realm is purged. */
  lemma PurgesComeFirst(o: Options, rs: seq<Realm>, a: Answers, i: nat, j: nat)
    requires |rs| == |a.realms| && i < |Script(o, rs, a).effects| && j < |Script(o, rs, a).effects|
    requires Script(o, rs, a).effects[i].Purge? && IsTearDown(Script(o, rs, a).effects[j])
    ensures i < j
  {
    AlwaysTearsNothingDown(o, rs, a);
    var es, always := Script(o, rs, a).effects, Always(o, rs, a).effects;
    forall e | e in TearDownPart(o, a).effects ensures !e.Purge? {
      TearDownIsWanted(o, a, e);
    }
    assert es[..|always|] == always && (es[|always|..] == [] || es[|always|..] == TearDownPart(o, a).effects);
    assert i < |always| <= j;
  }

  /** The realms an effect sequence purges, in order. */
  function Purged(es: seq<Effect>): seq<Realm> {
    if es == [] then []
    else Purged(es[..|es| - 1]) + if es[|es| - 1].Purge? then [es[|es| - 1].realm] else []
  }

  /** The namespaces whose build cache is reclaimed, in order. */
  function Reclaimed(es: seq<Effect>): seq<string> {
    if es == [] then []
    else Reclaimed(es[..|es| - 1]) + if es[|es| - 1].ReclaimCache? then [es[|es| - 1].namespace] else []
  }

  lemma {:induction false} Distributes(a: seq<Effect>, b: seq<Effect>)
    ensures Purged(a + b) == Purged(a) + Purged(b) && Reclaimed(a + b) == Reclaimed(a) + Reclaimed(b)
  {
    if b == [] {
      assert a + b == a;
    } else {
      var n := |b| - 1;
      assert (a + b)[..|a + b| - 1] == a + b[..n];
      Distributes(a, b[..n]);
    }
  }

  /** The namespaces that were removed and have a name, in the order of their realms. */
  function Lost(rs: seq<Realm>, a: seq<RealmAnswer>): seq<string>
    requires |rs| == |a|
  {
    if rs == [] then []
    else Lost(rs[..|rs| - 1], a[..|rs| - 1])
         + if a[|rs| - 1].removed && rs[|rs| - 1].namespace != "" then [rs[|rs| - 1].namespace] else []
  }

  lemma OneRealm(r: Realm, a: RealmAnswer)
    ensures Purged(RealmPart(r, a).effects) == [r]
    ensures Reclaimed(RealmPart(r, a).effects) == if a.removed && r.namespace != "" then [r.namespace] else []
  {
    var first := One(Purge(r), a.purgeFails, PurgeFailed(r.name)).effects;
    assert first == [] + [Purge(r)];
    Distributes(first, RealmPart(r, a).effects[1..]);
    assert RealmPart(r, a).effects == first + RealmPart(r, a).effects[1..];
  }

  lemma LastRealm(rs: seq<Realm>, a: seq<RealmAnswer>, n: nat) returns (front: seq<Effect>, last: seq<Effect>)
    requires |rs| == |a| == n + 1
    ensures RealmsPart(rs, a).effects == front + last && front == RealmsPart(rs[..n], a[..n]).effects
    ensures Purged(last) == [rs[n]] && Lost(rs, a) == Lost(rs[..n], a[..n]) + Reclaimed(last)
  {
    front, last := RealmsPart(rs[..n], a[..n]).effects, RealmPart(rs[n], a[n]).effects;
    OneRealm(rs[n], a[n]);
  }

  lemma Glue(front: seq<Effect>, last: seq<Effect>, rs: seq<Realm>, lost: seq<string>, r: Realm)
    requires Purged(front) == rs && Reclaimed(front) == lost && Purged(last) == [r]
    ensures Purged(front + last) == rs + [r] && Reclaimed(front + last) == lost + Reclaimed(last)
  {
    Distributes(front, last);
  }

  lemma InOrderStep(rs: seq<Realm>, a: seq<RealmAnswer>, n: nat)
    requires |rs| == |a| == n + 1
    requires Purged(RealmsPart(rs[..n], a[..n]).effects) == rs[..n]
    requires Reclaimed(RealmsPart(rs[..n], a[..n]).effects) == Lost(rs[..n], a[..n])
    ensures Purged(RealmsPart(rs, a).effects) == rs && Reclaimed(RealmsPart(rs, a).effects) == Lost(rs, a)
  {
    var front, last := LastRealm(rs, a, n);
    Glue(front, last, rs[..n], Lost(rs[..n], a[..n]), rs[n]);
    assert rs == rs[..n] + [rs[n]];
  }

  lemma {:induction false} RealmsInOrder(rs: seq<Realm>, a: seq<RealmAnswer>)
    requires |rs| == |a|
    ensures Purged(RealmsPart(rs, a).effects) == rs && Reclaimed(RealmsPart(rs, a).effects) == Lost(rs, a)
    decreases |rs|
  {
    if rs != [] {
      var n := |rs| - 1;
      RealmsInOrder(rs[..n], a[..n]);
      InOrderStep(rs, a, n);
    }
  }

  lemma {:induction false} Neither(es: seq<Effect>)
    requires forall e <- es :: !e.Purge? && !e.ReclaimCache?
    ensures Purged(es) == [] && Reclaimed(es) == []
  {
    if es != [] {
      Neither(es[..|es| - 1]);
    }
  }

  lemma Between(before: seq<Effect>, es: seq<Effect>, after: seq<Effect>)
    requires forall e <- before + after :: !e.Purge? && !e.ReclaimCache?
    ensures Purged(before + es + after) == Purged(es) && Reclaimed(before + es + after) == Reclaimed(es)
  {
    forall e | e in before || e in after ensures !e.Purge? && !e.ReclaimCache? {
      assert e in before + after;
    }
    Neither(before);
    Neither(after);
    Distributes(before, es);
    Distributes(before + es, after);
  }

  /**
   Whatever fails on the way, every realm is purged once and in order, and the caches reclaimed are exactly those
   of the namespaces that went away.
   */
  lemma EveryRealmPurged(o: Options, rs: seq<Realm>, a: Answers)
    requires |rs| == |a.realms|
    ensures Purged(Script(o, rs, a).effects) == rs
    ensures Reclaimed(Script(o, rs, a).effects) == Lost(rs, a.realms)
  {
    var before, es, after := Around(o, rs, a);
    Between(before, es, after);
    RealmsInOrder(rs, a.realms);
  }

  lemma Around(o: Options, rs: seq<Realm>, a: Answers)
    returns (before: seq<Effect>, es: seq<Effect>, after: seq<Effect>)
    requires |rs| == |a.realms|
    ensures Script(o, rs, a).effects == before + es + after && es == RealmsPart(rs, a.realms).effects
    ensures forall e <- before + after :: !e.Purge? && !e.ReclaimCache?
  {
    before, es := StopPart(o, a.stopFails).effects, RealmsPart(rs, a.realms).effects;
    after := AfterRealms(o, a);
    AlwaysEffects(o, rs, a);
    Regroup(before + es, RemoveCacheBase, if AllRemoved(a.realms) then TearDownPart(o, a).effects else []);
  }

  lemma Regroup(before: seq<Effect>, e: Effect, after: seq<Effect>)
    ensures before + [e] + after == before + ([e] + after)
  {
  }

  lemma AlwaysEffects(o: Options, rs: seq<Realm>, a: Answers)
    requires |rs| == |a.realms|
    ensures Always(o, rs, a).effects ==
            StopPart(o, a.stopFails).effects + RealmsPart(rs, a.realms).effects + [RemoveCacheBase]
  {
  }

  lemma AfterRealms(o: Options, a: Answers) returns (after: seq<Effect>)
    ensures after == [RemoveCacheBase] + if AllRemoved(a.realms) then TearDownPart(o, a).effects else []
    ensures forall e <- after :: !e.Purge? && !e.ReclaimCache?
  {
    var rest := if AllRemoved(a.realms) then TearDownPart(o, a).effects else [];
    forall e | e in rest ensures !e.Purge? && !e.ReclaimCache? {
      TearDownIsWanted(o, a, e);
    }
    after := [RemoveCacheBase] + rest;
  }

  /** Whether a realm's purge and the reclaiming of its cache went well. */
  predicate RealmWell(r: Realm, a: RealmAnswer) {
    !a.purgeFails && (a.removed && r.namespace != "" ==> !a.cacheFails)
  }

  predicate DirWell(dir: string, a: DirAnswer) { dir == "" || (a.residuals == 0 && !a.removeFails) }

  lemma {:induction false} RealmErrors(rs: seq<Realm>, a: seq<RealmAnswer>)
    requires |rs| == |a|
    ensures RealmsPart(rs, a).errors == [] <==> forall i | 0 <= i < |rs| :: RealmWell(rs[i], a[i])
  {
    if rs != [] {
      var n := |rs| - 1;
      RealmErrors(rs[..n], a[..n]);
      LastErrors(rs, a, n);
      assert forall i | 0 <= i < n :: rs[..n][i] == rs[i] && a[..n][i] == a[i];
    }
  }

  lemma LastErrors(rs: seq<Realm>, a: seq<RealmAnswer>, n: nat)
    requires |rs| == |a| == n + 1
    ensures RealmsPart(rs, a).errors == [] <==> RealmsPart(rs[..n], a[..n]).errors == [] && RealmWell(rs[n], a[n])
  {
    assert RealmPart(rs[n], a[n]).errors == [] <==> RealmWell(rs[n], a[n]);
  }

  lemma StepsSucceed(o: Options, rs: seq<Realm>, a: Answers)
    requires |rs| == |a.realms|
    ensures Script(o, rs, a).errors == [] <==>
            && (o.pidFile != "" || o.socketDir != "" ==> !a.stopFails)
            && (forall i | 0 <= i < |rs| :: RealmWell(rs[i], a.realms[i]))
            && !a.baseFails
            && (AllRemoved(a.realms) ==>
                  DirWell(o.socketDir, a.socket) && DirWell(o.runPath, a.run) && (o.skipUserGroup || !a.userFails))
  {
    RealmErrors(rs, a.realms);
    assert DirPart(o.socketDir, a.socket).errors == [] <==> DirWell(o.socketDir, a.socket);
    assert DirPart(o.runPath, a.run).errors == [] <==> DirWell(o.runPath, a.run);
    assert TearDownPart(o, a).errors == [] <==>
           && DirPart(o.socketDir, a.socket).errors == [] && DirPart(o.runPath, a.run).errors == []
           && UserPart(o, a).errors == [];
  }

  /** Every step the run took went well; a step it skipped does not matter, and neither does either listing. */
  ghost predicate WentWell(o: Options, suffix: string, a: Answers)
    requires Complete(suffix, a)
  {
    && (o.pidFile != "" || o.socketDir != "" ==> !a.stopFails)
    && (forall i | 0 <= i < |a.realms| :: RealmWell(Enumerated(suffix, a)[i], a.realms[i]))
    && !a.baseFails
    && (AllRemoved(a.realms) ==>
          DirWell(o.socketDir, a.socket) && DirWell(o.runPath, a.run) && (o.skipUserGroup || !a.userFails))
  }

  lemma SucceedsExactly(o: Options, suffix: string, a: Answers)
    requires Complete(suffix, a)
    ensures Run(o, suffix, a).errors == [] <==> WentWell(o, suffix, a)
  {
    StepsSucceed(o, Enumerated(suffix, a), a);
  }

  /** Both listings fail and everything else goes well. */
  const ListingsFail := Answers(
    false, None, None, [RealmAnswer(true, false, false), RealmAnswer(true, false, false)], false,
    DirAnswer(0, false), DirAnswer(0, false), false)

  lemma ListingsFailEnumerates(suffix: string)
    ensures Enumerated(suffix, ListingsFail) == WellKnown(suffix) && Complete(suffix, ListingsFail)
  {
    OnlyWellKnown(suffix);
  }

  lemma ListingsFailGoesWell(o: Options, suffix: string)
    requires Complete(suffix, ListingsFail)
    ensures WentWell(o, suffix, ListingsFail) && AllRemoved(ListingsFail.realms)
  {
  }

  /** A run whose listings both fail: it purges the well-known realms, tears the host down and reports no error. */
  lemma FailedListingIsNotReported(o: Options, suffix: string)
    ensures Complete(suffix, ListingsFail)
    ensures var run := Run(o, suffix, ListingsFail);
            && run.errors == [] && Purged(run.effects) == WellKnown(suffix)
            && (o.runPath != "" ==> RemoveDir(o.runPath) in run.effects)
  {
    ListingsFailEnumerates(suffix);
    ListingsFailGoesWell(o, suffix);
    SucceedsExactly(o, suffix, ListingsFail);
    EveryRealmPurged(o, Enumerated(suffix, ListingsFail), ListingsFail);
    GateHolds(o, Enumerated(suffix, ListingsFail), ListingsFail, RemoveDir(o.runPath));
  }

  lemma OnlyWellKnown(suffix: string)
    ensures Collected(suffix, None, None) == WellKnown(suffix)
  {
    var w := WellKnown(suffix);
    assert w[..2] == w && w[..1][..0] == [] && Merged([], []) == [];
    assert w[..1] == [w[0]] && DEFAULT_REALM[0] != SYSTEM_REALM[0];
    assert Merged([], w[..1]) == [w[0]];
    assert Merged([], w) == [w[0], w[1]];
  }

  /**
   The daemon is stopped before anything else, a cache goes right after the purge that freed its namespace, and a
   directory right after its mounts were released.
   */
  ghost predicate InSequence(es: seq<Effect>) {
    forall i | 0 <= i < |es| :: Timely(es, i)
  }

  predicate Timely(es: seq<Effect>, i: nat)
    requires i < |es|
  {
    match es[i]
    case StopDaemon => i == 0
    case ReclaimCache(ns) => i > 0 && es[i - 1].Purge? && es[i - 1].realm.namespace == ns
    case RemoveDir(dir) => i > 0 && es[i - 1] == ReleaseMounts(dir)
    case _ => true
  }

  lemma InSequenceConcat(a: seq<Effect>, b: seq<Effect>)
    requires InSequence(a) && InSequence(b) && forall e <- b :: !e.StopDaemon?
    ensures InSequence(a + b)
  {
    var es := a + b;
    forall i: nat | i < |es| ensures Timely(es, i) {
      if i < |a| {
        assert Timely(a, i);
      } else {
        assert Timely(b, i - |a|) && b[i - |a|] in b;
      }
    }
  }

  lemma {:induction false} RealmsInSequence(rs: seq<Realm>, a: seq<RealmAnswer>)
    requires |rs| == |a|
    ensures InSequence(RealmsPart(rs, a).effects) && forall e <- RealmsPart(rs, a).effects :: !e.StopDaemon?
  {
    if rs != [] {
      var n := |rs| - 1;
      RealmsInSequence(rs[..n], a[..n]);
      InSequenceConcat(RealmsPart(rs[..n], a[..n]).effects, RealmPart(rs[n], a[n]).effects);
    }
  }

  lemma TearDownInSequence(o: Options, a: Answers)
    ensures InSequence(TearDownPart(o, a).effects) && forall e <- TearDownPart(o, a).effects :: !e.StopDaemon?
  {
    var socket, run := DirPart(o.socketDir, a.socket).effects, DirPart(o.runPath, a.run).effects;
    InSequenceConcat(socket, run);
    InSequenceConcat(socket + run, UserPart(o, a).effects);
  }

  lemma StepsAreInSequence(o: Options, rs: seq<Realm>, a: Answers)
    requires |rs| == |a.realms|
    ensures InSequence(Script(o, rs, a).effects)
  {
    var stop, realms := StopPart(o, a.stopFails).effects, RealmsPart(rs, a.realms).effects;
    AlwaysEffects(o, rs, a);
    RealmsInSequence(rs, a.realms);
    InSequenceConcat(stop, realms);
    InSequenceConcat(stop + realms, [RemoveCacheBase]);
    TearDownInSequence(o, a);
    InSequenceConcat(Always(o, rs, a).effects, TearDownPart(o, a).effects);
  }

  /** The step an error belongs to. */
  predicate Owns(e: Effect, err: Err) {
    match err
    case StopFailed => e == StopDaemon
    case PurgeFailed(name) => e.Purge? && e.realm.name == name
    case CacheFailed(ns) => e == ReclaimCache(ns)
    case CacheBaseFailed => e == RemoveCacheBase
    case MountFailed(dir) => e == ReleaseMounts(dir)
    case RemoveFailed(dir) => e == RemoveDir(dir)
    case UserGroupFailed => e == RemoveUserGroup
  }

  ghost predicate Owned(p: Part) {
    forall err <- p.errors :: exists e <- p.effects :: Owns(e, err)
  }

  lemma OwnedThen(a: Part, b: Part)
    requires Owned(a) && Owned(b)
    ensures Owned(Then(a, b))
  {
    var p := Then(a, b);
    forall err | err in p.errors ensures exists e <- p.effects :: Owns(e, err) {
      if err in a.errors {
        var e :| e in a.effects && Owns(e, err);
        assert e in p.effects;
      } else {
        var e :| e in b.effects && Owns(e, err);
        assert e in p.effects;
      }
    }
  }

  lemma OwnedOne(e: Effect, fails: bool, err: Err)
    requires Owns(e, err)
    ensures Owned(One(e, fails, err))
  {
    assert e in [e];
  }

  lemma OwnedDir(dir: string, a: DirAnswer)
    ensures Owned(DirPart(dir, a))
  {
    if dir != "" {
      var p := DirPart(dir, a);
      assert p.effects[0] in p.effects && p.effects[1] in p.effects;
      assert forall err <- p.errors :: err == MountFailed(dir) || err == RemoveFailed(dir);
    }
  }

  lemma {:induction false} OwnedRealms(rs: seq<Realm>, a: seq<RealmAnswer>)
    requires |rs| == |a|
    ensures Owned(RealmsPart(rs, a))
  {
    if rs != [] {
      var n := |rs| - 1;
      var r, x := rs[n], a[n];
      OwnedRealms(rs[..n], a[..n]);
      OwnedOne(Purge(r), x.purgeFails, PurgeFailed(r.name));
      OwnedOne(ReclaimCache(r.namespace), x.cacheFails, CacheFailed(r.namespace));
      OwnedThen(One(Purge(r), x.purgeFails, PurgeFailed(r.name)), CachePart(r, x));
      OwnedThen(RealmsPart(rs[..n], a[..n]), RealmPart(r, x));
    }
  }

  /** Every error reported belongs to a step that was taken. */
  lemma ErrorsHaveSteps(o: Options, rs: seq<Realm>, a: Answers)
    requires |rs| == |a.realms|
    ensures Owned(Script(o, rs, a))
  {
    OwnedOne(StopDaemon, a.stopFails, StopFailed);
    OwnedRealms(rs, a.realms);
    OwnedThen(StopPart(o, a.stopFails), RealmsPart(rs, a.realms));
    OwnedOne(RemoveCacheBase, a.baseFails, CacheBaseFailed);
    OwnedThen(Then(StopPart(o, a.stopFails), RealmsPart(rs, a.realms)),
              One(RemoveCacheBase, a.baseFails, CacheBaseFailed));
    OwnedTearDown(o, a);
    OwnedThen(Always(o, rs, a), TearDownPart(o, a));
  }

  lemma OwnedTearDown(o: Options, a: Answers)
    ensures Owned(TearDownPart(o, a))
  {
    OwnedDir(o.socketDir, a.socket);
    OwnedDir(o.runPath, a.run);
    OwnedOne(RemoveUserGroup, a.userFails, UserGroupFailed);
    OwnedThen(DirPart(o.socketDir, a.socket), DirPart(o.runPath, a.run));
    OwnedThen(Then(DirPart(o.socketDir, a.socket), DirPart(o.runPath, a.run)), UserPart(o, a));
  }

  lemma AllRemovedStep(a: seq<RealmAnswer>, i: nat)
    requires i < |a|
    ensures a[..i + 1] == a[..i] + [a[i]] && AllRemoved(a[..i + 1]) == (AllRemoved(a[..i]) && a[i].removed)
  {
    assert a[..i + 1] == a[..i] + [a[i]];
  }

  class Host {
    ghost var done: Part
    var firstErr: Option<Err>

    ghost predicate Valid()
      reads this
    {
      firstErr == if done.errors == [] then None else Some(done.errors[0])
    }

    constructor ()
      ensures Valid() && done == Nothing
    {
      done := Nothing;
      firstErr := None;
    }

    /** Performs an effect that may fail, recording the error if it is the first. */
    method Try(e: Effect, err: Err, fails: bool)
      requires Valid()
      modifies this
      ensures Valid() && done == Then(old(done), One(e, fails, err))
    {
      done := Then(done, One(e, fails, err));
      if fails && firstErr.None? {
        firstErr := Some(err);
      }
    }

    /** releaseAndRecord: one record per mount that could not be released. */
    method Release(dir: string, residuals: nat)
      requires Valid()
      modifies this
      ensures Valid() && done == Then(old(done), Part([ReleaseMounts(dir)], Copies(MountFailed(dir), residuals)))
    {
      done := Part(done.effects + [ReleaseMounts(dir)], done.errors);
      var n := 0;
      while n < residuals
        invariant n <= residuals && Valid()
        invariant done == Then(old(done), Part([ReleaseMounts(dir)], Copies(MountFailed(dir), n)))
      {
        assert Copies(MountFailed(dir), n + 1) == Copies(MountFailed(dir), n) + [MountFailed(dir)];
        done := done.(errors := done.errors + [MountFailed(dir)]);
        if firstErr.None? {
          firstErr := Some(MountFailed(dir));
        }
        n := n + 1;
      }
    }

    method TearDownDir(dir: string, a: DirAnswer)
      requires Valid()
      modifies this
      ensures Valid() && done == Then(old(done), DirPart(dir, a))
    {
      if dir != "" {
        Release(dir, a.residuals);
        Try(RemoveDir(dir), RemoveFailed(dir), a.removeFails);
      }
    }

    /** PurgeRealm with force and cascade, and the cache directory that goes with the namespace. */
    method PurgeOne(r: Realm, a: RealmAnswer)
      requires Valid()
      modifies this
      ensures Valid() && done == Then(old(done), RealmPart(r, a))
    {
      Try(Purge(r), PurgeFailed(r.name), a.purgeFails);
      if a.removed && r.namespace != "" {
        Try(ReclaimCache(r.namespace), CacheFailed(r.namespace), a.cacheFails);
      }
    }

    /** The loop over the realms; the result says whether every one of them lost its namespace. */
    method PurgeAll(realms: seq<Realm>, a: seq<RealmAnswer>) returns (allRemoved: bool)
      requires Valid() && |a| == |realms|
      modifies this
      ensures Valid() && done == Then(old(done), RealmsPart(realms, a)) && allRemoved == AllRemoved(a)
    {
      allRemoved := true;
      for i := 0 to |realms|
        invariant Valid()
        invariant done == Then(old(done), RealmsPart(realms[..i], a[..i]))
        invariant allRemoved == AllRemoved(a[..i])
      {
        PurgeOne(realms[i], a[i]);
        RealmsStep(old(done), realms, a[..i], i, a[i], done);
        AllRemovedStep(a, i);
        if !a[i].removed {
          allRemoved := false;
        }
      }
      assert realms[..|realms|] == realms && a[..|a|] == a;
    }

    /** What is left to remove once no realm holds a namespace. */
    method TearDown(o: Options, a: Answers)
      requires Valid()
      modifies this
      ensures Valid() && done == Then(old(done), TearDownPart(o, a))
    {
      TearDownDir(o.socketDir, a.socket);
      TearDownDir(o.runPath, a.run);
      ThenAssociates(old(done), DirPart(o.socketDir, a.socket), DirPart(o.runPath, a.run));
      ghost var dirs := Then(DirPart(o.socketDir, a.socket), DirPart(o.runPath, a.run));
      if !o.skipUserGroup {
        Try(RemoveUserGroup, UserGroupFailed, a.userFails);
      }
      ThenAssociates(old(done), dirs, UserPart(o, a));
    }

    /** Step 0: the daemon is stopped when a PID file is known. */
    method Stop(o: Options, fails: bool)
      requires Valid() && done == Nothing
      modifies this
      ensures Valid() && done == StopPart(o, fails)
    {
      if o.pidFile != "" || o.socketDir != "" {
        Try(StopDaemon, StopFailed, fails);
      }
    }

    /** Stopping the daemon, purging the realms and the cache base. */
    method Clear(o: Options, suffix: string, a: Answers) returns (allRemoved: bool)
      requires Valid() && done == Nothing && Complete(suffix, a)
      modifies this
      ensures Valid() && done == Always(o, Enumerated(suffix, a), a) && allRemoved == AllRemoved(a.realms)
    {
      Stop(o, a.stopFails);
      var realms := CollectRealms(a.listed, a.namespaces, suffix);
      allRemoved := PurgeAll(realms, a.realms);
      Try(RemoveCacheBase, CacheBaseFailed, a.baseFails);
    }

    /** Uninstall: returns the first error recorded. */
    method Uninstall(o: Options, suffix: string, a: Answers) returns (err: Option<Err>)
      requires Valid() && done == Nothing && Complete(suffix, a)
      modifies this
      ensures done == Run(o, suffix, a)
      ensures err == if done.errors == [] then None else Some(done.errors[0])
    {
      var allRemoved := Clear(o, suffix, a);
      if allRemoved {
        TearDown(o, a);
      }
      err := firstErr;
    }
  }
}
