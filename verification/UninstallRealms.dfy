/**
 Which realms an uninstall purges (internal/controller/uninstall.go:445-523).
 */
module UninstallRealms {
  import opened Wrappers
  import opened Order
  import opened Namespaces

  datatype Realm = Realm(name: string, namespace: string)

  const DEFAULT_REALM := "default"
  const SYSTEM_REALM := "kuke-system"

  ghost predicate UniqueNames(rs: seq<Realm>) {
    forall i, j | 0 <= i < j < |rs| :: rs[i].name != rs[j].name
  }

  ghost function Names(rs: seq<Realm>): set<string> {
    set r | r in rs :: r.name
  }

  /** The realm a containerd namespace stands for. */
  function RealmOf(suffix: string, ns: string): Option<Realm> {
    if IsKukeon(suffix, ns) then Some(Realm(RealmFrom(suffix, ns), ns)) else None
  }

  /** out holds the realms of some namespaces, and no others. */
  ghost predicate AreRealmsOf(out: seq<Realm>, suffix: string, nss: seq<string>) {
    && (forall ns <- nss :: RealmOf(suffix, ns).Some? ==> RealmOf(suffix, ns).value in out)
    && (forall r <- out :: r.namespace in nss && RealmOf(suffix, r.namespace) == Some(r))
  }

  ghost predicate ByNamespace(out: seq<Realm>) {
    forall i, j | 0 <= i < j < |out| :: StringLe(out[i].namespace, out[j].namespace)
  }

  /** The realms of some namespaces, in their order. */
  function RealmsOf(suffix: string, nss: seq<string>): seq<Realm> {
    if nss == [] then []
    else
      var r := RealmOf(suffix, nss[|nss| - 1]);
      RealmsOf(suffix, nss[..|nss| - 1]) + if r.Some? then [r.value] else []
  }

  lemma NextRealm(out: seq<Realm>, suffix: string, nss: seq<string>, ns: string)
    requires AreRealmsOf(out, suffix, nss) && ByNamespace(out) && forall n <- nss :: StringLe(n, ns)
    ensures match RealmOf(suffix, ns)
            case Some(r) => AreRealmsOf(out + [r], suffix, nss + [ns]) && ByNamespace(out + [r])
            case None => AreRealmsOf(out, suffix, nss + [ns])
  {
  }

  lemma NextOf(suffix: string, nss: seq<string>, ns: string)
    ensures RealmsOf(suffix, nss + [ns]) ==
            RealmsOf(suffix, nss) + match RealmOf(suffix, ns) case Some(r) => [r] case None => []
  {
    assert (nss + [ns])[..|nss|] == nss;
  }

  lemma {:induction false} RealmsOfMeaning(suffix: string, nss: seq<string>)
    requires Sorted(StringLe, nss)
    ensures AreRealmsOf(RealmsOf(suffix, nss), suffix, nss) && ByNamespace(RealmsOf(suffix, nss))
  {
    if nss != [] {
      var init, ns := nss[..|nss| - 1], nss[|nss| - 1];
      assert nss == init + [ns] && forall n <- init :: StringLe(n, ns);
      RealmsOfMeaning(suffix, init);
      NextRealm(RealmsOf(suffix, init), suffix, init, ns);
    }
  }

  /** realmsFromContainerdNamespaces: the realms whose namespaces carry the suffix, by namespace order. */
  method RealmsFromNamespaces(namespaces: seq<string>, suffix: string) returns (out: seq<Realm>)
    ensures out == RealmsOf(suffix, InOrder(namespaces))
    ensures AreRealmsOf(out, suffix, namespaces) && ByNamespace(out)
  {
    var sorted := InOrder(namespaces);
    RealmsOfMeaning(suffix, sorted);
    out := [];
    for i := 0 to |sorted|
      invariant out == RealmsOf(suffix, sorted[..i])
    {
      var ns := sorted[i];
      assert sorted[..i + 1] == sorted[..i] + [ns];
      NextOf(suffix, sorted[..i], ns);
      if !IsKukeon(suffix, ns) {
        continue;
      }
      var name := RealmFrom(suffix, ns);
      if name == "" {
        continue;
      }
      out := out + [Realm(name, ns)];
    }
    assert sorted[..|sorted|] == sorted;
  }

  /** sort.Strings */
  function InOrder(names: seq<string>): (sorted: seq<string>)
    ensures Sorted(StringLe, sorted) && forall n :: n in sorted <==> n in names
  {
    StringOrder();
    var sorted := Sort(StringLe, names);
    SameNames(names, sorted);
    sorted
  }

  lemma SameNames(a: seq<string>, b: seq<string>)
    requires multiset(a) == multiset(b)
    ensures forall n :: n in b <==> n in a
  {
    forall n ensures n in b <==> n in a {
      assert n in multiset(b) <==> n in multiset(a);
    }
  }

  /** The realms with those appended whose names are new. */
  function Merged(out: seq<Realm>, extra: seq<Realm>): seq<Realm> {
    if extra == [] then out
    else
      var n := |extra| - 1;
      var before := Merged(out, extra[..n]);
      if exists r <- before :: r.name == extra[n].name then before else before + [extra[n]]
  }

  /** Nothing is lost or doubled, and nothing comes from elsewhere. */
  lemma {:induction false} MergedMeaning(out: seq<Realm>, extra: seq<Realm>)
    ensures var r := Merged(out, extra);
            && out <= r
            && Names(r) == Names(out) + Names(extra)
            && (UniqueNames(out) ==> UniqueNames(r))
            && (forall x <- r[|out|..] :: x in extra && x.name !in Names(out))
  {
    if extra != [] {
      var n := |extra| - 1;
      MergedMeaning(out, extra[..n]);
      assert extra == extra[..n] + [extra[n]];
      NewName(Merged(out, extra[..n]), extra[n]);
    }
  }

  lemma NewName(before: seq<Realm>, r: Realm)
    ensures Names(before + [r]) == Names(before) + {r.name}
    ensures (exists x <- before :: x.name == r.name) <==> r.name in Names(before)
    ensures r.name !in Names(before) && UniqueNames(before) ==> UniqueNames(before + [r])
  {
    forall i | 0 <= i < |before| ensures before[i].name in Names(before) {
      assert before[i] in before;
    }
  }

  /** Appends the realms whose names are new. */
  method AddNew(out: seq<Realm>, extra: seq<Realm>) returns (r: seq<Realm>)
    ensures r == Merged(out, extra)
  {
    r := out;
    var seen := set x | x in out :: x.name;
    for i := 0 to |extra|
      invariant r == Merged(out, extra[..i]) && seen == Names(r)
    {
      assert extra[..i + 1][..i] == extra[..i];
      NewName(r, extra[i]);
      if extra[i].name in seen {
        continue;
      }
      seen := seen + {extra[i].name};
      r := r + [extra[i]];
    }
    assert extra[..|extra|] == extra;
  }

  function WellKnown(suffix: string): seq<Realm> {
    [Realm(DEFAULT_REALM, RealmNamespace(suffix, DEFAULT_REALM)),
     Realm(SYSTEM_REALM, RealmNamespace(suffix, SYSTEM_REALM))]
  }

  /** What is enumerated from a listing of the realms and one of the namespaces, either of which may have failed. */
  function Collected(suffix: string, listed: Option<seq<Realm>>, namespaces: Option<seq<string>>): seq<Realm> {
    var known := if listed.Some? then listed.value else [];
    var found := if namespaces.Some? then RealmsOf(suffix, InOrder(namespaces.value)) else [];
    Merged(Merged(known, found), WellKnown(suffix))
  }

  /** collectRealmsForUninstall: listed realms first, then those known only by namespace, then the well-known two. */
  method CollectRealms(listed: Option<seq<Realm>>, namespaces: Option<seq<string>>, suffix: string)
    returns (out: seq<Realm>)
    ensures out == Collected(suffix, listed, namespaces)
    ensures Covers(out, suffix, if listed.Some? then listed.value else [],
                   if namespaces.Some? then namespaces.value else [])
  {
    var known, nss := if listed.Some? then listed.value else [], [];
    var found := [];
    if namespaces.Some? {
      nss := namespaces.value;
      found := RealmsFromNamespaces(nss, suffix);
    }
    var some := AddNew(known, found);
    out := AddNew(some, WellKnown(suffix));
    MergedMeaning(known, found);
    MergedMeaning(some, WellKnown(suffix));
    CoversAll(known, nss, suffix, found, some, out);
  }

  /**
   The enumerated realms start with those listed, have unique names if those do, cover every kukeon namespace and the
   well-known two, and hold nothing else.
   */
  ghost predicate Covers(out: seq<Realm>, suffix: string, known: seq<Realm>, nss: seq<string>) {
    && known <= out
    && (UniqueNames(known) ==> UniqueNames(out))
    && DEFAULT_REALM in Names(out) && SYSTEM_REALM in Names(out)
    && (forall ns <- nss :: IsKukeon(suffix, ns) ==> RealmFrom(suffix, ns) in Names(out))
    && (forall r <- out[|known|..] ::
          || (r.namespace in nss && RealmOf(suffix, r.namespace) == Some(r))
          || (r.name in {DEFAULT_REALM, SYSTEM_REALM} && r.namespace == RealmNamespace(suffix, r.name)))
  }

  lemma CoversAll(known: seq<Realm>, nss: seq<string>, suffix: string,
                  found: seq<Realm>, some: seq<Realm>, out: seq<Realm>)
    requires AreRealmsOf(found, suffix, nss)
    requires known <= some && Names(some) == Names(known) + Names(found) && (UniqueNames(known) ==> UniqueNames(some))
    requires forall x <- some[|known|..] :: x in found
    requires some <= out && Names(out) == Names(some) + Names(WellKnown(suffix))
    requires (UniqueNames(some) ==> UniqueNames(out))
    requires forall x <- out[|some|..] :: x in WellKnown(suffix)
    ensures Covers(out, suffix, known, nss)
  {
    assert WellKnown(suffix)[0] in WellKnown(suffix) && WellKnown(suffix)[1] in WellKnown(suffix);
    forall ns | ns in nss && IsKukeon(suffix, ns) ensures RealmFrom(suffix, ns) in Names(found) {
      assert RealmOf(suffix, ns).value in found;
    }
    forall r | r in out[|known|..] ensures r in found || r in WellKnown(suffix) {
      assert out[|known|..] == some[|known|..] + out[|some|..];
    }
  }

  // ----- Which namespaces are reached -----

  /** Some realm of the list is purged with this namespace. */
  ghost predicate Reaches(rs: seq<Realm>, ns: string) {
    exists r <- rs :: r.namespace == ns
  }

  /** What comes of a namespace when realms are added by name. */
  lemma MergedReaches(out: seq<Realm>, extra: seq<Realm>, name: string, ns: string)
    requires forall x <- extra :: x.name == name <==> x.namespace == ns
    ensures Reaches(Merged(out, extra), ns) <==>
            Reaches(out, ns) || (name in Names(extra) && name !in Names(out))
  {
    MergedMeaning(out, extra);
    var r := Merged(out, extra);
    assert r == out + r[|out|..];
    if name in Names(extra) && name !in Names(out) {
      var x :| x in r && x.name == name;
      assert x !in out;
    }
  }

  /** A kukeon namespace is purged exactly when a listed realm has it, or no listed realm has its realm's name. */
  lemma NamespaceReachedExactly(suffix: string, listed: seq<Realm>, nss: seq<string>, ns: string)
    requires ns in nss && IsKukeon(suffix, ns)
    ensures Reaches(Collected(suffix, Some(listed), Some(nss)), ns) <==>
            RealmFrom(suffix, ns) !in Names(listed) || Reaches(listed, ns)
  {
    var name, sorted := RealmFrom(suffix, ns), InOrder(nss);
    var found := RealmsOf(suffix, sorted);
    RealmsOfMeaning(suffix, sorted);
    NamespaceRoundTrip(suffix, ns);
    assert RealmOf(suffix, ns).value in found && name in Names(found);
    forall x | x in found ensures x.name == name <==> x.namespace == ns {
      NamespaceRoundTrip(suffix, x.namespace);
    }
    MergedReaches(listed, found, name, ns);
    MergedMeaning(listed, found);
    MergedReaches(Merged(listed, found), WellKnown(suffix), name, ns);
  }

  /** So a realm placed in another namespace hides the one that carries its name. */
  lemma RenamedRealmHidesNamespace(suffix: string, name: string, other: string)
    requires name != "" && other != RealmNamespace(suffix, name)
    ensures var ns := RealmNamespace(suffix, name);
            !Reaches(Collected(suffix, Some([Realm(name, other)]), Some([ns])), ns)
  {
    var ns, listed := RealmNamespace(suffix, name), [Realm(name, other)];
    RealmRoundTrip(suffix, name);
    NamespaceReachedExactly(suffix, listed, [ns], ns);
    assert Realm(name, other) in listed;
  }
}
