/**
 Draining a cgroup and delegating controllers along a path (internal/ctr/cgroups.go), under the "Top-down
 Constraint" and "No Internal Process Constraint" of the Linux kernel's cgroup v2 document.
 */
module Cgroups {
  import opened Wrappers
  import opened Order

  /** A cgroup's path below the mountpoint, one segment an element. */
  type Path = seq<string>

  /** The cgroup of every process: the kernel keeps each in exactly one. */
  type Homes = map<nat, Path>

  type Controls = map<Path, set<string>>

  // ----- Choosing the controllers -----

  /** The wanted controllers the host has, in the order wanted. */
  function Kept(want: seq<string>, have: set<string>): (r: seq<string>)
    ensures forall c :: c in r <==> c in want && c in have
    ensures forall c <- have :: multiset(r)[c] == multiset(want)[c]
  {
    if want == [] then []
    else
      var last := want[|want| - 1];
      assert want == want[..|want| - 1] + [last];
      Kept(want[..|want| - 1], have) + if last in have then [last] else []
  }

  method IntersectControllers(want: seq<string>, have: seq<string>) returns (out: seq<string>)
    ensures out == Kept(want, Elements(have))
  {
    var haveSet := {};
    for i := 0 to |have|
      invariant haveSet == Elements(have[..i])
    {
      ElementsStep(have, i);
      haveSet := haveSet + {have[i]};
    }
    assert have[..|have|] == have;
    out := [];
    for i := 0 to |want|
      invariant out == Kept(want[..i], haveSet)
    {
      assert want[..i + 1][..i] == want[..i];
      if want[i] in haveSet {
        out := out + [want[i]];
      }
    }
    assert want[..|want|] == want;
  }

  // ----- The kernel's rules -----

  function Parent(p: Path): Path
    requires p != []
  {
    p[..|p| - 1]
  }

  /** Which controllers a cgroup may hand on: its parent's, or at the top the host's. */
  function Offered(root: set<string>, enabled: Controls, p: Path): set<string> {
    if p == [] then root else if Parent(p) in enabled then enabled[Parent(p)] else {}
  }

  ghost predicate TopDown(root: set<string>, enabled: Controls) {
    && [] in enabled
    && forall p <- enabled :: (p != [] ==> Parent(p) in enabled) && enabled[p] <= Offered(root, enabled, p)
  }

  /** A cgroup with a domain controller enabled for its children has no process, unless the rule exempts it. */
  ghost predicate NoInternal(domain: set<string>, exempt: bool, home: Homes, enabled: Controls) {
    forall x <- home :: home[x] in enabled && (enabled[home[x]] !! domain || (exempt && home[x] == []))
  }

  /** The processes listed in a group's cgroup.procs. */
  function Residents(home: Homes, p: Path): set<nat> {
    set x | x in home && home[x] == p
  }

  /** Controllers reach a cgroup only through all of its ancestors. */
  lemma {:induction false} EnabledAllTheWay(root: set<string>, enabled: Controls, p: Path, i: nat)
    requires TopDown(root, enabled) && p in enabled && i <= |p|
    ensures p[..i] in enabled && enabled[p] <= enabled[p[..i]]
    decreases |p| - i
  {
    if i == |p| {
      assert p[..i] == p;
    } else {
      EnabledAllTheWay(root, enabled, p, i + 1);
      assert Parent(p[..i + 1]) == p[..i];
    }
  }

  lemma ElementsStep<T>(s: seq<T>, i: nat)
    requires i < |s|
    ensures Elements(s[..i + 1]) == Elements(s[..i]) + {s[i]} && Elements(s[..i + 1]) <= Elements(s)
  {
    assert s[..i + 1] == s[..i] + [s[i]];
  }

  /** The homes after moving the given processes. */
  function Rehomed(home: Homes, pids: set<nat>, to: Path): (r: Homes) {
    map x | x in home :: if x in pids then to else home[x]
  }

  lemma RehomedStep(home: Homes, moved: set<nat>, x: nat, to: Path)
    requires x in Rehomed(home, moved, to)
    ensures Rehomed(home, moved, to)[x := to] == Rehomed(home, moved + {x}, to)
  {
  }

  lemma ResidentsAfter(home: Homes, moved: set<nat>, group: Path, to: Path, q: Path)
    requires moved <= Residents(home, group) && group != to
    ensures Residents(Rehomed(home, moved, to), q) ==
            if q == group then Residents(home, q) - moved
            else if q == to then Residents(home, q) + moved
            else Residents(home, q)
  {
    var now := Rehomed(home, moved, to);
    forall x | x in home ensures x in Residents(now, q) <==> if x in moved then q == to else home[x] == q {
      assert now[x] == if x in moved then to else home[x];
    }
  }

  /** However far a drain gets, no process is lost or counted twice: the group's are split between it and the leaf. */
  lemma DrainConserves(home: Homes, moved: set<nat>, group: Path, leaf: Path)
    requires moved <= Residents(home, group) && group != leaf
    ensures var now := Rehomed(home, moved, leaf);
            && now.Keys == home.Keys
            && |Residents(now, group)| + |Residents(now, leaf)| == |Residents(home, group)| + |Residents(home, leaf)|
            && Residents(now, group) !! Residents(now, leaf)
  {
    ResidentsAfter(home, moved, group, leaf, group);
    ResidentsAfter(home, moved, group, leaf, leaf);
    var rest, there := Residents(home, group) - moved, Residents(home, leaf);
    assert Residents(home, group) == rest + moved;
    assert there !! moved;
  }

  /** Controllers are only ever added, and only those of one request. */
  ghost predicate Widened(was: Controls, now: Controls, cs: set<string>) {
    was.Keys <= now.Keys && forall p <- now :: Enabled(was, p) <= now[p] <= Enabled(was, p) + cs
  }

  lemma WidenedTwice(a: Controls, b: Controls, c: Controls, cs: set<string>)
    requires Widened(a, b, cs) && Widened(b, c, cs)
    ensures Widened(a, c, cs)
  {
    forall p | p in c ensures Enabled(a, p) <= c[p] <= Enabled(a, p) + cs {
      assert p in b ==> Enabled(a, p) <= b[p] <= Enabled(a, p) + cs;
    }
  }

  function Enabled(enabled: Controls, p: Path): set<string> { if p in enabled then enabled[p] else {} }

  const BOOTSTRAP := "__bootstrap"

  predicate ValidLeaf(leaf: string) {
    leaf != "" && '/' !in leaf && leaf != "." && leaf != ".."
  }

  /** What is asked of the kernel. */
  datatype Request =
    | Make(path: Path) | ReadProcs(path: Path) | Move(pid: nat, to: Path) | Enable(path: Path)
    | ReadControllers | ReadStatus | Load(path: Path)

  /** The requests it refuses beyond what its rules demand. */
  type Refusals = Request -> bool

  predicate FreeIn(domain: set<string>, exempt: bool, home: Homes, enabled: Controls, p: Path, cs: set<string>) {
    Residents(home, p) == {} || (p in enabled && cs - enabled[p] !! domain) || (exempt && p == [])
  }

  class Hierarchy {
    /** The controllers the host advertises at the mountpoint, and which of them mind internal processes. */
    const root: set<string>
    const domain: set<string>
    /** Whether the mountpoint is the hierarchy's real root rather than a cgroup namespace's. */
    const exempt: bool
    /** The calling process. */
    const self: nat
    var home: Homes
    var enabled: Controls

    ghost predicate Valid()
      reads this
    {
      TopDown(root, enabled) && NoInternal(domain, exempt, home, enabled)
    }

    // ----- What the kernel does -----

    /** Makes a cgroup; an existing one is as good. */
    method Mkdir(p: Path, refused: Refusals) returns (ok: bool)
      requires Valid()
      modifies this`enabled
      ensures Valid()
      ensures ok <==> p in old(enabled) || (!refused(Make(p)) && p != [] && Parent(p) in old(enabled))
      ensures enabled == if ok && p !in old(enabled) then old(enabled)[p := {}] else old(enabled)
    {
      if p in enabled {
        return true;
      }
      ok := !refused(Make(p)) && p != [] && Parent(p) in enabled;
      if ok {
        enabled := enabled[p := {}];
      }
    }

    /** Reads cgroup.procs: every process of the group, in some order. */
    method ListProcs(p: Path, refused: Refusals) returns (r: Option<seq<nat>>)
      ensures r.Some? <==> !refused(ReadProcs(p)) && p in enabled
      ensures r.Some? ==> Elements(r.value) == Residents(home, p)
    {
      if refused(ReadProcs(p)) || p !in enabled {
        return None;
      }
      var rest, out := Residents(home, p), [];
      while rest != {}
        invariant rest <= Residents(home, p) && forall x :: x in out <==> x in Residents(home, p) && x !in rest
        decreases rest
      {
        var x :| x in rest;
        rest := rest - {x};
        out := out + [x];
      }
      r := Some(out);
    }

    /** Whether a group may hold processes. */
    predicate Admits(p: Path)
      reads this`enabled
    {
      p in enabled && (enabled[p] !! domain || (exempt && p == []))
    }

    /** Writes one pid to cgroup.procs; the kernel may refuse, and must where a domain controller is on. */
    method MoveTo(x: nat, to: Path, refused: Refusals) returns (ok: bool)
      requires Valid()
      modifies this`home
      ensures Valid()
      ensures ok <==> !refused(Move(x, to)) && x in old(home) && Admits(to)
      ensures home == if ok then old(home)[x := to] else old(home)
    {
      ok := !refused(Move(x, to)) && x in home && Admits(to);
      if ok {
        home := home[x := to];
      }
    }

    /** A group whose processes do not stand in the way of these controllers. */
    predicate Free(p: Path, cs: set<string>)
      reads this
    {
      FreeIn(domain, exempt, home, enabled, p, cs)
    }

    /** Whether the kernel would take "+c" for all of cs in a group's subtree_control. */
    predicate MayEnable(p: Path, cs: set<string>)
      reads this
    {
      p in enabled && cs <= Offered(root, enabled, p) && Free(p, cs)
    }

    /** One write to cgroup.subtree_control: all of the controllers, or none. */
    method Write(p: Path, cs: set<string>, refused: Refusals) returns (ok: bool)
      requires Valid()
      modifies this`enabled
      ensures Valid()
      ensures ok <==> !refused(Enable(p)) && old(MayEnable(p, cs))
      ensures enabled == if ok then old(enabled)[p := old(enabled)[p] + cs] else old(enabled)
    {
      ok := !refused(Enable(p)) && MayEnable(p, cs);
      if ok {
        assert Residents(home, p) == {} ==> forall x <- home :: home[x] != p by {
          if x :| x in home && home[x] == p {
            assert x in Residents(home, p);
          }
        }
        enabled := enabled[p := enabled[p] + cs];
      }
    }

    // ----- What kukeon does -----

    /** Every process of the group can be moved to the leaf, which is there or can be made. */
    predicate Drains(group: Path, leaf: string, refused: Refusals)
      reads this
    {
      var to := group + [leaf];
      && ValidLeaf(leaf) && group in enabled && !refused(ReadProcs(group))
      && (to in enabled || !refused(Make(to)))
      && forall x <- Residents(home, group) :: !refused(Move(x, to)) && (to in enabled ==> enabled[to] !! domain)
    }

    /** RelocateProcessesToLeaf: moved says how far it got. */
    method RelocateProcessesToLeaf(group: Path, leaf: string, refused: Refusals)
      returns (ok: bool, ghost moved: set<nat>)
      requires Valid()
      modifies this
      ensures Valid()
      ensures ok <==> old(Drains(group, leaf, refused))
      ensures moved <= Residents(old(home), group) && home == Rehomed(old(home), moved, group + [leaf])
      ensures enabled == old(enabled)
              || (group + [leaf] !in old(enabled) && enabled == old(enabled)[group + [leaf] := {}])
      ensures !ValidLeaf(leaf) || group !in old(enabled) ==> unchanged(this)
      ensures ok ==> group + [leaf] in enabled && moved == Residents(old(home), group)
    {
      ok, moved := false, {};
      assert home == Rehomed(home, {}, group + [leaf]);
      if !ValidLeaf(leaf) {
        return;
      }
      var to := group + [leaf];
      assert Parent(to) == group && to != [];
      var made := Mkdir(to, refused);
      if !made {
        return;
      }
      var pids := ListProcs(group, refused);
      if pids.None? {
        return;
      }
      ok, moved := MoveAll(pids.value, group, to, refused);
    }

    /** writeCgroupProcs: one write a pid, stopping at the first that is refused. */
    method MoveAll(pids: seq<nat>, ghost from: Path, to: Path, refused: Refusals)
      returns (ok: bool, ghost moved: set<nat>)
      requires Valid() && Elements(pids) == Residents(home, from)
      modifies this`home
      ensures Valid() && moved <= Residents(old(home), from) && home == Rehomed(old(home), moved, to)
      ensures ok <==> forall x <- Residents(old(home), from) :: !refused(Move(x, to)) && Admits(to)
      ensures ok ==> moved == Residents(old(home), from)
    {
      moved := {};
      for i := 0 to |pids|
        invariant Valid() && moved == Elements(pids[..i]) && moved <= Elements(pids)
        invariant home == Rehomed(old(home), moved, to)
        invariant forall x <- moved :: !refused(Move(x, to)) && Admits(to)
      {
        assert pids[i] in Residents(old(home), from);
        var done := MoveTo(pids[i], to, refused);
        if !done {
          return false, moved;
        }
        ElementsStep(pids, i);
        RehomedStep(old(home), moved, pids[i], to);
        moved := moved + {pids[i]};
      }
      ok := true;
      assert pids[..|pids|] == pids;
    }

    /** Reads the host root's cgroup.controllers. */
    method ReadRootControllers(refused: Refusals) returns (r: Option<seq<string>>)
      ensures r.Some? <==> !refused(ReadControllers)
      ensures r.Some? ==> Elements(r.value) == root
    {
      if refused(ReadControllers) {
        return None;
      }
      var rest, out := root, [];
      while rest != {}
        invariant rest <= root && Elements(out) == root - rest
        decreases rest
      {
        var c :| c in rest;
        rest := rest - {c};
        assert Elements(out + [c]) == Elements(out) + {c};
        out := out + [c];
      }
      r := Some(out);
    }

    /** The caller sits at the root of a cgroup namespace, where its presence blocks domain controllers. */
    predicate Trapped()
      reads this
    {
      !exempt && self in home && home[self] == []
    }

    /** The caller is not trapped, or can be got out. */
    predicate CanLeave(refused: Refusals)
      reads this
    {
      !refused(ReadStatus) && (Trapped() ==> Drains([], BOOTSTRAP, refused))
    }

    /** maybeDrainCgroupNsRoot: the real root has no cgroup.events, so only a namespace's root is ever drained. */
    method MaybeDrainCgroupNsRoot(refused: Refusals) returns (ok: bool, ghost moved: set<nat>)
      requires Valid()
      modifies this
      ensures Valid() && Widened(old(enabled), enabled, {})
      ensures ok <==> old(CanLeave(refused))
      ensures moved <= Residents(old(home), []) && home == Rehomed(old(home), moved, [BOOTSTRAP])
      ensures !old(Trapped()) ==> unchanged(this)
      ensures ok ==> !Trapped()
      ensures ok && old(Trapped()) ==> moved == Residents(old(home), [])
    {
      moved := {};
      assert home == Rehomed(home, {}, [BOOTSTRAP]);
      var atRoot, populated := self in home && home[self] == [], !exempt && home.Keys != {};
      if refused(ReadStatus) {
        return false, moved;
      }
      if !atRoot || !populated {
        return true, moved;
      }
      assert self in Residents(home, []) && [] + [BOOTSTRAP] == [BOOTSTRAP];
      ok, moved := RelocateProcessesToLeaf([], BOOTSTRAP, refused);
    }

    /** Nothing on the way to the group stands against these controllers. */
    predicate Clear(group: Path, cs: set<string>, refused: Refusals)
      reads this
    {
      && group in enabled && cs <= root
      && forall i | 0 <= i <= |group| :: !refused(Enable(group[..i])) && Free(group[..i], cs)
    }

    /** Manager.ToggleControllers: every proper ancestor in turn; only the last write decides the outcome. */
    method ToggleControllers(group: Path, cs: set<string>, refused: Refusals) returns (ok: bool)
      requires Valid()
      modifies this`enabled
      ensures Valid() && Widened(old(enabled), enabled, cs)
      ensures group in old(enabled) && cs <= old(enabled)[group] ==> enabled == old(enabled)
      ensures old(Clear(group, cs, refused)) ==>
        ok && Clear(group, cs, refused) && cs <= Offered(root, enabled, group)
    {
      ok := true;
      for i := 0 to |group|
        invariant Valid() && Widened(old(enabled), enabled, cs)
        invariant group in old(enabled) && cs <= old(enabled)[group] ==> enabled == old(enabled)
        invariant old(Clear(group, cs, refused)) ==>
          ok && Clear(group, cs, refused) && cs <= Offered(root, enabled, group[..i])
      {
        ghost var before := enabled;
        ok := Step(group, i, cs, refused);
        WidenedTwice(old(enabled), before, enabled, cs);
      }
      assert group[..|group|] == group;
    }

    /** One ancestor's write. */
    method Step(group: Path, i: nat, cs: set<string>, refused: Refusals) returns (ok: bool)
      requires Valid() && i < |group|
      modifies this`enabled
      ensures Valid() && Widened(old(enabled), enabled, cs)
      ensures group in old(enabled) && cs <= old(enabled)[group] ==> enabled == old(enabled)
      ensures old(Clear(group, cs, refused)) && cs <= old(Offered(root, enabled, group[..i])) ==>
        ok && Clear(group, cs, refused) && cs <= Offered(root, enabled, group[..i + 1])
    {
      if group in enabled {
        EnabledAllTheWay(root, enabled, group, i);
        if cs <= enabled[group] {
          assert enabled[group[..i]] + cs == enabled[group[..i]];
        }
      }
      ok := Write(group[..i], cs, refused);
      assert Parent(group[..i + 1]) == group[..i];
    }

    /** A request that has nothing left to do. */
    predicate Settled(group: Path, cs: set<string>)
      reads this
    {
      !Trapped() && group in enabled && cs <= enabled[group]
    }

    /** The controllers are enabled on every cgroup from the root to the group. */
    predicate Delegated(group: Path, cs: set<string>)
      reads this
    {
      forall i | 0 <= i <= |group| :: group[..i] in enabled && cs <= enabled[group[..i]]
    }

    lemma SettledIsDelegated(group: Path, cs: set<string>)
      requires Valid() && Settled(group, cs)
      ensures Delegated(group, cs)
    {
      forall i | 0 <= i <= |group| ensures group[..i] in enabled && cs <= enabled[group[..i]] {
        EnabledAllTheWay(root, enabled, group, i);
      }
    }

    /** The kernel has no objection: the caller is not trapped or can be got out, and nothing else stands against the
        controllers between the top and the group. */
    predicate Willing(group: Path, cs: set<string>, refused: Refusals)
      reads this
    {
      && CanLeave(refused) && !refused(Load(group)) && group in enabled && cs <= root
      && (forall i | 0 <= i <= |group| :: !refused(Enable(group[..i])))
      && (forall i | 0 < i <= |group| :: Free(group[..i], cs))
      && (if Trapped() then group == [] || group[0] != BOOTSTRAP else Free([], cs))
    }

    /** applySubtreeControllers: drain, the ancestors, then the group itself. */
    method ApplySubtreeControllers(group: Path, enable: seq<string>, refused: Refusals)
      returns (ok: bool, ghost moved: set<nat>)
      requires Valid()
      modifies this
      ensures Valid() && Widened(old(enabled), enabled, Elements(enable))
      ensures moved <= Residents(old(home), []) && home == Rehomed(old(home), moved, [BOOTSTRAP])
      ensures enable == [] || old(Settled(group, Elements(enable))) ==> unchanged(this)
      ensures ok && enable != [] ==> Settled(group, Elements(enable))
      ensures enable == [] || old(Willing(group, Elements(enable), refused)) ==> ok
    {
      moved := {};
      assert home == Rehomed(home, {}, [BOOTSTRAP]);
      if enable == [] {
        return true, moved;
      }
      ghost var was, before, trapped := home, enabled, Trapped();
      ghost var willing := Willing(group, Elements(enable), refused);
      ok, moved := MaybeDrainCgroupNsRoot(refused);
      if !ok {
        return;
      }
      if willing {
        ClearAfterDrain(was, before, trapped, group, Elements(enable), refused);
      }
      if refused(Load(group)) {
        return false, moved;
      }
      ok := Widen(group, Elements(enable), refused);
    }

    /** After the drain nothing is left against the controllers. */
    lemma ClearAfterDrain(was: Homes, before: Controls, trapped: bool, group: Path, cs: set<string>, refused: Refusals)
      requires TopDown(root, before) && group in before && cs <= root && Widened(before, enabled, {})
      requires forall i | 0 <= i <= |group| :: !refused(Enable(group[..i]))
      requires forall i | 0 < i <= |group| :: FreeIn(domain, exempt, was, before, group[..i], cs)
      requires if trapped then group == [] || group[0] != BOOTSTRAP else FreeIn(domain, exempt, was, before, [], cs)
      requires home == if trapped then Rehomed(was, Residents(was, []), [BOOTSTRAP]) else was
      ensures Clear(group, cs, refused)
    {
      forall i | 0 <= i <= |group| ensures Free(group[..i], cs) {
        var p := group[..i];
        EnabledAllTheWay(root, before, group, i);
        assert enabled[p] == before[p];
        if trapped {
          ResidentsAfter(was, Residents(was, []), [], [BOOTSTRAP], p);
          assert i > 0 ==> p != [] && p[0] == group[0];
        }
      }
    }

    /** The writes after the drain: every ancestor, then the group. */
    method Widen(group: Path, cs: set<string>, refused: Refusals) returns (ok: bool)
      requires Valid()
      modifies this`enabled
      ensures Valid() && Widened(old(enabled), enabled, cs)
      ensures group in old(enabled) && cs <= old(enabled)[group] ==> enabled == old(enabled)
      ensures ok ==> group in enabled && cs <= enabled[group]
      ensures old(Clear(group, cs, refused)) ==> ok
    {
      ok := ToggleControllers(group, cs, refused);
      if !ok {
        return;
      }
      if group in enabled && cs <= enabled[group] {
        assert enabled[group] + cs == enabled[group];
      }
      assert group[..|group|] == group;
      ok := Write(group, cs, refused);
    }

    /**
     EnsureSubtreeControllers: group is None for a path the validation rejects. Success delegates every wanted
     controller the host has, all the way down, and comes whenever the kernel is willing; asked again, nothing changes
     whatever the kernel refuses.
     */
    method EnsureSubtreeControllers(group: Option<Path>, controllers: seq<string>, refused: Refusals)
      returns (r: Option<seq<string>>, ghost moved: set<nat>)
      requires Valid()
      modifies this
      ensures Valid() && Widened(old(enabled), enabled, Elements(controllers) * root)
      ensures moved <= Residents(old(home), []) && home == Rehomed(old(home), moved, [BOOTSTRAP])
      ensures group.None? ==> r.None?
      ensures group.Some? && controllers == [] ==> r == Some([])
      ensures r.Some? ==>
              r.value == Kept(controllers, root) && (r.value != [] ==> Settled(group.value, Elements(r.value)))
      ensures r.Some? && r.value != [] ==> Delegated(group.value, Elements(r.value))
      ensures group.None? || old(Settled(group.value, Elements(Kept(controllers, root)))) ==> unchanged(this)
      ensures
        && group.Some? && !refused(ReadControllers)
        && old(Willing(group.value, Elements(Kept(controllers, root)), refused)) ==>
        r.Some?
    {
      r, moved := None, {};
      assert home == Rehomed(home, {}, [BOOTSTRAP]);
      if group.None? {
        return;
      }
      if controllers == [] {
        return Some([]), moved;
      }
      var available := ReadRootControllers(refused);
      if available.None? {
        return;
      }
      var enable := IntersectControllers(controllers, available.value);
      assert Elements(enable) == Elements(controllers) * root;
      var ok;
      ok, moved := ApplySubtreeControllers(group.value, enable, refused);
      if !ok {
        return;
      }
      if enable != [] {
        SettledIsDelegated(group.value, Elements(enable));
      }
      r := Some(enable);
    }

    /** Once a group is drained, only the top-down rule can keep the kernel from enabling a controller in it. */
    lemma DrainAdmits(was: Homes, group: Path, leaf: Path, cs: set<string>)
      requires home == Rehomed(was, Residents(was, group), leaf) && group != leaf && group in enabled
      ensures MayEnable(group, cs) <==> cs <= Offered(root, enabled, group)
    {
      ResidentsAfter(was, Residents(was, group), group, leaf, group);
    }
  }
}
